/** The string handling of `FABRICSSHKey` in python/fss_utils/sshkey.py: the
    label check of `generate`, the three-field OpenSSH public-key string that
    the constructor splits and `as_public_key_string` joins again, and the
    colon-separated MD5 fingerprint.  Key generation, key import and hashing
    are library calls: they arrive as parameters. */
module SshKey {
  import opened Externals

  /* ---------------------------------------------------------------------
     LABEL_REGEX = "^[a-zA-Z0-9@-_()]{0,64}$" under re.match
     --------------------------------------------------------------------- */

  /** The longest label the repetition `{0,64}` admits. */
  const MaxLabelLength := 64

  /** The character class `[a-zA-Z0-9@-_()]`: `@-_` is the range from '@'
      (0x40) to '_' (0x5F), which holds the upper-case letters and `[ \ ] ^`;
      a literal '-' is not in the class. */
  predicate LabelChar(c: char) {
    || ('a' <= c <= 'z')
    || ('A' <= c <= 'Z')
    || ('0' <= c <= '9')
    || ('@' <= c <= '_')
    || c == '(' || c == ')'
  }

  /** Where the greedy repetition stops when it starts at position `k` of
      `s`: it takes class characters while fewer than 64 are taken. */
  function GreedyEnd(s: string, k: nat): (n: nat)
    requires k <= |s| && k <= MaxLabelLength
    ensures k <= n <= |s| && n <= MaxLabelLength
    ensures forall i | k <= i < n :: LabelChar(s[i])
    ensures n < |s| && n < MaxLabelLength ==> !LabelChar(s[n])
    decreases |s| - k
  {
    if k < |s| && k < MaxLabelLength && LabelChar(s[k]) then GreedyEnd(s, k + 1) else k
  }

  /** `$` without MULTILINE matches at position `j`: at the end of the
      string, or just before a newline that ends it. */
  predicate DollarAt(s: string, j: nat) {
    j == |s| || (j + 1 == |s| && s[j] == '\n')
  }

  /** Backtracking from repetition count `j` down to 0 until `$` matches. */
  function Backtrack(s: string, j: nat): (r: bool)
    requires j <= |s|
    ensures r <==> exists i | 0 <= i <= j :: DollarAt(s, i)
  {
    if DollarAt(s, j) then true
    else if j == 0 then false
    else
      var r := Backtrack(s, j - 1);
      assert !r ==> forall i | 0 <= i <= j :: !DollarAt(s, i) by {
        if !r {
          forall i | 0 <= i <= j ensures !DollarAt(s, i) {
            if i < j { assert !(exists i' | 0 <= i' <= j - 1 :: DollarAt(s, i')); }
          }
        }
      }
      r
  }


  /** The label without the one trailing newline `$` lets through. */
  function LabelBody(keyLabel: string): string {
    if |keyLabel| > 0 && keyLabel[|keyLabel| - 1] == '\n' then keyLabel[..|keyLabel| - 1] else keyLabel
  }

  /** What the pattern accepts, stated directly: at most 64 class characters,
      optionally followed by one newline. */
  predicate AcceptableLabel(keyLabel: string) {
    var body := LabelBody(keyLabel);
    |body| <= MaxLabelLength && forall i | 0 <= i < |body| :: LabelChar(body[i])
  }

  /** `re.match(LABEL_REGEX, label) is not None`: the greedy repetition,
      then backtracking until `$` matches.  It accepts exactly what
      `AcceptableLabel` describes. */
  function LabelMatches(keyLabel: string): (b: bool)
    ensures b <==> AcceptableLabel(keyLabel)
  {
    var n := GreedyEnd(keyLabel, 0);
    var body := LabelBody(keyLabel);
    assert AcceptableLabel(keyLabel) ==> DollarAt(keyLabel, n);
    assert Backtrack(keyLabel, n) ==> AcceptableLabel(keyLabel) by {
      if Backtrack(keyLabel, n) {
        var j :| 0 <= j <= n && DollarAt(keyLabel, j);
        assert keyLabel[..j] == body by {
          if j < |keyLabel| {
            assert keyLabel[j] == '\n';
          } else if |keyLabel| > 0 {
            assert LabelChar(keyLabel[|keyLabel| - 1]);
          }
        }
        assert forall i | 0 <= i < |body| :: body[i] == keyLabel[i];
      }
    }
    Backtrack(keyLabel, n)
  }

  /** The empty label is accepted. */
  lemma EmptyLabelAccepted()
    ensures LabelMatches("")
  {
  }

  /** A label holding '-' anywhere is rejected. */
  lemma HyphenRejected(keyLabel: string, i: nat)
    requires i < |keyLabel| && keyLabel[i] == '-'
    ensures !LabelMatches(keyLabel)
  {
    var body := LabelBody(keyLabel);
    assert i < |body| ==> body[i] == '-';
  }

  /** An accepted label holds no space, so it is one field of a
      space-separated string. */
  lemma AcceptedLabelHasNoSpace(keyLabel: string)
    requires LabelMatches(keyLabel)
    ensures ' ' !in keyLabel
  {
    var body := LabelBody(keyLabel);
    forall i | 0 <= i < |keyLabel| ensures keyLabel[i] != ' ' {
      if i < |body| {
        assert body[i] == keyLabel[i];
      }
    }
  }

  /** `[`, `\`, `]` and `^` lie in the range `@-_` and are accepted. */
  lemma RangeCharactersAccepted()
    ensures LabelMatches("[\\]^")
  {
  }

  /** An accepted label without a newline stays accepted with one newline
      appended; a second newline is rejected. */
  lemma TrailingNewlineAccepted(keyLabel: string)
    requires LabelMatches(keyLabel) && '\n' !in keyLabel
    ensures LabelMatches(keyLabel + "\n")
    ensures !LabelMatches(keyLabel + "\n\n")
  {
    OneTrailingNewline(keyLabel);
    TwoTrailingNewlines(keyLabel);
  }

  lemma OneTrailingNewline(keyLabel: string)
    requires AcceptableLabel(keyLabel) && '\n' !in keyLabel
    ensures AcceptableLabel(keyLabel + "\n")
  {
    assert LabelBody(keyLabel) == keyLabel;
    assert LabelBody(keyLabel + "\n") == keyLabel;
  }

  lemma TwoTrailingNewlines(keyLabel: string)
    ensures !AcceptableLabel(keyLabel + "\n\n")
  {
    var body := LabelBody(keyLabel + "\n\n");
    assert body == keyLabel + "\n";
    assert body[|keyLabel|] == '\n';
    assert !LabelChar(body[|keyLabel|]);
  }

  /** Sixty-five class characters are one too many. */
  lemma LongLabelRejected(keyLabel: string)
    requires |keyLabel| == MaxLabelLength + 1 && forall i | 0 <= i < |keyLabel| :: LabelChar(keyLabel[i])
    ensures !LabelMatches(keyLabel)
  {
    assert LabelBody(keyLabel) == keyLabel;
  }

  /* ---------------------------------------------------------------------
     str.split(" ") and " ".join(...)
     --------------------------------------------------------------------- */

  /** `s.split(sep)` for a one-character separator: every occurrence
      separates, and empty fields are kept. */
  function Split(s: string, sep: char): (parts: seq<string>)
    ensures |parts| >= 1
    ensures forall i | 0 <= i < |parts| :: sep !in parts[i]
  {
    if s == [] then [""]
    else
      var rest := Split(s[1..], sep);
      if s[0] == sep then [""] + rest
      else [[s[0]] + rest[0]] + rest[1..]
  }

  /** `sep.join(parts)`: the result starts with the first part, a separator
      follows it when there is a second part, and every character of the
      result is the separator or a character of some part. */
  function Join(parts: seq<string>, sep: char): (s: string)
    ensures |parts| >= 1 ==> parts[0] <= s
    ensures |parts| >= 2 ==> |s| > |parts[0]| && s[|parts[0]|] == sep
    ensures forall c | c in s :: c == sep || exists i | 0 <= i < |parts| :: c in parts[i]
  {
    if |parts| == 0 then ""
    else if |parts| == 1 then parts[0]
    else
      var rest := Join(parts[1..], sep);
      assert forall i | 0 <= i < |parts| - 1 :: parts[1..][i] == parts[i + 1];
      parts[0] + [sep] + rest
  }

  lemma JoinTwo(a: string, b: string, sep: char)
    ensures Join([a, b], sep) == a + [sep] + b
  {
    assert [a, b][1..] == [b];
  }

  lemma JoinThree(a: string, b: string, c: string, sep: char)
    ensures Join([a, b, c], sep) == a + [sep] + b + [sep] + c
  {
    assert [a, b, c][1..] == [b, c];
    JoinTwo(b, c, sep);
  }

  /** Joining the fields of a split gives back the string. */
  lemma {:induction false} JoinSplit(s: string, sep: char)
    ensures Join(Split(s, sep), sep) == s
  {
    if s != [] {
      var rest := Split(s[1..], sep);
      JoinSplit(s[1..], sep);
      if s[0] != sep {
        if |rest| == 1 {
          assert s == [s[0]] + rest[0];
        } else {
          assert rest == [rest[0]] + rest[1..];
          assert Join(rest, sep) == rest[0] + [sep] + Join(rest[1..], sep);
          assert s == [s[0]] + s[1..];
        }
      } else {
        assert s == [sep] + s[1..];
      }
    }
  }

  /** Splitting a join of separator-free fields gives back the fields. */
  lemma {:induction false} SplitJoin(parts: seq<string>, sep: char)
    requires |parts| >= 1 && forall i | 0 <= i < |parts| :: sep !in parts[i]
    ensures Split(Join(parts, sep), sep) == parts
    decreases parts
  {
    if |parts| == 1 {
      SplitField(parts[0], [], sep);
    } else {
      SplitJoin(parts[1..], sep);
      SplitField(parts[0], Join(parts[1..], sep), sep);
      assert [parts[0]] + parts[1..] == parts;
    }
  }

  /** A separator-free field in front of `[sep] + tail`, or alone. */
  lemma {:induction false} SplitField(field: string, tail: string, sep: char)
    requires sep !in field
    ensures tail == [] ==> Split(field, sep) == [field]
    ensures Split(field + [sep] + tail, sep) == [field] + Split(tail, sep)
    decreases |field|
  {
    if field == [] {
      assert field + [sep] + tail == [sep] + tail;
      assert ([sep] + tail)[1..] == tail;
    } else {
      SplitField(field[1..], tail, sep);
      assert (field + [sep] + tail)[1..] == field[1..] + [sep] + tail;
      assert [field[0]] + field[1..] == field;
    }
  }

  /* ---------------------------------------------------------------------
     FABRICSSHKey
     --------------------------------------------------------------------- */

  /** A key: the three fields of its public string, its length in bits, and
      the private key, which only `generate` sets. */
  datatype FabricSshKey = FabricSshKey(
    name: string, publicKey: string, keyLabel: string, length: int, privateKey: Option<string>)

  /** The failures of the constructor and of `generate`. */
  datatype KeyError =
    | LabelRejected(keyLabel: string)
    | AlgorithmUnsupported(algorithm: string)
    | NotImportable
    | WrongFieldCount(count: nat)

  datatype Outcome<+T> = Ok(value: T) | Err(error: KeyError)

  /** `FABRICSSHKey(public_key)`.  `keyLength` is `get_key_length(ks,
      validate=True)`: the key size, or None when the library cannot import
      the string.  The import is checked before the string is split. */
  function FromPublicString(s: string, keyLength: string -> Option<int>): (r: Outcome<FabricSshKey>)
    ensures r.Ok? <==> keyLength(s).Some? && |Split(s, ' ')| == 3
    ensures r.Ok? ==> r.value.privateKey.None? && r.value.length == keyLength(s).value
  {
    match keyLength(s)
    case None => Err(NotImportable)
    case Some(length) =>
      var fields := Split(s, ' ');
      if |fields| != 3 then Err(WrongFieldCount(|fields|))
      else Ok(FabricSshKey(fields[0], fields[1], fields[2], length, None))
  }

  /** `as_public_key_string`: the three fields joined by spaces; splitting
      it gives them back when none of them holds a space. */
  function AsPublicKeyString(k: FabricSshKey): (s: string)
    ensures s == k.name + " " + k.publicKey + " " + k.keyLabel
    ensures ' ' !in k.name && ' ' !in k.publicKey && ' ' !in k.keyLabel ==>
      Split(s, ' ') == [k.name, k.publicKey, k.keyLabel]
  {
    var fields := [k.name, k.publicKey, k.keyLabel];
    JoinThree(k.name, k.publicKey, k.keyLabel, ' ');
    if ' ' !in k.name && ' ' !in k.publicKey && ' ' !in k.keyLabel then
      SplitJoin(fields, ' ');
      Join(fields, ' ')
    else Join(fields, ' ')
  }

  /** `as_keypair`: the private key, which only `generate` sets, and the
      public string. */
  function AsKeypair(k: FabricSshKey): (pair: (Option<string>, string))
    ensures pair.0 == k.privateKey
    ensures ' ' !in k.name && ' ' !in k.publicKey && ' ' !in k.keyLabel ==>
      Split(pair.1, ' ') == [k.name, k.publicKey, k.keyLabel]
  {
    (k.privateKey, AsPublicKeyString(k))
  }

  /** A generated key gives back the key pair's private PEM and the
      stripped public string with the label appended. */
  lemma GeneratedKeypair(keyLabel: string, algorithm: string, material: string -> KeyMaterial,
                         keyLength: string -> Option<int>)
    requires Generate(keyLabel, algorithm, material, keyLength).Ok?
    ensures AsKeypair(Generate(keyLabel, algorithm, material, keyLength).value) ==
      (Some(material(algorithm).privatePem), Strip(material(algorithm).publicOpenSsh) + " " + keyLabel)
  {
  }

  /** A key built from a public string gives back exactly that string, and
      no private key. */
  lemma PublicStringRoundTrip(s: string, keyLength: string -> Option<int>)
    requires FromPublicString(s, keyLength).Ok?
    ensures AsKeypair(FromPublicString(s, keyLength).value) == (None, s)
  {
    var fields := Split(s, ' ');
    JoinSplit(s, ' ');
    assert fields == [fields[0], fields[1], fields[2]];
  }

  /** Three fields without spaces survive the join and the split. */
  lemma FieldsRoundTrip(k: FabricSshKey, keyLength: string -> Option<int>)
    requires ' ' !in k.name && ' ' !in k.publicKey && ' ' !in k.keyLabel
    requires keyLength(AsPublicKeyString(k)) == Some(k.length) && k.privateKey.None?
    ensures FromPublicString(AsPublicKeyString(k), keyLength) == Ok(k)
  {
    SplitJoin([k.name, k.publicKey, k.keyLabel], ' ');
  }

  /** The two key pairs of `KEY_ALGORITHMS`, made once at import time. */
  datatype KeyMaterial = KeyMaterial(privatePem: string, publicOpenSsh: string)

  /** The algorithms `generate` supports. */
  const KeyAlgorithms: set<string> := {"rsa", "ecdsa"}

  /** The characters `str.strip()` removes (ASCII only). */
  predicate Whitespace(c: char) {
    c == ' ' || ('\t' <= c <= '\r') || ('\U{1c}' <= c <= '\U{1f}')
  }

  /** How many whitespace characters `s` starts with. */
  function LeadingSpace(s: string): (n: nat)
    ensures n <= |s|
    ensures forall i | 0 <= i < n :: Whitespace(s[i])
    ensures n < |s| ==> !Whitespace(s[n])
  {
    if s == [] || !Whitespace(s[0]) then 0 else 1 + LeadingSpace(s[1..])
  }

  /** Where the trailing whitespace of `s` begins. */
  function TrailingSpaceStart(s: string): (n: nat)
    ensures n <= |s|
    ensures forall i | n <= i < |s| :: Whitespace(s[i])
    ensures n > 0 ==> !Whitespace(s[n - 1])
  {
    if s == [] || !Whitespace(s[|s| - 1]) then |s| else TrailingSpaceStart(s[..|s| - 1])
  }

  /** `str.strip()`: the string without leading and trailing whitespace.
      The result is a slice of `s`; it is empty exactly when `s` is all
      whitespace, and otherwise starts and ends with a character that is
      not whitespace. */
  function Strip(s: string): (r: string)
    ensures LeadingSpace(s) + |r| <= |s|
    ensures r == [] <==> forall i | 0 <= i < |s| :: Whitespace(s[i])
    ensures r != [] ==> !Whitespace(r[0]) && !Whitespace(r[|r| - 1])
    ensures forall i | 0 <= i < |r| :: r[i] == s[LeadingSpace(s) + i]
    ensures forall i | LeadingSpace(s) + |r| <= i < |s| :: Whitespace(s[i])
  {
    var e := TrailingSpaceStart(s);
    var b := LeadingSpace(s[..e]);
    assert b < e ==> LeadingSpace(s) == b by {
      if b < e {
        LeadingSpacePrefix(s, e);
      }
    }
    assert b == e ==> forall i | 0 <= i < |s| :: Whitespace(s[i]) by {
      if b == e {
        forall i | 0 <= i < |s| ensures Whitespace(s[i]) {
          if i < e { assert s[..e][i] == s[i]; }
        }
      }
    }
    s[b..e]
  }

  /** A prefix that reaches past the leading whitespace of `s` has the same
      leading whitespace. */
  lemma LeadingSpacePrefix(s: string, e: nat)
    requires e <= |s| && LeadingSpace(s[..e]) < e
    ensures LeadingSpace(s) == LeadingSpace(s[..e])
  {
    var t := s[..e];
    var b := LeadingSpace(t);
    assert !Whitespace(s[b]) by {
      assert t[b] == s[b];
    }
    forall i | 0 <= i < b
      ensures Whitespace(s[i])
    {
      assert t[i] == s[i];
    }
    LeadingSpaceAt(s, b);
  }

  /** `LeadingSpace` is the index of the first character that is not
      whitespace. */
  lemma {:induction false} LeadingSpaceAt(s: string, n: nat)
    requires n < |s| && !Whitespace(s[n]) && forall i | 0 <= i < n :: Whitespace(s[i])
    ensures LeadingSpace(s) == n
    decreases n
  {
    if n > 0 {
      LeadingSpaceAt(s[1..], n - 1);
    }
  }

  /** Stripping twice strips nothing more. */
  lemma StripIdempotent(s: string)
    ensures Strip(Strip(s)) == Strip(s)
  {
    var r := Strip(s);
    if r != [] {
      LeadingSpaceAt(r, 0);
      assert TrailingSpaceStart(r) == |r|;
      assert r[..|r|] == r;
    }
  }

  /** `FABRICSSHKey.generate(label, algorithm)`: `material` gives the key
      pair `KEY_ALGORITHMS` holds for an algorithm, `keyLength` is the import
      check of the constructor. */
  function Generate(keyLabel: string, algorithm: string, material: string -> KeyMaterial,
                    keyLength: string -> Option<int>): (r: Outcome<FabricSshKey>)
    ensures !LabelMatches(keyLabel) ==> r == Err(LabelRejected(keyLabel))
    ensures LabelMatches(keyLabel) && algorithm !in KeyAlgorithms ==> r == Err(AlgorithmUnsupported(algorithm))
    ensures r.Ok? ==> algorithm in KeyAlgorithms && r.value.privateKey == Some(material(algorithm).privatePem)
    ensures r.Ok? ==> AsPublicKeyString(r.value) == Strip(material(algorithm).publicOpenSsh) + " " + keyLabel
  {
    if !LabelMatches(keyLabel) then Err(LabelRejected(keyLabel))
    else if algorithm !in KeyAlgorithms then Err(AlgorithmUnsupported(algorithm))
    else
      var keys := material(algorithm);
      var s := Join([Strip(keys.publicOpenSsh), keyLabel], ' ');
      JoinTwo(Strip(keys.publicOpenSsh), keyLabel, ' ');
      match FromPublicString(s, keyLength)
      case Err(e) => Err(e)
      case Ok(k) =>
        PublicStringRoundTrip(s, keyLength);
        Ok(k.(privateKey := Some(keys.privatePem)))
  }

  /** No accepted label holds a space, so when the library's public string
      is "<type> <base64>" and the import succeeds, `generate` yields those
      two fields and the label as the key's three fields. */
  lemma GenerateFields(keyLabel: string, algorithm: string, material: string -> KeyMaterial,
                       keyLength: string -> Option<int>, name: string, publicKey: string)
    requires LabelMatches(keyLabel) && algorithm in KeyAlgorithms
    requires Strip(material(algorithm).publicOpenSsh) == name + " " + publicKey
    requires ' ' !in name && ' ' !in publicKey
    requires keyLength(name + " " + publicKey + " " + keyLabel).Some?
    ensures var r := Generate(keyLabel, algorithm, material, keyLength);
      && r.Ok? && r.value.name == name && r.value.publicKey == publicKey && r.value.keyLabel == keyLabel
  {
    AcceptedLabelHasNoSpace(keyLabel);
    var fields := [name, publicKey, keyLabel];
    JoinThree(name, publicKey, keyLabel, ' ');
    JoinTwo(name + " " + publicKey, keyLabel, ' ');
    SplitJoin(fields, ' ');
  }

  /* ---------------------------------------------------------------------
     get_fingerprint
     --------------------------------------------------------------------- */

  /** `[h[i:i+2] for i in range(0, len(h), 2)]`. */
  function Chunks(h: string): (chunks: seq<string>)
    ensures |chunks| == (|h| + 1) / 2
    ensures forall i | 0 <= i < |chunks| :: 1 <= |chunks[i]| <= 2
    ensures forall i | 0 <= i < |chunks| - 1 :: |chunks[i]| == 2
    ensures forall i | 0 <= i < |chunks| :: chunks[i] == h[2 * i .. if 2 * i + 2 <= |h| then 2 * i + 2 else |h|]
  {
    if |h| <= 2 then (if h == [] then [] else [h])
    else
      var rest := Chunks(h[2..]);
      var tail := h[2..];
      assert forall i | 0 <= i < |rest| ::
        rest[i] == h[2 * (i + 1) .. if 2 * (i + 1) + 2 <= |h| then 2 * (i + 1) + 2 else |h|] by {
        forall i | 0 <= i < |rest|
          ensures rest[i] == h[2 * (i + 1) .. if 2 * (i + 1) + 2 <= |h| then 2 * (i + 1) + 2 else |h|]
        {
          var lo := 2 * i;
          var hi := if lo + 2 <= |tail| then lo + 2 else |tail|;
          assert rest[i] == tail[lo..hi];
          assert tail[lo..hi] == h[lo + 2..hi + 2];
        }
      }
      [h[..2]] + rest
  }

  /** The fingerprint of a hex digest: "MD5:" and the digest's two-character
      chunks joined by ':'. */
  function Fingerprint(hexdigest: string): (f: string)
    ensures |f| >= 4 && f[..4] == "MD5:"
    ensures ':' !in hexdigest ==> Without(f[4..], ':') == hexdigest
    ensures |hexdigest| == 32 ==> |f| == 51
    ensures forall j | 0 <= j < |hexdigest| :: 4 + j + j / 2 < |f| && f[4 + j + j / 2] == hexdigest[j]
    ensures forall k | 1 <= k < (|hexdigest| + 1) / 2 :: 4 + 3 * k - 1 < |f| && f[4 + 3 * k - 1] == ':'
  {
    var joined := Join(Chunks(hexdigest), ':');
    JoinedChunksLength(hexdigest);
    JoinedChunksColons(hexdigest);
    assert forall j | 0 <= j < |hexdigest| :: j + j / 2 < |joined| && joined[j + j / 2] == hexdigest[j] by {
      forall j | 0 <= j < |hexdigest|
        ensures j + j / 2 < |joined| && joined[j + j / 2] == hexdigest[j]
      {
        JoinedChunksAt(hexdigest, j);
      }
    }
    if ':' !in hexdigest then
      UnchunkChunks(hexdigest);
      assert ("MD5:" + joined)[4..] == joined;
      "MD5:" + joined
    else
      "MD5:" + joined
  }

  /** `get_fingerprint`: `md5Hex` stands for base64-decoding the key's
      second field and taking the hex MD5 digest of the bytes. */
  function GetFingerprint(k: FabricSshKey, md5Hex: string -> string): (f: string)
    ensures |f| >= 4 && f[..4] == "MD5:"
    ensures ':' !in md5Hex(k.publicKey) ==> Without(f[4..], ':') == md5Hex(k.publicKey)
    ensures var h := md5Hex(k.publicKey);
      forall j | 0 <= j < |h| :: 4 + j + j / 2 < |f| && f[4 + j + j / 2] == h[j]
    ensures var h := md5Hex(k.publicKey);
      forall n | 1 <= n < (|h| + 1) / 2 :: 4 + 3 * n - 1 < |f| && f[4 + 3 * n - 1] == ':'
  {
    Fingerprint(md5Hex(k.publicKey))
  }

  /** The joined chunks of a digest longer than two characters are its
      first chunk, a colon, and the joined chunks of the rest. */
  lemma JoinedChunksStep(h: string)
    requires |h| > 2
    ensures Join(Chunks(h), ':') == h[..2] + [':'] + Join(Chunks(h[2..]), ':')
  {
    var rest := Chunks(h[2..]);
    assert Chunks(h) == [h[..2]] + rest;
    assert (Chunks(h))[1..] == rest;
  }

  /** Digest character `j` sits at `j + j/2` in the joined chunks. */
  lemma {:induction false} JoinedChunksAt(h: string, j: nat)
    requires j < |h|
    ensures var joined := Join(Chunks(h), ':');
      j + j / 2 < |joined| && joined[j + j / 2] == h[j]
    decreases |h|
  {
    if |h| <= 2 {
      assert Join(Chunks(h), ':') == h;
    } else {
      JoinedChunksStep(h);
      JoinedChunksLength(h);
      if j >= 2 {
        var x := j - 2;
        JoinedChunksAt(h[2..], x);
        assert j + j / 2 == x + x / 2 + 3;
      }
    }
  }

  /** A colon at `3k - 1` closes every chunk but the last. */
  lemma {:induction false} JoinedChunksColons(h: string)
    ensures var joined := Join(Chunks(h), ':');
      forall k | 1 <= k < (|h| + 1) / 2 :: 3 * k - 1 < |joined| && joined[3 * k - 1] == ':'
    decreases |h|
  {
    if |h| > 2 {
      var joined := Join(Chunks(h), ':');
      var tail := h[2..];
      var joinedRest := Join(Chunks(tail), ':');
      JoinedChunksColons(tail);
      JoinedChunksStep(h);
      forall k | 2 <= k < (|h| + 1) / 2
        ensures 3 * k - 1 < |joined| && joined[3 * k - 1] == ':'
      {
        var m := k - 1;
        assert 1 <= m < (|tail| + 1) / 2;
        assert 3 * m - 1 < |joinedRest| && joinedRest[3 * m - 1] == ':';
        assert joined[3 * m - 1 + 3] == joinedRest[3 * m - 1];
      }
    }
  }

  /** `s` with every occurrence of `c` removed. */
  function Without(s: string, c: char): (r: string)
    ensures c !in r
  {
    if s == [] then [] else (if s[0] == c then [] else [s[0]]) + Without(s[1..], c)
  }

  lemma {:induction false} WithoutAppend(a: string, b: string, c: char)
    ensures Without(a + b, c) == Without(a, c) + Without(b, c)
    decreases |a|
  {
    if a != [] {
      WithoutAppend(a[1..], b, c);
      assert (a + b)[1..] == a[1..] + b;
    } else {
      assert a + b == b;
    }
  }

  /** Dropping the colons of the joined chunks gives back the digest. */
  lemma {:induction false} UnchunkChunks(h: string)
    requires ':' !in h
    ensures Without(Join(Chunks(h), ':'), ':') == h
    decreases |h|
  {
    if |h| <= 2 {
      if h != [] {
        WithoutFree(h, ':');
      }
    } else {
      var rest := Chunks(h[2..]);
      UnchunkChunks(h[2..]);
      assert Chunks(h) == [h[..2]] + rest;
      assert |rest| >= 1;
      assert Join(Chunks(h), ':') == h[..2] + [':'] + Join(rest, ':');
      WithoutAppend(h[..2] + [':'], Join(rest, ':'), ':');
      WithoutAppend(h[..2], [':'], ':');
      WithoutFree(h[..2], ':');
      assert h == h[..2] + h[2..];
    }
  }

  lemma {:induction false} WithoutFree(s: string, c: char)
    requires c !in s
    ensures Without(s, c) == s
    decreases |s|
  {
    if s != [] {
      WithoutFree(s[1..], c);
      assert s == [s[0]] + s[1..];
    }
  }

  /** The joined chunks are the digest plus one ':' between each two
      chunks. */
  lemma {:induction false} JoinedChunksLength(h: string)
    ensures h != [] ==> |Join(Chunks(h), ':')| == |h| + (|h| + 1) / 2 - 1
    ensures h == [] ==> Join(Chunks(h), ':') == ""
    decreases |h|
  {
    if |h| > 2 {
      JoinedChunksLength(h[2..]);
      assert Chunks(h) == [h[..2]] + Chunks(h[2..]);
    }
  }
}
