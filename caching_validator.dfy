/** The caching validator `JWTValidator` of python/fss_utils/jwt_validate.py.

    The validator keeps the keys it last fetched from its JWKS endpoint and
    the time of that fetch.  Each `validate_jwt` call first lets
    `fetch_pub_keys` decide whether to fetch again, then reads the token's
    unverified header, looks its `kid` up among the cached keys and has PyJWT
    check signature and claims with exactly that key and the header's `alg`.

    The pure functions `Fetch`, `CheckToken` and `Validate` specify one call
    each; the class's methods are proved against them, and the lemmas at the
    end state what follows over one call and over a sequence of calls.  Time
    is an integer (the clock reading is a parameter), and a `timedelta` period
    is an integer or None. */
module CachingValidator {
  import opened Externals
  import opened ValidateCodes
  import opened Jwks

  /* ---------------------------------------------------------------------
     Result messages
     --------------------------------------------------------------------- */

  /** The fixed interpretation of each code. */
  function Message(code: ValidateCode): string {
    match code
    case Valid => "Token is valid"
    case UnspecifiedKey => "Token does not specify key ID"
    case UnspecifiedAlg => "Token does not specify algorithm"
    case UnknownKey => "Unable to find public key at JWK endpoint"
    case Invalid => "Token signature is invalid"
    case UnableToFetchKeys => "Unable to fetch keys from the endpoint"
    case UnparsableToken => "Unable to parse token"
    case UnableToDecodeKeys => "Unable to decode public keys"
  }

  predicate IsSuffix(a: string, b: string) {
    |a| <= |b| && b[|b| - |a|..] == a
  }

  /** `ValidateCode.interpret`: the code's message, preceded by the text of
      the exception and ". " when an exception is given. */
  function Interpret(code: ValidateCode, exception: Option<Exception>): (s: string)
    ensures IsSuffix(Message(code), s)
    ensures exception.None? ==> |s| == |Message(code)|
    ensures exception.Some? ==>
      var t := exception.value.text;
      |s| == |t| + 2 + |Message(code)| && s[..|t|] == t && s[|t|..|t| + 2] == ". "
  {
    match exception
    case None => Message(code)
    case Some(e) => e.text + ". " + Message(code)
  }

  /** No message ends with another code's message. */
  lemma MessageSuffixFree(c1: ValidateCode, c2: ValidateCode)
    requires IsSuffix(Message(c1), Message(c2))
    ensures c1 == c2
  {
  }

  /** Of two suffixes of one string, the shorter is a suffix of the longer. */
  lemma SuffixesNest(a: string, b: string, s: string)
    requires IsSuffix(a, s) && IsSuffix(b, s) && |a| <= |b|
    ensures IsSuffix(a, b)
  {
    assert b[|b| - |a|..] == s[|s| - |a|..];
  }

  /** An interpreted message determines its code, with or without an
      exception in front of it. */
  lemma InterpretIdentifiesCode(c1: ValidateCode, e1: Option<Exception>, c2: ValidateCode, e2: Option<Exception>)
    requires Interpret(c1, e1) == Interpret(c2, e2)
    ensures c1 == c2
  {
    var s := Interpret(c1, e1);
    var m1, m2 := Message(c1), Message(c2);
    if |m1| <= |m2| {
      SuffixesNest(m1, m2, s);
      MessageSuffixFree(c1, c2);
    } else {
      SuffixesNest(m2, m1, s);
      MessageSuffixFree(c2, c1);
    }
  }

  /* ---------------------------------------------------------------------
     The key cache and fetch_pub_keys
     --------------------------------------------------------------------- */

  /** The validator's mutable state: `pubKeys` and `keysFetched`. */
  datatype Cache = Cache(pubKeys: Option<map<Kid, PublicKey>>, keysFetched: Option<int>)

  /** The state `__init__` leaves. */
  const NeverFetched := Cache(None, None)

  /** The two fields are set together or not at all. */
  predicate Consistent(c: Cache) {
    c.keysFetched.Some? <==> c.pubKeys.Some?
  }

  /** What `fetch_pub_keys` returns: a failure code and the exception behind
      it; both None when the cached keys are to be used. */
  datatype FetchReply = FetchReply(code: Option<ValidateCode>, exc: Option<Exception>)

  /** One `fetch_pub_keys` call: the state it leaves, whether it sent a GET
      to the endpoint, and what it returned or raised. */
  datatype FetchStep = FetchStep(cache: Cache, requested: bool, reply: Raises<FetchReply>)

  /** What `keysFetched + cachePeriod` raises when the period is None. */
  const NonePeriodError := Exception("unsupported operand type(s) for +: 'datetime.datetime' and 'NoneType'")

  /** The keys were fetched and `now` is still inside the refresh period. */
  predicate InPeriod(c: Cache, period: Option<int>, now: int) {
    c.keysFetched.Some? && period.Some? && now < c.keysFetched.value + period.value
  }

  /** `fetch_pub_keys` at time `now`, given what a GET to the endpoint
      would produce.  A 200 response stamps the cache with `now` and empties
      the dictionary before the body is decoded, so a decoding failure leaves
      a fresh stamp and the keys decoded before it. */
  function Fetch(c: Cache, period: Option<int>, now: int, response: HttpOutcome): (step: FetchStep)
    ensures Consistent(c) ==> Consistent(step.cache)
    ensures step.requested <==>
      c.keysFetched.None? || (period.Some? && now >= c.keysFetched.value + period.value)
    ensures !step.requested ==> step.cache == c
    ensures step.cache != c ==> step.cache.keysFetched == Some(now) && step.cache.pubKeys.Some?
    ensures step.reply == Return(FetchReply(None, None)) && Consistent(c) ==> step.cache.pubKeys.Some?
    ensures step.reply.Return? && step.reply.value.code.Some? ==>
      step.reply.value.code.value in {UnableToFetchKeys, UnableToDecodeKeys}
    ensures step.reply.Return? && step.reply.value.exc.Some? ==>
      step.reply.value.code == Some(UnableToDecodeKeys)
  {
    if c.keysFetched.Some? && period.None? then
      FetchStep(c, false, Raise(NonePeriodError))
    else if InPeriod(c, period, now) then
      FetchStep(c, false, Return(FetchReply(None, None)))
    else match response
      case RequestFailed(e) => FetchStep(c, true, Raise(e))
      case Response(status, body) =>
        if status != 200 then
          FetchStep(c, true, Return(FetchReply(Some(UnableToFetchKeys), None)))
        else match body
          case NotAKeySet(e) =>
            FetchStep(Cache(Some(map[]), Some(now)), true, Return(FetchReply(Some(UnableToDecodeKeys), Some(e))))
          case KeySet(entries) =>
            var loaded := Load(entries);
            var reply := if loaded.failure.None? then FetchReply(None, None)
                         else FetchReply(Some(UnableToDecodeKeys), loaded.failure);
            FetchStep(Cache(Some(loaded.keys), Some(now)), true, Return(reply))
  }

  /* ---------------------------------------------------------------------
     The validation pipeline after the fetch
     --------------------------------------------------------------------- */

  /** The call `jwt.decode(token, key=pubKeys[kid], algorithms=[alg],
      options={"verify_exp": verifyExp, "verify_aud": aud is not None},
      audience=aud)`. */
  function CallFor(keys: map<Kid, PublicKey>, aud: Option<string>, token: Token, verifyExp: bool, kid: Kid, alg: Alg): DecodeCall
    requires kid in keys
  {
    DecodeCall(token, keys[kid], [alg], Some(DecodeOptions(verifyExp, aud.Some?)), aud)
  }

  /** The token's header names a key ID that is cached and an algorithm,
      and PyJWT accepts the token with exactly that key, exactly that one
      algorithm, `verify_exp` as asked and `verify_aud` exactly when an
      audience is configured. */
  predicate Accepted(keys: map<Kid, PublicKey>, aud: Option<string>, token: Token, verifyExp: bool, lib: JwtLibrary) {
    var h := lib.unverifiedHeader(token);
    && h.Header? && h.kid.Some? && h.alg.Some? && h.kid.value in keys
    && lib.decode(CallFor(keys, aud, token, verifyExp, h.kid.value, h.alg.value)).None?
  }

  /** Lines 97-132 of `validate_jwt`, over the cached dictionary `keys`.
      Each failing check has its own code; a missing key ID is reported
      before a missing algorithm. */
  function CheckToken(keys: map<Kid, PublicKey>, aud: Option<string>, token: Token, verifyExp: bool, lib: JwtLibrary): (r: Raises<Verdict>)
    ensures r == Return(Verdict(Valid, None)) <==> Accepted(keys, aud, token, verifyExp, lib)
    ensures r.Raise? <==> lib.unverifiedHeader(token).HeaderOtherError?
    ensures var h := lib.unverifiedHeader(token);
      h.HeaderOtherError? ==> r == Raise(h.exc)
    ensures var h := lib.unverifiedHeader(token);
      r.Return? && r.value.code == UnparsableToken <==> h.HeaderDecodeError?
    ensures var h := lib.unverifiedHeader(token);
      h.HeaderDecodeError? ==> r == Return(Verdict(UnparsableToken, Some(h.exc)))
    ensures var h := lib.unverifiedHeader(token);
      r.Return? && r.value.code == UnspecifiedKey <==> h.Header? && h.kid.None?
    ensures var h := lib.unverifiedHeader(token);
      r.Return? && r.value.code == UnspecifiedAlg <==> h.Header? && h.kid.Some? && h.alg.None?
    ensures var h := lib.unverifiedHeader(token);
      r.Return? && r.value.code == UnknownKey <==>
        h.Header? && h.kid.Some? && h.alg.Some? && h.kid.value !in keys
    ensures var h := lib.unverifiedHeader(token);
      r.Return? && r.value.code == Invalid <==>
        && h.Header? && h.kid.Some? && h.alg.Some? && h.kid.value in keys
        && lib.decode(CallFor(keys, aud, token, verifyExp, h.kid.value, h.alg.value)).Some?
    ensures var h := lib.unverifiedHeader(token);
      r.Return? && r.value.code == Invalid ==>
        r.value.exc == lib.decode(CallFor(keys, aud, token, verifyExp, h.kid.value, h.alg.value))
    ensures r.Return? ==> r.value.code !in {UnableToFetchKeys, UnableToDecodeKeys}
    ensures r.Return? ==> (r.value.exc.Some? <==> r.value.code in {UnparsableToken, Invalid})
  {
    match lib.unverifiedHeader(token)
    case HeaderDecodeError(e) => Return(Verdict(UnparsableToken, Some(e)))
    case HeaderOtherError(e) => Raise(e)
    case Header(kid, alg) =>
      if kid.None? then Return(Verdict(UnspecifiedKey, None))
      else if alg.None? then Return(Verdict(UnspecifiedAlg, None))
      else if kid.value !in keys then Return(Verdict(UnknownKey, None))
      else
        match lib.decode(CallFor(keys, aud, token, verifyExp, kid.value, alg.value))
        case Some(e) => Return(Verdict(Invalid, Some(e)))
        case None => Return(Verdict(Valid, None))
  }

  /** One `validate_jwt` call: the state it leaves, whether it sent a GET,
      and what it returned or raised. */
  datatype ValidateStep = ValidateStep(cache: Cache, requested: bool, reply: Raises<Verdict>)

  /** `validate_jwt`: the fetch, whose failure code is passed on as it is,
      then the checks over the dictionary the fetch left. */
  function Validate(c: Cache, period: Option<int>, aud: Option<string>, now: int, response: HttpOutcome,
                    token: Token, verifyExp: bool, lib: JwtLibrary): (step: ValidateStep)
    requires Consistent(c)
    ensures Consistent(step.cache)
    ensures var f := Fetch(c, period, now, response);
      step.cache == f.cache && step.requested == f.requested
    ensures var f := Fetch(c, period, now, response);
      f.reply.Raise? ==> step.reply == Raise(f.reply.exc)
    ensures var f := Fetch(c, period, now, response);
      f.reply.Return? && f.reply.value.code.Some? ==>
        step.reply == Return(Verdict(f.reply.value.code.value, f.reply.value.exc))
    ensures var f := Fetch(c, period, now, response);
      f.reply == Return(FetchReply(None, None)) ==>
        step.reply == CheckToken(f.cache.pubKeys.value, aud, token, verifyExp, lib)
    ensures var f := Fetch(c, period, now, response);
      step.reply == Return(Verdict(Valid, None)) <==>
        f.reply == Return(FetchReply(None, None)) && Accepted(f.cache.pubKeys.value, aud, token, verifyExp, lib)
  {
    var f := Fetch(c, period, now, response);
    var reply :=
      match f.reply
      case Raise(e) => Raise(e)
      case Return(FetchReply(code, exc)) =>
        if code.Some? then Return(Verdict(code.value, exc))
        else CheckToken(f.cache.pubKeys.value, aud, token, verifyExp, lib);
    ValidateStep(f.cache, f.requested, reply)
  }

  /* ---------------------------------------------------------------------
     The validator object
     --------------------------------------------------------------------- */

  class JWTValidator {
    const url: string
    const aud: Option<string>
    /** The refresh period; None is accepted by `__init__`. */
    const cachePeriod: Option<int>
    var pubKeys: Option<map<Kid, PublicKey>>
    var keysFetched: Option<int>
    /** The number of GET requests sent to `url` so far. */
    ghost var requests: nat

    ghost predicate Valid()
      reads this
    {
      Consistent(State())
    }

    function State(): Cache
      reads this
    {
      Cache(pubKeys, keysFetched)
    }

    constructor (url: string, refreshPeriod: Option<int>, audience: Option<string>)
      ensures Valid()
      ensures this.url == url && aud == audience && cachePeriod == refreshPeriod
      ensures State() == NeverFetched && requests == 0
    {
      this.url := url;
      aud := audience;
      cachePeriod := refreshPeriod;
      pubKeys := None;
      keysFetched := None;
      requests := 0;
    }

    /** `fetch_pub_keys`: `now` is the clock reading, `response` what a GET
        to `url` produces if one is sent. */
    method FetchPubKeys(now: int, response: HttpOutcome) returns (reply: Raises<FetchReply>)
      requires Valid()
      modifies this
      ensures Valid()
      ensures var step := Fetch(old(State()), cachePeriod, now, response);
        && State() == step.cache && reply == step.reply
        && requests == old(requests) + (if step.requested then 1 else 0)
    {
      if keysFetched.Some? {
        if cachePeriod.None? {
          return Raise(NonePeriodError);
        }
        if now < keysFetched.value + cachePeriod.value {
          return Return(FetchReply(None, None));
        }
      }

      requests := requests + 1;
      if response.RequestFailed? {
        return Raise(response.exc);
      }
      if response.status != 200 {
        return Return(FetchReply(Some(UnableToFetchKeys), None));
      }

      keysFetched := Some(now);
      pubKeys := Some(map[]);
      match response.body
      case NotAKeySet(e) =>
        return Return(FetchReply(Some(UnableToDecodeKeys), Some(e)));
      case KeySet(entries) =>
        var i := 0;
        while i < |entries|
          invariant 0 <= i <= |entries|
          invariant keysFetched == Some(now) && requests == old(requests) + 1
          invariant Load(entries[..i]).failure.None?
          invariant pubKeys == Some(Load(entries[..i]).keys)
        {
          LoadStep(entries, i);
          match entries[i]
          case JwkFailure(e) =>
            LoadFailurePersists(entries, i + 1);
            return Return(FetchReply(Some(UnableToDecodeKeys), Some(e)));
          case Jwk(kid, key) =>
            pubKeys := Some(pubKeys.value[kid := key]);
          i := i + 1;
        }
        assert entries[..i] == entries;
        return Return(FetchReply(None, None));
    }

    /** `validate_jwt`: `now` and `response` feed the fetch, `lib` is PyJWT. */
    method ValidateJwt(token: Token, verifyExp: bool, now: int, response: HttpOutcome, lib: JwtLibrary)
      returns (result: Raises<Verdict>)
      requires Valid()
      modifies this
      ensures Valid()
      ensures var step := Validate(old(State()), cachePeriod, aud, now, response, token, verifyExp, lib);
        && State() == step.cache && result == step.reply
        && requests == old(requests) + (if step.requested then 1 else 0)
    {
      var fetched := FetchPubKeys(now, response);
      if fetched.Raise? {
        return Raise(fetched.exc);
      }
      if fetched.value.code.Some? {
        return Return(Verdict(fetched.value.code.value, fetched.value.exc));
      }

      return CheckToken(pubKeys.value, aud, token, verifyExp, lib);
    }
  }

  /* ---------------------------------------------------------------------
     Properties of one fetch
     --------------------------------------------------------------------- */

  /** A call that sends no request returns (None, None) inside the refresh
      period and raises when the period is None; it changes nothing. */
  lemma FetchSkipped(c: Cache, period: Option<int>, now: int, response: HttpOutcome)
    requires !Fetch(c, period, now, response).requested
    ensures Fetch(c, period, now, response).cache == c
    ensures period.None? ==> Fetch(c, period, now, response).reply == Raise(NonePeriodError)
    ensures period.Some? ==> Fetch(c, period, now, response).reply == Return(FetchReply(None, None))
  {
  }

  /** A response other than 200 reports UNABLE_TO_FETCH_KEYS with no
      exception and leaves both fields as they were. */
  lemma FetchNon200KeepsCache(c: Cache, period: Option<int>, now: int, status: int, body: JwksBody)
    requires Fetch(c, period, now, Response(status, body)).requested && status != 200
    ensures Fetch(c, period, now, Response(status, body)) ==
      FetchStep(c, true, Return(FetchReply(Some(UnableToFetchKeys), None)))
  {
  }

  /** A 200 response replaces the dictionary: what the cache holds after it
      does not depend on what it held before. */
  lemma FetchReplacesNeverMerges(c1: Cache, c2: Cache, period: Option<int>, now: int, body: JwksBody)
    requires Fetch(c1, period, now, Response(200, body)).requested
    requires Fetch(c2, period, now, Response(200, body)).requested
    ensures Fetch(c1, period, now, Response(200, body)) == Fetch(c2, period, now, Response(200, body))
  {
  }

  /** When every entry decodes, the fetch succeeds, is stamped `now`, and
      the cache maps exactly the entries' key IDs, each to the key of the
      last entry carrying it. */
  lemma FetchAllDecoded(c: Cache, period: Option<int>, now: int, entries: seq<JwkEntry>)
    requires Fetch(c, period, now, Response(200, KeySet(entries))).requested
    requires AllDecoded(entries)
    ensures var step := Fetch(c, period, now, Response(200, KeySet(entries)));
      && step.reply == Return(FetchReply(None, None))
      && step.cache.keysFetched == Some(now) && step.cache.pubKeys.Some?
      && (forall kid :: kid in step.cache.pubKeys.value <==>
            exists i | 0 <= i < |entries| :: Names(entries[i], kid))
      && (forall i | 0 <= i < |entries| && LastNaming(entries, i) ::
            entries[i].kid in step.cache.pubKeys.value
            && step.cache.pubKeys.value[entries[i].kid] == entries[i].key)
  {
    LoadAllDecoded(entries);
  }

  /** When entry `i` is the first that fails to decode, the fetch reports
      UNABLE_TO_DECODE_KEYS with that entry's exception, yet the cache is
      stamped `now` and keeps what entries 0..i-1 put in it. */
  lemma FetchStopsAtFirstFailure(c: Cache, period: Option<int>, now: int, entries: seq<JwkEntry>, i: nat)
    requires Fetch(c, period, now, Response(200, KeySet(entries))).requested
    requires i < |entries| && entries[i].JwkFailure? && AllDecoded(entries[..i])
    ensures Fetch(c, period, now, Response(200, KeySet(entries))) ==
      FetchStep(Cache(Some(Load(entries[..i]).keys), Some(now)), true,
                Return(FetchReply(Some(UnableToDecodeKeys), Some(entries[i].exc))))
  {
    LoadFirstFailure(entries, i);
  }

  /** A GET that raises lets its exception escape and leaves both fields as
      they were. */
  lemma FetchRequestFailed(c: Cache, period: Option<int>, now: int, e: Exception)
    requires Fetch(c, period, now, RequestFailed(e)).requested
    ensures Fetch(c, period, now, RequestFailed(e)) == FetchStep(c, true, Raise(e))
  {
  }

  /** When the body is not JSON or has no `keys` array, the fetch reports
      UNABLE_TO_DECODE_KEYS with that exception, yet the cache is stamped
      `now` and holds an empty dictionary. */
  lemma FetchNotAKeySet(c: Cache, period: Option<int>, now: int, e: Exception)
    requires Fetch(c, period, now, Response(200, NotAKeySet(e))).requested
    ensures Fetch(c, period, now, Response(200, NotAKeySet(e))) ==
      FetchStep(Cache(Some(map[]), Some(now)), true, Return(FetchReply(Some(UnableToDecodeKeys), Some(e))))
  {
  }

  /* ---------------------------------------------------------------------
     Properties of validate_jwt
     --------------------------------------------------------------------- */

  /** A failed fetch is reported as it is, whatever the token and whatever
      the library would say about it. */
  lemma FetchFailurePassedThrough(c: Cache, period: Option<int>, aud: Option<string>, now: int, response: HttpOutcome,
                                  t1: Token, x1: bool, l1: JwtLibrary, t2: Token, x2: bool, l2: JwtLibrary)
    requires Consistent(c)
    requires var f := Fetch(c, period, now, response).reply; f.Return? && f.value.code.Some?
    ensures var f := Fetch(c, period, now, response).reply.value;
      && Validate(c, period, aud, now, response, t1, x1, l1).reply == Return(Verdict(f.code.value, f.exc))
      && Validate(c, period, aud, now, response, t2, x2, l2).reply == Return(Verdict(f.code.value, f.exc))
  {
  }

  /** A failed first fetch leaves the validator never-fetched, so the next
      call sends a request again. */
  lemma FirstFetchFailureKeepsNothing(period: Option<int>, aud: Option<string>, now: int, status: int, body: JwksBody,
                                      token: Token, verifyExp: bool, lib: JwtLibrary,
                                      later: int, response: HttpOutcome, token2: Token, lib2: JwtLibrary)
    requires status != 200
    ensures var first := Validate(NeverFetched, period, aud, now, Response(status, body), token, verifyExp, lib);
      && first == ValidateStep(NeverFetched, true, Return(Verdict(UnableToFetchKeys, None)))
      && Validate(first.cache, period, aud, later, response, token2, verifyExp, lib2).requested
  {
  }

  /** With a None period the first call fetches (whatever the body holds),
      and every later call raises before any request: the period is added to
      the stamp the first 200 response set. */
  lemma NonePeriodSecondCallRaises(aud: Option<string>, t1: int, body: JwksBody, token: Token, lib: JwtLibrary,
                                   t2: int, response: HttpOutcome, token2: Token, verifyExp: bool, lib2: JwtLibrary)
    ensures var first := Validate(NeverFetched, None, aud, t1, Response(200, body), token, verifyExp, lib);
      && first.requested && first.cache.keysFetched == Some(t1)
      && Validate(first.cache, None, aud, t2, response, token2, verifyExp, lib2) ==
         ValidateStep(first.cache, false, Raise(NonePeriodError))
  {
  }

  /** After a 200 response at `t1`, a call at `t2` sends a new request
      exactly when `t2` is at least one period later. */
  lemma RefreshAfterPeriod(c: Cache, p: int, aud: Option<string>, t1: int, body: JwksBody, token: Token, lib: JwtLibrary,
                           t2: int, response: HttpOutcome, token2: Token, verifyExp: bool, lib2: JwtLibrary)
    requires Consistent(c)
    requires Fetch(c, Some(p), t1, Response(200, body)).requested
    ensures var first := Validate(c, Some(p), aud, t1, Response(200, body), token, verifyExp, lib);
      Validate(first.cache, Some(p), aud, t2, response, token2, verifyExp, lib2).requested <==> t2 >= t1 + p
  {
  }

  /** A fetch that failed on entry `i` still stamps the cache, so a call
      inside the period sends no request and checks the token against the
      keys of entries 0..i-1 alone. */
  lemma PartialKeysServedWithinPeriod(c: Cache, p: int, aud: Option<string>, t1: int, entries: seq<JwkEntry>, i: nat,
                                      token: Token, lib: JwtLibrary,
                                      t2: int, response: HttpOutcome, token2: Token, verifyExp: bool, lib2: JwtLibrary)
    requires Consistent(c)
    requires Fetch(c, Some(p), t1, Response(200, KeySet(entries))).requested
    requires i < |entries| && entries[i].JwkFailure? && AllDecoded(entries[..i])
    requires t1 <= t2 < t1 + p
    ensures var first := Validate(c, Some(p), aud, t1, Response(200, KeySet(entries)), token, verifyExp, lib);
      && first.reply == Return(Verdict(UnableToDecodeKeys, Some(entries[i].exc)))
      && var second := Validate(first.cache, Some(p), aud, t2, response, token2, verifyExp, lib2);
      && !second.requested
      && second.reply == CheckToken(Load(entries[..i]).keys, aud, token2, verifyExp, lib2)
  {
    LoadFirstFailure(entries, i);
  }
}
