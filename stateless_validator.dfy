/** The older, stateless validator of python/fss-utils/jwt_validate.py:
    `fetch_pub_keys(url)` builds a fresh dictionary on every call and
    `validate_jwt(token, endpoint)` fetches on every call, then runs the same
    checks as the caching validator with PyJWT's default options. */
module StatelessValidator {
  import opened Externals
  import opened ValidateCodes
  import opened Jwks
  import CachingValidator

  /** The message table; only UNKNOWN_KEY's message differs from the
      caching validator's. */
  function Message(code: ValidateCode): string {
    match code
    case Valid => "Token is valid"
    case UnspecifiedKey => "Token does not specify key ID"
    case UnspecifiedAlg => "Token does not specify algorithm"
    case UnknownKey => "Unable to find public key at endpoint"
    case Invalid => "Token signature is invalid"
    case UnableToFetchKeys => "Unable to fetch keys from the endpoint"
    case UnparsableToken => "Unable to parse token"
    case UnableToDecodeKeys => "Unable to decode public keys"
  }

  /** `ValidateCode.interpret`, in the same format as the caching
      validator's. */
  function Interpret(code: ValidateCode, exception: Option<Exception>): (s: string)
    ensures CachingValidator.IsSuffix(Message(code), s)
    ensures exception.None? ==> |s| == |Message(code)|
    ensures exception.Some? ==>
      var t := exception.value.text;
      |s| == |t| + 2 + |Message(code)| && s[..|t|] == t && s[|t|..|t| + 2] == ". "
  {
    match exception
    case None => Message(code)
    case Some(e) => e.text + ". " + Message(code)
  }

  /** The two tables agree on every code but UNKNOWN_KEY. */
  lemma MessagesDifferOnlyForUnknownKey(code: ValidateCode)
    ensures Message(code) == CachingValidator.Message(code) <==> code != UnknownKey
  {
    if code == UnknownKey {
      assert Message(code)[29] != CachingValidator.Message(code)[29];
    }
  }

  /** The body is a key set whose every entry decodes. */
  predicate Decodes(body: JwksBody) {
    body.KeySet? && AllDecoded(body.entries)
  }

  /** What `fetch_pub_keys(url)` returns: a failure code, or the
      dictionary. */
  datatype KeysReply = KeysReply(code: Option<ValidateCode>, keys: Option<map<Kid, PublicKey>>)

  /** `fetch_pub_keys(url)`, given what the GET produces.  A decoding
      failure discards both the partial dictionary and the exception. */
  method FetchPubKeys(response: HttpOutcome) returns (reply: Raises<KeysReply>)
    ensures response.RequestFailed? ==> reply == Raise(response.exc)
    ensures response.Response? && response.status != 200 ==>
      reply == Return(KeysReply(Some(UnableToFetchKeys), None))
    ensures response.Response? && response.status == 200 ==>
      reply == Return(
        if Decodes(response.body)
        then KeysReply(None, Some(Load(response.body.entries).keys))
        else KeysReply(Some(UnableToDecodeKeys), None))
  {
    if response.RequestFailed? {
      return Raise(response.exc);
    }
    if response.status != 200 {
      return Return(KeysReply(Some(UnableToFetchKeys), None));
    }

    match response.body
    case NotAKeySet(_) =>
      return Return(KeysReply(Some(UnableToDecodeKeys), None));
    case KeySet(entries) =>
      var pubKeys: map<Kid, PublicKey> := map[];
      var i := 0;
      while i < |entries|
        invariant 0 <= i <= |entries|
        invariant AllDecoded(entries[..i])
        invariant pubKeys == Load(entries[..i]).keys
      {
        LoadFailsIff(entries[..i]);
        LoadStep(entries, i);
        match entries[i]
        case JwkFailure(_) =>
          return Return(KeysReply(Some(UnableToDecodeKeys), None));
        case Jwk(kid, key) =>
          pubKeys := pubKeys[kid := key];
        assert entries[..i + 1] == entries[..i] + [entries[i]];
        i := i + 1;
      }
      assert entries[..i] == entries;
      return Return(KeysReply(None, Some(pubKeys)));
  }

  /** The call `jwt.decode(token, key=pubKeys[kid], algorithms=[alg])`,
      with PyJWT's default options and no audience. */
  function DefaultCall(keys: map<Kid, PublicKey>, token: Token, kid: Kid, alg: Alg): DecodeCall
    requires kid in keys
  {
    DecodeCall(token, keys[kid], [alg], None, None)
  }

  /** The checks after the fetch: those of the caching validator, in the
      same order, except that `jwt.decode` gets neither options nor an
      audience. */
  function CheckToken(keys: map<Kid, PublicKey>, token: Token, lib: JwtLibrary): (r: Raises<Verdict>)
    ensures var h := lib.unverifiedHeader(token);
      r == Return(Verdict(Valid, None)) <==>
        && h.Header? && h.kid.Some? && h.alg.Some? && h.kid.value in keys
        && lib.decode(DefaultCall(keys, token, h.kid.value, h.alg.value)).None?
    ensures r.Raise? <==> lib.unverifiedHeader(token).HeaderOtherError?
    ensures var h := lib.unverifiedHeader(token);
      h.HeaderOtherError? ==> r == Raise(h.exc)
    ensures var h := lib.unverifiedHeader(token);
      r.Return? && r.value.code == UnparsableToken <==> h.HeaderDecodeError?
    ensures var h := lib.unverifiedHeader(token);
      h.HeaderDecodeError? ==> r == Return(Verdict(UnparsableToken, Some(h.exc)))
    ensures var h := lib.unverifiedHeader(token);
      r == Return(Verdict(UnspecifiedKey, None)) <==> h.Header? && h.kid.None?
    ensures var h := lib.unverifiedHeader(token);
      r == Return(Verdict(UnspecifiedAlg, None)) <==> h.Header? && h.kid.Some? && h.alg.None?
    ensures var h := lib.unverifiedHeader(token);
      r == Return(Verdict(UnknownKey, None)) <==>
        h.Header? && h.kid.Some? && h.alg.Some? && h.kid.value !in keys
    ensures var h := lib.unverifiedHeader(token);
      r.Return? && r.value.code == Invalid <==>
        && h.Header? && h.kid.Some? && h.alg.Some? && h.kid.value in keys
        && lib.decode(DefaultCall(keys, token, h.kid.value, h.alg.value)).Some?
    ensures var h := lib.unverifiedHeader(token);
      r.Return? && r.value.code == Invalid ==>
        r.value.exc == lib.decode(DefaultCall(keys, token, h.kid.value, h.alg.value))
    ensures r.Return? ==> r.value.code !in {UnableToFetchKeys, UnableToDecodeKeys}
  {
    match lib.unverifiedHeader(token)
    case HeaderDecodeError(e) => Return(Verdict(UnparsableToken, Some(e)))
    case HeaderOtherError(e) => Raise(e)
    case Header(kid, alg) =>
      if kid.None? then Return(Verdict(UnspecifiedKey, None))
      else if alg.None? then Return(Verdict(UnspecifiedAlg, None))
      else if kid.value !in keys then Return(Verdict(UnknownKey, None))
      else
        match lib.decode(DefaultCall(keys, token, kid.value, alg.value))
        case Some(e) => Return(Verdict(Invalid, Some(e)))
        case None => Return(Verdict(Valid, None))
  }

  /** PyJWT as the caching validator would call it to obtain the stateless
      validator's answers: the options and audience it passes are replaced
      by the library defaults. */
  function WithDefaults(lib: JwtLibrary): JwtLibrary {
    JwtLibrary(lib.unverifiedHeader, (call: DecodeCall) => lib.decode(call.(options := None, audience := None)))
  }

  /** The stateless checks make the caching validator's decisions, in the
      same order, whatever audience and `verify_exp` the caching validator is
      configured with, once its calls to `jwt.decode` are stripped of the
      options and audience. */
  lemma SameDecisionTable(keys: map<Kid, PublicKey>, aud: Option<string>, verifyExp: bool, token: Token, lib: JwtLibrary)
    ensures CheckToken(keys, token, lib) == CachingValidator.CheckToken(keys, aud, token, verifyExp, WithDefaults(lib))
  {
    var h := lib.unverifiedHeader(token);
    if h.Header? && h.kid.Some? && h.alg.Some? && h.kid.value in keys {
      var call := CachingValidator.CallFor(keys, aud, token, verifyExp, h.kid.value, h.alg.value);
      assert WithDefaults(lib).decode(call) == lib.decode(DefaultCall(keys, token, h.kid.value, h.alg.value));
    }
  }

  /** `validate_jwt(token, endpoint)`: one fetch, whose failure is reported
      with no exception, then the checks. */
  method ValidateJwt(token: Token, response: HttpOutcome, lib: JwtLibrary) returns (result: Raises<Verdict>)
    ensures response.RequestFailed? ==> result == Raise(response.exc)
    ensures response.Response? && response.status != 200 ==>
      result == Return(Verdict(UnableToFetchKeys, None))
    ensures response.Response? && response.status == 200 && !Decodes(response.body) ==>
      result == Return(Verdict(UnableToDecodeKeys, None))
    ensures response.Response? && response.status == 200 && Decodes(response.body) ==>
      result == CheckToken(Load(response.body.entries).keys, token, lib)
  {
    var fetched := FetchPubKeys(response);
    if fetched.Raise? {
      return Raise(fetched.exc);
    }
    var code, pubKeys := fetched.value.code, fetched.value.keys;
    if pubKeys.None? {
      return Return(Verdict(code.value, None));
    }

    return CheckToken(pubKeys.value, token, lib);
  }
}
