/** Shapes of what the validators receive from the libraries and the network
    they call: the HTTP client, the JSON parser, PyJWT's key import, header
    reader and token decoder.  None of these libraries is modelled; each call
    becomes an input value or a function parameter whose result the caller
    supplies. */
module Externals {

  datatype Option<+T> = None | Some(value: T)

  /** A Python exception, seen only through `str(e)`. */
  datatype Exception = Exception(text: string)

  /** What a Python call does: return a value or let an exception escape. */
  datatype Raises<+T> = Return(value: T) | Raise(exc: Exception)

  type Kid = string
  type Alg = string
  type Token = string

  /** A public key imported from a JWK; its material is opaque. */
  datatype PublicKey = PublicKey(material: string)

  /** One element of the JWKS `keys` array after `jwk['kid']` and
      `RSAAlgorithm.from_jwk`: either both succeed or one of them raises. */
  datatype JwkEntry = JwkFailure(exc: Exception) | Jwk(kid: Kid, key: PublicKey)

  /** The body of a 200 response after `json.loads(r.text)['keys']`:
      either the parse or the lookup raises, or there is a sequence of
      entries to iterate over. */
  datatype JwksBody = NotAKeySet(exc: Exception) | KeySet(entries: seq<JwkEntry>)

  /** The outcome of `requests.get(url)`: a response, or an exception
      (connection refused, timeout, ...) that the validators do not catch. */
  datatype HttpOutcome = Response(status: int, body: JwksBody) | RequestFailed(exc: Exception)

  /** The outcome of `jwt.get_unverified_header(token)` followed by
      `.get('kid', None)` and `.get('alg', None)`.  `jwt.DecodeError` is kept
      apart from every other exception because only it is caught. */
  datatype UnverifiedHeader =
    | HeaderDecodeError(exc: Exception)
    | HeaderOtherError(exc: Exception)
    | Header(kid: Option<Kid>, alg: Option<Alg>)

  /** The `options` dictionary passed to `jwt.decode`. */
  datatype DecodeOptions = DecodeOptions(verifyExp: bool, verifyAud: bool)

  /** The arguments of one `jwt.decode` call.  `options == None` means the
      argument was not passed, so the library defaults apply. */
  datatype DecodeCall = DecodeCall(
    token: Token,
    key: PublicKey,
    algorithms: seq<Alg>,
    options: Option<DecodeOptions>,
    audience: Option<string>)

  /** PyJWT as the validators use it: the unverified header of a token, and
      the signature and claim check, which raises (Some) or returns (None). */
  datatype JwtLibrary = JwtLibrary(
    unverifiedHeader: Token -> UnverifiedHeader,
    decode: DecodeCall -> Option<Exception>)
}
