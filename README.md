# JWT validation and SSH key strings of the FABRIC system-service utilities, in Dafny

This project models the decision logic of three Python files of the FABRIC
system-service utilities and proves properties of it.

- **The caching validator** `JWTValidator` (python/fss_utils/jwt_validate.py).
  It keeps the public keys fetched from a JWKS endpoint (`pubKeys`) and the
  time of that fetch (`keysFetched`). Each `validate_jwt` call does four
  things in order. First, `fetch_pub_keys` decides whether to fetch again.
  Then the token's unverified header gives `kid` and `alg`. Then `kid` is
  looked up among the cached keys. Last, PyJWT checks the signature and the
  claims with exactly that key and that one algorithm. The result is a
  code of the closed `ValidateCode` taxonomy, plus the exception behind it
  where there is one.
- **The older stateless validator** (python/fss-utils/jwt_validate.py).
  It fetches on every call and drops decoding errors. It calls PyJWT with
  the library's default options.
- **The string parts of `FABRICSSHKey`** (python/fss_utils/sshkey.py): the
  `LABEL_REGEX` check of `generate`, the split and join of the three-field
  OpenSSH public-key string, and the `MD5:` fingerprint format.

Files and modules:

- `externals.dfy`, module `Externals`: the values that the HTTP client,
  the JSON parser and PyJWT hand back. Each is an input value or a function
  parameter.
- `validate_code.dfy`, module `ValidateCodes`: the result codes.
- `jwks.dfy`, module `Jwks`: the loop that turns the JWKS `keys` array
  into a dictionary. Both validators use it.
- `caching_validator.dfy`, module `CachingValidator`:
  - the message table and `interpret`;
  - the pure one-call specifications `Fetch`, `CheckToken` and `Validate`;
  - the class `JWTValidator`, whose fields are the cache;
  - lemmas over one call and over sequences of calls.
- `stateless_validator.dfy`, module `StatelessValidator`.
- `sshkey.dfy`, module `SshKey`.

The class methods `FetchPubKeys` and `ValidateJwt` change the two cache
fields in place. `FetchPubKeys` fills the dictionary in a loop. Each method
is proved to leave the state, and return the value, that `Fetch` or
`Validate` gives for the old state. A ghost counter `requests` counts the
GET requests sent. It lets the contracts say when a call sends no request.

Time is an integer, and the clock reading is passed in as `now`. A refresh
period is `Option<int>`: a `timedelta`, or None.

## Behaviour as written

The model follows the code as written, including these behaviours, which a
reader of the class's purpose ("caches keys", python/fss_utils/jwt_validate.py:36) and of
the docstring of `validate_jwt` might not expect:

- A 200 response sets `keysFetched` and empties `pubKeys` *before* the body
  is decoded (python/fss_utils/jwt_validate.py:69-72). A decoding failure
  therefore leaves a fresh time stamp and the keys decoded before the
  failure. Calls inside the refresh period then use that partial dictionary
  and send no request (`PartialKeysServedWithinPeriod`). A caller might
  expect a failed decode to leave the cache unfilled.
- With a refresh period of None, calls fetch until one gets a 200
  response. A non-200 response or a failing GET leaves `keysFetched` None,
  so the next call fetches again (`FirstFetchFailureKeepsNothing`). After
  the first 200 response, every later call evaluates `keysFetched + None`
  outside any `try` and raises a `TypeError`
  (`NonePeriodSecondCallRaises`). A caller might expect None to mean
  "fetch once, never refresh".
- The validators can raise: a failing `requests.get`, the `TypeError`
  above, and a header error other than `jwt.DecodeError` all escape
  `validate_jwt`. The model states these as `Raise` results. The
  docstring of `validate_jwt` (python/fss_utils/jwt_validate.py:84) says only that it
  returns a tuple of a code and an exception or None.
- A label accepted by `LABEL_REGEX` stays accepted with one newline
  appended, because `$` also matches before a final newline. A second
  newline is rejected, so this holds only for labels without a newline
  (`TrailingNewlineAccepted`).

## Model

| member | source | states |
|---|---|---|
| `Jwks.Load` | python/fss_utils/jwt_validate.py:74-76 | the dictionary loop of both validators as a left fold: every key ID it stores is that of a decoded entry, and the exception it stops with is that of a failing entry; its full behaviour is stated by the four lemmas below |
| `Jwks.LoadAllDecoded` | python/fss_utils/jwt_validate.py:71-77 | when every JWKS entry decodes, the loop raises nothing; the dictionary's keys are exactly the entries' kids; each kid maps to the key of the last entry that carries it |
| `Jwks.LoadFirstFailure` | python/fss_utils/jwt_validate.py:74-79 | when entry i is the first to fail, the loop reports that entry's exception and the dictionary holds exactly what entries 0..i-1 stored |
| `Jwks.LoadFailurePersists` | python/fss_utils/jwt_validate.py:74-79 | once an entry has raised, the entries after it change neither the dictionary nor the exception |
| `Jwks.LoadFailsIff` | python/fss-utils/jwt_validate.py:45-53 | the loop ends with an exception exactly when some entry fails to decode |
| `Jwks.FirstFailure` | python/fss_utils/jwt_validate.py:74-76 | for a key set with a failing entry: the index of the first one, with every earlier entry decoded |
| `CachingValidator.Interpret` | python/fss_utils/jwt_validate.py:18-32 | the code's fixed message ends the text; with no exception it is the whole text; with an exception the text starts with str(e) followed by ". " |
| `CachingValidator.MessageSuffixFree` | python/fss_utils/jwt_validate.py:19-28 | no code's message is a suffix of another code's message |
| `CachingValidator.InterpretIdentifiesCode` | python/fss_utils/jwt_validate.py:18-32 | two equal interpreted texts come from the same code, whatever exceptions were prefixed |
| `CachingValidator.Fetch` | python/fss_utils/jwt_validate.py:54-79 | a request is sent exactly when nothing was fetched yet or the period is set and has elapsed; a call without a request changes nothing; any change stamps `now` and sets the dictionary; the consistency of the two fields is preserved; a failure code is UNABLE_TO_FETCH_KEYS or UNABLE_TO_DECODE_KEYS, and only the latter carries an exception |
| `CachingValidator.FetchSkipped` | python/fss_utils/jwt_validate.py:61-63 | a call without a request returns (None, None) when a period is set and raises the `TypeError` when it is None; the state is unchanged |
| `CachingValidator.FetchNon200KeepsCache` | python/fss_utils/jwt_validate.py:65-67 | a non-200 response returns (UNABLE_TO_FETCH_KEYS, None) and leaves both fields unchanged |
| `CachingValidator.FetchReplacesNeverMerges` | python/fss_utils/jwt_validate.py:69-72 | after a 200 response the state does not depend on the old state: the dictionary is replaced, never merged |
| `CachingValidator.FetchAllDecoded` | python/fss_utils/jwt_validate.py:69-77 | a 200 response whose entries all decode returns (None, None), stamps `now` and caches each kid with the key of its last entry |
| `CachingValidator.FetchRequestFailed` | python/fss_utils/jwt_validate.py:65 | a GET that raises lets its exception escape and leaves both fields unchanged |
| `CachingValidator.FetchNotAKeySet` | python/fss_utils/jwt_validate.py:69-79 | a 200 body that is not JSON or has no `keys` array returns (UNABLE_TO_DECODE_KEYS, that exception), stamps `now` and leaves an empty dictionary |
| `CachingValidator.FetchStopsAtFirstFailure` | python/fss_utils/jwt_validate.py:69-79 | a 200 response whose entry i is the first to fail returns (UNABLE_TO_DECODE_KEYS, that exception), stamps `now` and caches exactly entries 0..i-1 |
| `CachingValidator.CheckToken` | python/fss_utils/jwt_validate.py:97-132 | each code holds exactly when its check is the first to fail: UNPARSABLE_TOKEN with the DecodeError exactly when the header does not parse; UNSPECIFIED_KEY exactly when the header has no kid (even if it has no alg either); UNSPECIFIED_ALG exactly when it has a kid but no alg; UNKNOWN_KEY exactly when both are present and the kid is not cached; INVALID with PyJWT's own exception exactly when PyJWT rejects the token; VALID exactly when PyJWT accepts it with the cached key, algorithms [alg], verify_exp as asked and verify_aud iff an audience is set; any other header error escapes as it is; never a fetch code |
| `CachingValidator.Validate` | python/fss_utils/jwt_validate.py:81-132 | the state left and the request sent are those of the fetch; a raising fetch raises the same exception; a fetch failure is returned as (code, exception); after a (None, None) fetch the verdict is that of the checks over the dictionary just fetched or kept; VALID exactly when the fetch returned (None, None) and PyJWT accepted the token with the dictionary's key for the header's kid; the state stays consistent |
| `CachingValidator.FetchFailurePassedThrough` | python/fss_utils/jwt_validate.py:93-95 | a fetch failure's (code, exception) is returned unchanged, the same for every token and every library answer |
| `CachingValidator.FirstFetchFailureKeepsNothing` | python/fss_utils/jwt_validate.py:61-67 | a non-200 first fetch returns UNABLE_TO_FETCH_KEYS and leaves the validator never-fetched, so the next call sends a request |
| `CachingValidator.NonePeriodSecondCallRaises` | python/fss_utils/jwt_validate.py:61-69 | with a None period, a never-fetched validator that gets a 200 response stamps the time; every later call raises the `TypeError`, sends no request and changes nothing |
| `CachingValidator.RefreshAfterPeriod` | python/fss_utils/jwt_validate.py:61-69 | after a 200 response at t1, a call at t2 sends a request exactly when t2 >= t1 + period |
| `CachingValidator.PartialKeysServedWithinPeriod` | python/fss_utils/jwt_validate.py:69-113 | after a fetch that failed at entry i, a call inside the period sends no request and checks the token against the keys of entries 0..i-1 |
| `CachingValidator.JWTValidator.constructor` | python/fss_utils/jwt_validate.py:39-52 | stores url, audience and period; both cache fields are None and no request has been sent |
| `CachingValidator.JWTValidator.FetchPubKeys` | python/fss_utils/jwt_validate.py:54-79 | the new fields, the result and the request count are those `Fetch` gives for the old fields; the fields stay consistent |
| `CachingValidator.JWTValidator.ValidateJwt` | python/fss_utils/jwt_validate.py:81-132 | the new fields, the result and the request count are those `Validate` gives for the old fields |
| `StatelessValidator.Interpret` | python/fss-utils/jwt_validate.py:17-31 | same format as the caching validator: the fixed message ends the text, prefixed by str(e) and ". " when an exception is given |
| `StatelessValidator.MessagesDifferOnlyForUnknownKey` | python/fss-utils/jwt_validate.py:22 | the two message tables agree on every code except UNKNOWN_KEY |
| `StatelessValidator.FetchPubKeys` | python/fss-utils/jwt_validate.py:34-53 | non-200 gives (UNABLE_TO_FETCH_KEYS, None); any decoding failure gives (UNABLE_TO_DECODE_KEYS, None), with no partial dictionary and no exception; success gives (None, dictionary) with the last duplicate kid winning; a failing GET raises |
| `StatelessValidator.CheckToken` | python/fss-utils/jwt_validate.py:66-89 | the same codes under the same conditions as the caching checks, in the same order; INVALID carries PyJWT's exception and VALID means PyJWT accepted the token called with the key and [alg] alone, with the default options and no audience |
| `StatelessValidator.SameDecisionTable` | python/fss-utils/jwt_validate.py:66-89 | the stateless checks give exactly the caching validator's verdicts, in the same order, when its calls to the verifier have their options and audience replaced by the library defaults |
| `StatelessValidator.ValidateJwt` | python/fss-utils/jwt_validate.py:56-89 | each call fetches once; a fetch failure gives (code, None); otherwise the verdict is that of the checks over the freshly decoded dictionary |
| `SshKey.LabelMatches` | python/fss_utils/sshkey.py:80 | the regular-expression match (greedy repetition, then backtracking to a `$` position) accepts exactly: at most 64 characters from a-z, A-Z, 0-9, `(`, `)` and `@`..`_`, optionally followed by one newline |
| `SshKey.EmptyLabelAccepted` | python/fss_utils/sshkey.py:41 | the empty label is accepted |
| `SshKey.HyphenRejected` | python/fss_utils/sshkey.py:41 | a label containing '-' is rejected |
| `SshKey.RangeCharactersAccepted` | python/fss_utils/sshkey.py:41 | the label "[\]^" is accepted: those characters lie in the range `@-_` |
| `SshKey.TrailingNewlineAccepted` | python/fss_utils/sshkey.py:80 | an accepted label without a newline stays accepted with one newline appended, and is rejected with two |
| `SshKey.LongLabelRejected` | python/fss_utils/sshkey.py:41 | 65 class characters are rejected |
| `SshKey.AcceptedLabelHasNoSpace` | python/fss_utils/sshkey.py:41 | no accepted label contains a space |
| `SshKey.GreedyEnd` | python/fss_utils/sshkey.py:41 | the greedy `{0,64}` repetition stops after at most 64 class characters, at the end of the string or before a character outside the class |
| `SshKey.Backtrack` | python/fss_utils/sshkey.py:41 | backtracking from a repetition count succeeds exactly when `$` matches at some position up to it |
| `SshKey.Split` | python/fss_utils/sshkey.py:53 | splitting yields at least one field and no field contains the separator |
| `SshKey.Join` | python/fss_utils/sshkey.py:97-122 | `sep.join(parts)`, used at lines 97, 110 and 122: the result starts with the first part, the separator follows it when there is a second part, and every character is the separator or one of a part's; `JoinTwo`, `JoinThree`, `JoinSplit` and `SplitJoin` state its results and its inverse |
| `SshKey.JoinTwo` | python/fss_utils/sshkey.py:97 | joining two parts puts exactly one separator between them |
| `SshKey.JoinThree` | python/fss_utils/sshkey.py:110 | joining three parts puts exactly one separator between each two of them |
| `SshKey.JoinSplit` | python/fss_utils/sshkey.py:53 | joining the fields of a split with the separator gives back the string |
| `SshKey.SplitJoin` | python/fss_utils/sshkey.py:110 | splitting a join of one or more separator-free fields gives back the fields |
| `SshKey.FromPublicString` | python/fss_utils/sshkey.py:46-55 | succeeds exactly when the key imports and the string splits into exactly three fields; the key then has the imported length and no private key |
| `SshKey.PublicStringRoundTrip` | python/fss_utils/sshkey.py:102-110 | for a key built from a public string, `as_keypair` returns no private key and exactly the string the constructor received |
| `SshKey.AsPublicKeyString` | python/fss_utils/sshkey.py:109-110 | the three fields joined by single spaces; splitting the string at spaces gives back the three fields when none of them holds a space |
| `SshKey.AsKeypair` | python/fss_utils/sshkey.py:102-107 | the first component is the key's private key; the second splits back into the key's three fields when none holds a space |
| `SshKey.GeneratedKeypair` | python/fss_utils/sshkey.py:99-107 | for a generated key, `as_keypair` returns the key pair's private PEM and the stripped public string with the label appended |
| `SshKey.FieldsRoundTrip` | python/fss_utils/sshkey.py:109-110 | three space-free fields joined and parsed again give back the same key |
| `SshKey.Strip` | python/fss_utils/sshkey.py:97 | the result is the slice of the string after its leading whitespace; everything after the result is whitespace; it is empty exactly when the string is all whitespace, and otherwise starts and ends with a character that is not whitespace |
| `SshKey.StripIdempotent` | python/fss_utils/sshkey.py:97 | stripping a stripped string changes nothing |
| `SshKey.Generate` | python/fss_utils/sshkey.py:78-100 | a label the pattern rejects raises before the algorithm is looked at; an algorithm other than "rsa" or "ecdsa" raises next; on success the private key is that of the algorithm's key pair and the public string is the stripped library output, a space and the label |
| `SshKey.GenerateFields` | python/fss_utils/sshkey.py:93-99 | when the library's public string is "type base64" and it imports, `generate` yields a key whose three fields are type, base64 and the label |
| `SshKey.Chunks` | python/fss_utils/sshkey.py:121 | chunk i is the slice `h[2i:2i+2]` of the digest, cut short at its end; there are ceil(n/2) chunks of a string of n characters, all of length 2 except possibly the last, which is 1 or 2 long |
| `SshKey.UnchunkChunks` | python/fss_utils/sshkey.py:121-122 | removing the colons from the joined chunks gives back a colon-free digest |
| `SshKey.JoinedChunksStep` | python/fss_utils/sshkey.py:121-122 | the joined chunks of a digest longer than two characters are its first two characters, a colon, and the joined chunks of the rest |
| `SshKey.JoinedChunksAt` | python/fss_utils/sshkey.py:121-122 | digest character j sits at position j + j/2 of the joined chunks |
| `SshKey.JoinedChunksColons` | python/fss_utils/sshkey.py:121-122 | position 3k - 1 of the joined chunks holds a colon for every chunk k but the last |
| `SshKey.JoinedChunksLength` | python/fss_utils/sshkey.py:121-122 | the joined chunks of a non-empty digest of n characters are n + ceil(n/2) - 1 long; an empty digest gives the empty string |
| `SshKey.Fingerprint` | python/fss_utils/sshkey.py:120-122 | a fingerprint starts with "MD5:"; digest character j sits at position 4 + j + j/2; a colon sits at 4 + 3k - 1 after every two-character chunk but the last; a colon-free digest comes back when the colons after the prefix are removed; a 32-character digest gives 51 characters |
| `SshKey.GetFingerprint` | python/fss_utils/sshkey.py:112-122 | the fingerprint of a key starts with "MD5:", holds the hex digest of its second field in pairs separated by single colons at the positions above, and gives that digest back when the colons after the prefix are removed |

## Left out

- HTTP: `requests.get` is an input, `HttpOutcome`: a status and a body, or an exception. Timeouts and redirects belong to the library.
- JSON and JWK decoding (`json.loads`, `jwks['keys']`, `jwk['kid']`, `RSAAlgorithm.from_jwk`) are an input, `JwksBody`. It holds either a failure of the whole document or a sequence of entries, each a failure or a (kid, key) pair. RSA and JWK internals are not modelled.
- `jwt.get_unverified_header` and `jwt.decode` are function parameters, `JwtLibrary`. Signature algorithms, claim checks and PyJWT's default options are not modelled. The model records only the arguments each validator passes.
- Key IDs are strings. In the source a `kid` may be any JSON value, and dictionary lookup uses Python equality.
- The clock is one integer `now` per call. The source reads `datetime.datetime.now()` twice, at lines 62 and 69. The model stamps the cache with the same reading that decided freshness.
- The type check `assert` of `JWTValidator.__init__` is replaced by the parameter types.
- Concurrency: the source has no locking, and the model has no concurrent callers.
- SSH key cryptography: the key pairs in `KEY_ALGORITHMS` (made once at import time, so every `generate` of one algorithm returns the same key) are a parameter, `material`. `get_key_length` and `load_ssh_public_key` become the parameter `keyLength`. `private_bytes`, `public_bytes`, `base64.b64decode` and `hashlib.md5` are not modelled. `GetFingerprint` takes the digest function `md5Hex` as a parameter.
- The text of `FABRICSSHKeyException` messages and the `ValueError` of a failed three-way unpack are not modelled. They become the constructors of `KeyError`.
- `str.strip()` is modelled for ASCII whitespace only. Unicode whitespace beyond ASCII is not removed by `Strip`.
- `__str__`, `__repr__` and the property getters of `FABRICSSHKey` are trivial accessors and formatting.
- python/test/jwt_decode_test.py is not part of this model. Its tests need a live endpoint or exercise PyJWT alone, and it imports names that `fss_utils.jwt_validate` does not define at module level.
