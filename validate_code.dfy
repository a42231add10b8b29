/** The closed result taxonomy shared, member for member, by both validators:
    every call of `validate_jwt` that returns at all returns exactly one of
    these codes.  Each validator has its own message table for them. */
module ValidateCodes {
  import opened Externals

  datatype ValidateCode =
    | Valid
    | UnspecifiedKey
    | UnspecifiedAlg
    | UnknownKey
    | Invalid
    | UnableToFetchKeys
    | UnparsableToken
    | UnableToDecodeKeys

  /** The verdict of `validate_jwt`: a code and, for the codes that come
      from a caught lower-layer failure, that failure. */
  datatype Verdict = Verdict(code: ValidateCode, exc: Option<Exception>)
}
