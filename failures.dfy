/** The exceptions of the selector pipeline, as values. */
module Failures {
  import opened Tokens

  datatype Failure =
      /** `_tokens[_index]` read past the end of the token array. */
    | IndexOutOfRange
      /** EatToken found a token of another kind than the one expected. */
    | UnexpectedToken(expected: TokenType, found: Token)
      /** The requirement loop met a token that can not start a requirement. */
    | NotExpectedToken(kind: TokenType)
      /** The token after a key has no grammar rule. */
    | ArgumentOutOfRange
      /** A decoded JSON record with a list operator but without values. */
    | ArgumentNull
      /** A decoded JSON record whose operator is none of the four known ones. */
    | UnknownOperator(operator: string)
}
