/** Results of operations that the C++ and Rust code report by throwing or by an error status. */
module Outcome {

  datatype Option<+T> = None | Some(value: T)

  /** What a throwing operation throws: a LoroError, named by its message, or a standard library exception. */
  datatype Error =
    | ExpectedKey | ExpectedColon | ExpectedCommaOrBrace | ExpectedCommaOrBracket
    | ExpectedQuote | TruncatedEscape | TruncatedUnicodeEscape | BadHexDigit | UnknownEscape
    | UnterminatedString | BadLiteral | BadNumber
    | InvalidArgument | OutOfRange
    | NotACid | MalformedRootCid | MalformedNormalCid
    | NoJsonForm | NoValueForm | BadStatus | NullHandle

  datatype Result<+T> = Success(value: T) | Failure(error: Error) {
    predicate IsFailure() {
      Failure?
    }

    function PropagateFailure<U>(): Result<U>
      requires Failure?
    {
      Failure(error)
    }

    function Extract(): T
      requires Success?
    {
      value
    }
  }
}
