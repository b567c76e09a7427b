/** Failure values of the changeset library.  Every `error(...)`, `assert(...)`
    and TypeError of Changeset.js becomes one of the kinds below, so that a
    host can tell them apart. */
module Results {

  datatype Error =
    | NotAChangeset        // unpack: the header does not match `Z:<n>[<>]<n>`
    | ErrorOpcode          // OpIter: the explicit error token `?`
    | NoMoreOperations     // OpIter.next() past the last operation
    | MismatchedLength     // applyToText, compose and follow operand lengths
    | NewlineCountWrong    // applyToText: an op's `lines` disagrees with its text
    | OutOfBounds          // stringIterator: n exceeds the remaining characters
    | InvalidChangeset     // checkRep: a bound is exceeded or re-packing differs
    | TooManyNewlines      // slicerZipperFunc: an op with more lines than chars
    | LineCountMismatch    // slicerZipperFunc: line counts ordered unlike char counts
    | UnexpectedOpcode     // slicerZipperFunc: opcode outside keep/insert resp. keep/delete
    | UnknownAttribute     // the pool has no pair for an attribute number
    | MissingLine          // a line read past the end of a line container
    | AttribsNotAString    // makeAttribsString produced no string
    | BadAttributionLine   // mutateAttributionLines / splitAttributionLines assertions
    | NotAFunction         // TypeError: a call of a method the object does not have

  /** The value of a computation that may throw. */
  datatype Result<+T> = Ok(value: T) | Err(error: Error) {
    predicate IsFailure() { Err? }
    function PropagateFailure<U>(): Result<U> requires Err? { Err(error) }
    function Extract(): T requires Ok? { value }
  }

  /** The outcome of a statement that may throw and returns nothing. */
  datatype Outcome = Pass | Fail(error: Error) {
    predicate IsFailure() { Fail? }
    function PropagateFailure<U>(): Result<U> requires Fail? { Err(error) }
  }

  datatype Option<+T> = None | Some(value: T)
}
