/** Failure-compatible result types and the error kinds the engines raise. */
module Results {

  /** The exceptions the engines throw, one per distinct failure the code can hit. */
  datatype Error =
    | InvalidSignatureHeader   // signature does not start with "BSSIG01"
    | InvalidSignatureData     // a signature field that is neither a digest nor a length
    | InvalidSignatureLength   // a terminal length of BLOCK_SIZE or more
    | InvalidDeltaHeader       // delta does not start with "BSDELTA01"
    | TruncatedField           // a 4-byte integer field cut short by the end of the stream
    | LiteralTooLarge          // a declared literal size above BLOCK_SIZE
    | NegativeLiteralSize      // a declared literal size below zero
    | TruncatedLiteral         // fewer literal bytes than declared
    | SeekBeforeBegin          // a negative skip that moves the cursor before the stream's start

  datatype Option<+T> = None | Some(value: T)

  datatype Result<+T> = Success(value: T) | Failure(error: Error) {
    predicate IsFailure() { Failure? }

    function PropagateFailure<U>(): Result<U>
      requires Failure?
    {
      Failure(error)
    }

    function Extract(): T
      requires Success?
    {
      value
    }
  }

  /** The outcome of a method that either completes or stops at its first error. */
  datatype Outcome = Pass | Fail(error: Error)
}
