/** Failure-carrying datatypes shared by the negotiation engine. */
module Wrappers {

  /** A value that may be absent: the model's stand-in for a Java `null`. */
  datatype Option<+T> = None | Some(value: T)

  /** The two error codes of `OperationFailedException` that the engine raises. */
  datatype Error = GeneralError | IllegalArgument

  /** The outcome of an operation that either succeeds with a value or fails with an error code. */
  datatype Result<+T> = Ok(value: T) | Err(error: Error)
}
