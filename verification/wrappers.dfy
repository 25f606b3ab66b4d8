/** Failure-carrying result types shared by the rules engine and the protocol client. */
module Wrappers {

  /** A value that may be absent. */
  datatype Option<+T> = None | Some(value: T)

  /** Either a computed value or the error that the source raises instead. */
  datatype Result<+T, +E> = Ok(value: T) | Err(error: E)
}
