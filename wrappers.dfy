/** Option and Result, the usual failure-carrying wrappers. */
module Wrappers {

  datatype Option<+T> = None | Some(value: T)

  /** A computation that either yields a value or fails with an error value. */
  datatype Result<+T, +E> = Success(value: T) | Failure(error: E)
}
