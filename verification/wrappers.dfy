/** Failure-carrying datatypes shared by the index, the service and the routes. */
module Wrappers {

  /** A value that may be absent, like Python's `Optional`. */
  datatype Option<+T> = None | Some(value: T)

  /** The outcome of an operation that either yields a value or fails with an error. */
  datatype Result<+T, +E> = Success(value: T) | Failure(error: E)
}
