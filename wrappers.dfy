/** Failure-carrying values shared by the other modules. */
module Wrappers {

  /** A value that may be absent: Swift's `T?`. */
  datatype Option<+T> = None | Some(value: T)

  /** The outcome of an operation that can throw: a value or an error. */
  datatype Result<+T, +E> = Success(value: T) | Failure(error: E)
}
