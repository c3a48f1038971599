/** Option and Result values shared by the other modules. */
module Wrappers {

  /** A value that may be absent (Python's `None`, or a pandas field that is missing). */
  datatype Option<+T> = None | Some(value: T)

  /** The outcome of an operation that the source lets raise an exception. */
  datatype Result<+T, +E> = Success(value: T) | Failure(error: E)
}
