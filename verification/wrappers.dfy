/** Optional values and success-or-error results, standing in for Python's
    `None` and for a raised exception. */
module Wrappers {

  /** A value that may be absent (`None` in the program). */
  datatype Option<+T> = None | Some(value: T)

  /** The outcome of an operation that either returns a value or raises. */
  datatype Result<+T, +E> = Success(value: T) | Failure(error: E)
}
