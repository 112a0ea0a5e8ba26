/** Optional values and success-or-failure results, as used throughout the model. */
module Wrappers {

  /** A value that may be absent: `null`/`undefined` in the original program. */
  datatype Option<+T> = None | Some(value: T)

  /** The outcome of an operation that returns a value or raises an error. */
  datatype Result<+R, +E> = Success(value: R) | Failure(error: E)

  /** The outcome of an operation that returns nothing or raises an error. */
  datatype Outcome<+E> = Pass | Fail(error: E)
}
