/** Optional values and error returns, standing for Python's `None` and for
    raised exceptions. */
module Wrappers {

  datatype Option<+T> = None | Some(value: T)

  datatype Result<+T, +E> = Success(value: T) | Failure(error: E)

  /** The result of an operation that returns nothing unless it raises. */
  datatype Outcome<+E> = Pass | Fail(error: E)
}
