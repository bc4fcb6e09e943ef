/** Failure-carrying values standing in for Python's None and for raised exceptions. */
module Wrappers {

  /** A value that may be absent (Python's `Optional[T]`). */
  datatype Option<+T> = None | Some(value: T)

  /** Either a result or the error an operation raised. */
  datatype Result<+R, +E> = Success(value: R) | Failure(error: E)

  /** Success or the error raised, for operations that return nothing. */
  datatype Outcome<+E> = Pass | Fail(error: E)
}
