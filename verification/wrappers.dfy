/** Failure-carrying return values used in place of Python's exceptions. */
module Wrappers {

  datatype Option<+T> = None | Some(value: T)

  /** Either a value or the error that the source would have raised. */
  datatype Result<+R, +E> = Success(value: R) | Failure(error: E)
}
