/** Failure-carrying return values used in place of Python exceptions. */
module Wrappers {

  /** An optional value: `None` where the Python code would raise. */
  datatype Option<+T> = None | Some(value: T)

  /** Either a value or the reason it could not be produced. */
  datatype Result<+T, +E> = Success(value: T) | Failure(error: E)
}
