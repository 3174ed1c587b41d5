/** Failure-compatible datatypes shared by every module of the model. */
module Wrappers {

  /** A value that may be missing: JavaScript's null/undefined or NaN, Python's None. */
  datatype Option<+T> = None | Some(value: T)

  /** A computation that either succeeds with a value or raises an error. */
  datatype Result<+R, +E> = Success(value: R) | Failure(error: E)
}
