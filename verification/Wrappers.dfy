/** Option and Result, shared by the review model. */
module Wrappers {

  /** A value that may be absent: JavaScript's `null`/`undefined` results. */
  datatype Option<+T> = None | Some(value: T)

  /** A computation that either produces a value or fails with an error:
      the places where the review code throws a TypeError. */
  datatype Result<+R, +E> = Success(value: R) | Failure(error: E)
}
