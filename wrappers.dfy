/** Failure-compatible result types shared by the cache and the timeline helpers. */
module Wrappers {

  datatype Option<+T> = None | Some(value: T)

  /** A value, or the error that the original code raises as an exception. */
  datatype Result<+R, +E> = Success(value: R) | Failure(error: E)

  /** Success without a value, or the error that was raised. */
  datatype Outcome<+E> = Pass | Fail(error: E)
}
