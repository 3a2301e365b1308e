/** Failure-carrying return values, used where the C++ code throws. */
module Wrappers {

  /** A value that may be absent. */
  datatype Option<+T> = None | Some(value: T)

  /** Either a result or the reason no result was produced. */
  datatype Result<+R, +E> = Success(value: R) | Failure(error: E)
}
