/** Option and Result, the two failure-carrying datatypes the model uses. */
module Wrappers {

  /** A value that may be absent (a C# `null`). */
  datatype Option<+T> = None | Some(value: T)

  /** Either a value or the error that took its place (a thrown exception). */
  datatype Result<+R, +E> = Success(value: R) | Failure(error: E)
}
