/** Failure-carrying datatypes used across the model. */
module Wrappers {

  /** A value that may be absent (JavaScript's `undefined`, or `-1` from `indexOf`). */
  datatype Option<+T> = None | Some(value: T)

  /** Either a value or the error a thrown exception carries. */
  datatype Result<+T, +E> = Success(value: T) | Failure(error: E)
}
