/** Failure-compatible wrappers shared by the whole model. */
module Wrappers {

  /** A value that may be absent (the source's `undefined` / `never` outcomes). */
  datatype Option<+T> = None | Some(value: T)

  /** The outcome of an operation that can fail with an error value. */
  datatype Result<+T, +E> = Success(value: T) | Failure(error: E)
}
