/** Option and Result, the two failure-carrying datatypes the model uses. */
module Wrappers {

  /** A value that may be absent (the source's `null` / `undefined`). */
  datatype Option<+T> = None | Some(value: T)

  /** The outcome of an operation that can throw in the source. */
  datatype Result<+R, +E> = Success(value: R) | Failure(error: E)
}
