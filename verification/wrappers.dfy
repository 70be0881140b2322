/** Failure-compatible wrappers used across the model. */
module Wrappers {

  /** An optional value: JavaScript's `null` for a field that may be absent. */
  datatype Option<+T> = None | Some(value: T)

  /** The outcome of an operation that can throw in the source. */
  datatype Result<+R, +E> = Success(value: R) | Failure(error: E)
}
