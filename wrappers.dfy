/** Failure-compatible result types shared by the model. */
module Wrappers {

  /** A value that may be absent: the model's rendering of JavaScript's `null`. */
  datatype Option<+T> = None | Some(value: T)

  /** The outcome of an operation that may throw. */
  datatype Result<+T, +E> = Success(value: T) | Failure(error: E)
}
