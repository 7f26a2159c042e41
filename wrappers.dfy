/** Option and Result, the two failure-compatible wrappers the model uses. */
module Wrappers {

  /** An optional value: `None` stands for Java's `null` or an empty `Optional`. */
  datatype Option<+T> = None | Some(value: T)

  /** The outcome of an operation that may throw. */
  datatype Result<+T, +E> = Success(value: T) | Failure(error: E)
}
