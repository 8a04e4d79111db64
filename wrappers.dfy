/** Option and Result: `null` and thrown exceptions of the source, as values. */
module Wrappers {

  /** A value that may be absent (a nullable reference or `T?` in the source). */
  datatype Option<+T> = None | Some(value: T)

  /** The outcome of a call that may throw: `Failure` carries the exception's message. */
  datatype Result<+T, +E> = Success(value: T) | Failure(error: E)
}
