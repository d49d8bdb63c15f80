/** Option and Result datatypes shared by the modules of this model. */
module Wrappers {

  /** A value that may be absent: JavaScript's `null`/`undefined`. */
  datatype Option<+T> = None | Some(value: T)

  /** The outcome of an operation that may throw: a value, or the error message. */
  datatype Result<+T, +E> = Success(value: T) | Failure(error: E)
}
