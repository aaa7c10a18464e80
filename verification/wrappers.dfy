/** Failure-compatible wrappers used throughout the model. */
module Wrappers {

  /** A value that may be absent: a parse that failed, a tick that emitted nothing. */
  datatype Option<+T> = None | Some(value: T)

  /** An outcome that is either a value or a fatal error that ends the program. */
  datatype Result<+R, +E> = Success(value: R) | Failure(error: E)
}
