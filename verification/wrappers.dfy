/** Failure-carrying wrappers used throughout the model. */
module Wrappers {

  /** A value that may be absent; `None` plays the part of Go's nil. */
  datatype Option<+T> = None | Some(value: T)

  /** A value or the error that prevented computing it (Go's `(T, error)` pair). */
  datatype Result<+R, +E> = Success(value: R) | Failure(error: E)
}
