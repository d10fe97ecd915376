/** Option, Result and Outcome values used for the source's `nil` slices and `error` returns. */
module Wrappers {

  /** A value that may be absent (a Go slice that may be nil). */
  datatype Option<+T> = None | Some(value: T)

  /** A value or the error that replaced it. */
  datatype Result<+T, +E> = Success(value: T) | Failure(error: E)

  /** The reply of an operation that returns only an `error`: Pass is `nil`. */
  datatype Outcome<+E> = Pass | Fail(error: E)
}
