/** Failure-carrying values used where the Go code returns `(value, error)` or a nil-able error. */
module Wrappers {

  /** `nil` or a value. */
  datatype Option<+T> = None | Some(value: T)

  /** Either a value or the error that was returned instead of it. */
  datatype Result<+T, +E> = Success(value: T) | Failure(error: E)
}
