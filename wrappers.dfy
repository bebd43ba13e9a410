/** Failure-carrying values: Go's `nil` map and its `(value, error)` pairs. */
module Wrappers {

  /** A value that may be absent, as a Go map or pointer that may be nil. */
  datatype Option<+T> = None | Some(value: T)

  /** The outcome of a Go function that returns a value or an error. */
  datatype Result<+T, +E> = Success(value: T) | Failure(error: E)
}
