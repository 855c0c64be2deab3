/** Failure-carrying result types shared by the other modules. */
module Wrappers {

  /** A value that may be absent (a Go nil map, a nil error). */
  datatype Option<+T> = None | Some(value: T)

  /** The (value, error) pair a Go function returns, as a sum: either the value or the error. */
  datatype Result<+R, +E> = Success(value: R) | Failure(error: E)
}
