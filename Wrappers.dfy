/** Failure-carrying values for the model's fallible steps. */
module Wrappers {

  /** An optional value; `Some(e)` is how a Go `error` that is not nil is returned. */
  datatype Option<+T> = None | Some(value: T)

  /** A value or an error, as Go's `(value, error)` result pairs. */
  datatype Result<+R, +E> = Success(value: R) | Failure(error: E)
}
