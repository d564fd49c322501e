/** Failure-carrying values shared by every layer of the model. */
module Wrappers {

  /** An optional value; `None` stands for Go's nil. */
  datatype Option<+T> = None | Some(value: T)

  /** A value or an error, the model of Go's `(value, error)` result pairs. */
  datatype Result<+T, +E> = Success(value: T) | Failure(error: E)
}
