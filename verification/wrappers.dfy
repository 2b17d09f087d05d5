/** Failure-carrying values shared by the model's modules. */
module Wrappers {

  /** A value that may be absent: a missing map key, a file that cannot be opened. */
  datatype Option<+T> = None | Some(value: T)

  /** The outcome of an operation that can throw: a value, or the error it raised. */
  datatype Result<+T, +E> = Success(value: T) | Failure(error: E)
}
