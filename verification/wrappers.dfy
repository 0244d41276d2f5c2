/** Failure-carrying wrappers used across the model. */
module Wrappers {

  /** A value that may be absent (a Python default argument that was not given). */
  datatype Option<+T> = None | Some(value: T)

  /** The outcome of an operation that returns a value or raises an exception. */
  datatype Result<+T, +E> = Ok(value: T) | Err(error: E)

  /** An outcome together with whether a warning was printed on the way. */
  datatype Diagnosed<+T> = Diagnosed(value: T, warned: bool)
}
