/** Option and Result values used across the model for absent entries and raised exceptions. */
module Wrappers {

  datatype Option<+T> = None | Some(value: T)

  /** The outcome of an operation that either produces a value or raises an exception `E`. */
  datatype Result<+T, +E> = Ok(value: T) | Err(error: E)
}
