/** Failure-carrying result types shared by the model's modules. */
module Wrappers {

  datatype Option<+T> = None | Some(value: T)

  /** Go's `(value, error)` return pair: either a value or the error that stopped the call. */
  datatype Result<+T, +E> = Ok(value: T) | Err(error: E)
}
