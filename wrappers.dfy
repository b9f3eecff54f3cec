/** Option and Result, the two failure-carrying datatypes used across the model, and bytes. */
module Wrappers {

  /** A Go byte. */
  type byte = b: int | 0 <= b < 256

  datatype Option<+T> = None | Some(value: T)

  datatype Result<+T, +E> = Ok(value: T) | Err(error: E)
}
