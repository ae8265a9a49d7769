/** Option and Result: absent values and the error paths of the modelled code. */
module Wrappers {

  datatype Option<+T> = None | Some(value: T)

  /** The outcome of an operation that throws: a value, or the error it throws. */
  datatype Result<+R, +E> = Ok(value: R) | Err(error: E)
}
