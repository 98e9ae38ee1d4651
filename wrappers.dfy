/** Option and Result datatypes used to model absent values and raised exceptions. */
module Wrappers {

  datatype Option<+T> = None | Some(value: T)

  /** `Err` models an exception that propagates out of the modelled Python code. */
  datatype Result<+T, +E> = Ok(value: T) | Err(error: E)
}
