/** Option and Result values used across the model. */
module Wrappers {

  datatype Option<+T> = None | Some(value: T)

  /** The outcome of a step that can raise: `Err` carries what Python would raise. */
  datatype Result<+T, +E> = Ok(value: T) | Err(error: E)
}
