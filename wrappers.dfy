/** Option and Result datatypes used across the model. */
module Wrappers {

  datatype Option<+T> = None | Some(value: T)

  /** The outcome of a step that can throw. */
  datatype Result<+T, +E> = Ok(value: T) | Err(error: E)
}
