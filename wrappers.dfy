/** Option and Result, the failure-carrying datatypes used throughout the model. */
module Wrappers {

  datatype Option<+T> = None | Some(value: T)

  /** `Err` stands for a Python exception that the modelled code lets escape. */
  datatype Result<+T, +E> = Ok(value: T) | Err(error: E)
}
