/** Option and Result, the two failure-carrying datatypes used by the model. */
module Wrappers {

  /** An optional value: a JSON field that may be absent. */
  datatype Option<+T> = None | Some(value: T)

  /** The outcome of a computation that may raise. */
  datatype Result<+R, +E> = Ok(value: R) | Err(error: E)
}
