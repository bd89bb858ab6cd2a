/** Option and Result, the two failure-carrying datatypes the model uses. */
module Wrappers {

  /** An optional value: a missing key or `undefined` is `None`. */
  datatype Option<+T> = None | Some(value: T)

  /** The outcome of a computation that may throw: `Err` carries what was thrown. */
  datatype Result<+T, +E> = Ok(value: T) | Err(error: E)
}
