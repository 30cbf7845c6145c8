/** Option and Result, the two failure-carrying shapes the model returns. */
module Wrappers {

  /** A value that may be absent (`undefined` or `null` in the source). */
  datatype Option<+T> = None | Some(value: T)

  /** The outcome of an operation that can fail with a reported error. */
  datatype Result<+T, +E> = Ok(value: T) | Err(error: E)
}
