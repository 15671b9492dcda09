/** Option and Result, the failure-carrying values used throughout the model. */
module Wrappers {

  /** A value that may be absent; a SQL NULL cell is `None`. */
  datatype Option<+T> = None | Some(value: T)

  /** Either a value or the failure that was raised instead of it. */
  datatype Result<+T, +E> = Ok(value: T) | Err(error: E)
}
