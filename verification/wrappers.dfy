/** Option and Result: SQL NULL, missing lookups and raised errors as values. */
module Wrappers {

  /** A nullable value: `None` plays the role of SQL NULL / pandas NaN. */
  datatype Option<+T> = None | Some(value: T)

  /** The outcome of an operation that may raise. */
  datatype Result<+R, +E> = Ok(value: R) | Err(error: E)
}
