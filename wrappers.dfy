/** Option and Result values for the absent results and raised errors of the Python source. */
module Wrappers {

  /** A value that may be missing: Python's `None` or a dictionary without the key. */
  datatype Option<+T> = None | Some(value: T)

  /** The outcome of an operation that may raise: the value, or the error it raised. */
  datatype Result<+T, +E> = Ok(value: T) | Err(error: E)
}
