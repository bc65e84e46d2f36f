/** Optional values and error-or-value results shared by the eldrow modules. */
module Wrappers {

  /** A value that may be missing (Python's `None`). */
  datatype Option<+T> = None | Some(value: T)

  /** The outcome of an operation that the Python code can abort with an exception. */
  datatype Result<+T, +E> = Ok(value: T) | Err(error: E)
}
