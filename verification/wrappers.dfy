/** Option and Result types shared by the outline model. */
module Wrappers {

  /** A value that may be absent (a missing dictionary key, Python's `None`). */
  datatype Option<+T> = None | Some(value: T)

  /** A computation that either yields a value or raises. */
  datatype Result<+T, +E> = Ok(value: T) | Err(error: E)
}
