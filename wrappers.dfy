/** Failure-compatible wrappers shared by every node model. */
module Wrappers {

  /** A value that may be absent (Python's `None`). */
  datatype Option<T> = None | Some(value: T)

  /** A value or the error the source raises instead of returning one. */
  datatype Result<T, E> = Ok(value: T) | Err(error: E)
}
