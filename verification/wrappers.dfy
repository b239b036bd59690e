/** Failure-carrying values shared by the rules and the search modules. */
module Wrappers {

  /** A value that may be absent (Python's `None`). */
  datatype Option<+T> = None | Some(value: T)

  /** The outcome of an operation that raises in the source. */
  datatype Result<+T, +E> = Ok(value: T) | Err(error: E)
}
