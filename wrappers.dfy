/** Optional values and results with an error, shared by the task modules. */
module Wrappers {

  /** A value that may be missing: Python's `Optional[T]`, with `None` for null. */
  datatype Option<+T> = None | Some(value: T)

  /** The outcome of an operation that either returns a value or raises an error. */
  datatype Result<+T, +E> = Ok(value: T) | Err(error: E)
}
