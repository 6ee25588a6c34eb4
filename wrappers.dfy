/** Optional values and results with an error, shared by every module of the model. */
module Wrappers {

  /** A value that may be absent (Python's `None`, SQL's `NULL`). */
  datatype Option<T> = None | Some(value: T)

  /** The outcome of an operation that may raise: a value, or the kind of error raised. */
  datatype Result<T, E> = Ok(value: T) | Err(error: E)
}
