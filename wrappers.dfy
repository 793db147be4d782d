/** Optional values and error results shared by every module of the model. */
module Wrappers {
  /** A value that may be absent (Python's `None`). */
  datatype Option<T> = None | Some(value: T)

  /** The outcome of an operation that can raise: a value or the error it raised. */
  datatype Result<T, E> = Ok(value: T) | Err(error: E)

  function Min(a: int, b: int): int { if a <= b then a else b }
}
