/** Optional values and results with an error, shared by the other modules. */
module Wrappers {

  /** A value that may be absent (`undefined`/`null` in the bot). */
  datatype Option<T> = None | Some(value: T)

  /** A value or the error an operation throws. */
  datatype Result<T, E> = Ok(value: T) | Err(error: E)
}
