/** Optional values and results with an error, used for null references and thrown errors. */
module Wrappers {

  /** A value that may be absent (`null` in the library). */
  datatype Option<T> = None | Some(value: T)

  /** The outcome of an operation that may throw. */
  datatype Result<T, E> = Ok(value: T) | Err(error: E)
}
