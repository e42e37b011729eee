/** Optional values and fallible results, shared by the client and server models. */
module Wrappers {

  /** A value that may be absent (`T | null` in the client, `Option<T>` in the server). */
  datatype Option<+T> = None | Some(value: T)

  /** The outcome of an operation that can fail (`Result<T, E>` in the server). */
  datatype Result<+T, +E> = Ok(value: T) | Err(error: E)
}
