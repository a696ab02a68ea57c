/** Optional values, and the outcome of a computation that can throw. */
module Wrappers {

  datatype Option<T> = None | Some(value: T)

  /** A value, or the JavaScript exception (a TypeError) the computation throws. */
  datatype Result<T> = Ok(value: T) | Thrown
}
