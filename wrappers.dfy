/** Optional values and results with an error, shared by the geometry modules. */
module Wrappers {

  /** A value that may be absent: JavaScript's `undefined` or "no value yet". */
  datatype Option<+T> = None | Some(value: T)

  /** The outcome of an operation that can throw. */
  datatype Result<+T, +E> = Success(value: T) | Failure(error: E)
}
