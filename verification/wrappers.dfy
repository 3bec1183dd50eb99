/** Optional values and success/failure results used across the model. */
module Wrappers {

  /** A value that may be absent (`null` / `undefined` on the JavaScript side). */
  datatype Option<+T> = None | Some(value: T)

  /** The outcome of a store call: a value, or the error the store raised. */
  datatype Result<+R, +E> = Success(value: R) | Failure(error: E)
}
