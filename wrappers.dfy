/** Optional values and the error results that model thrown exceptions. */
module Wrappers {

  datatype Option<+T> = None | Some(value: T)

  /** A call that either returns a value or throws (rejects) with an error. */
  datatype Result<+T, +E> = Success(value: T) | Failure(error: E)
}
