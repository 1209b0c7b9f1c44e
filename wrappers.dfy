/** Optional values, used for the nullable `content` column, and results
    that are either a value or the error a call raises. */
module Wrappers {
  datatype Option<+T> = None | Some(value: T)

  datatype Result<+T, +E> = Success(value: T) | Failure(error: E)
}
