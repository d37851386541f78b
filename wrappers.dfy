/** Optional values and fallible results, used for the dashboard's
    "try the next fallback" lookups and for its one fatal error. */
module Wrappers {

  datatype Option<+T> = None | Some(value: T)

  datatype Result<+T, +E> = Success(value: T) | Failure(error: E)
}
