/** Optional values and results with an error, used for the absent (nil) results of the
    terminal operations and for the construction error. */
module Wrappers {

  datatype Option<+T> = None | Some(value: T)

  datatype Result<+R, +E> = Success(value: R) | Failure(error: E)
}
