/** Optional values and success-or-failure results, used wherever the source
    has a possibly-absent field or throws an exception. */
module Wrappers {

  datatype Option<+T> = None | Some(value: T)

  datatype Result<+R, +E> = Success(value: R) | Failure(error: E)
}
