/** Optional values and results: the model's stand-in for the C++ exceptions
    and sentinel return values of the vault. */
module Wrappers {

  datatype Option<+T> = None | Some(value: T)

  datatype Result<+T, +E> = Success(value: T) | Failure(error: E)
}
