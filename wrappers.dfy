/** Optional values and error-carrying results, standing in for the NULL
    returns, boolean failure flags and fatal exits of the C code. */
module Wrappers {

  datatype Option<+T> = None | Some(value: T)

  datatype Result<+T, +E> = Success(value: T) | Failure(error: E)
}
