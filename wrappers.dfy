/** Option and Result types for the error paths of the codec, the cipher layer and key
    normalisation. */
module Wrappers {

  datatype Option<T> = None | Some(value: T)

  datatype Result<T, E> = Success(value: T) | Failure(error: E)
}
