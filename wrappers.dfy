/** Option and Result values used for the stemmer's "no match" and error outcomes. */
module Wrappers {

  datatype Option<T> = None | Some(value: T)

  datatype Result<T, E> = Success(value: T) | Failure(error: E)
}
