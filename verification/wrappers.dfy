/** Optional values (Java's nullable fields) and results carrying either
    a value or the exception the source would throw. */
module Wrappers {

  datatype Option<+T> = None | Some(value: T)

  datatype Result<+R, +E> = Success(value: R) | Failure(error: E)
}
