/** Optional values and results with an error, used where the Java code returns null
    or lets Objects.requireNonNull throw. */
module Wrappers {

  datatype Option<+T> = None | Some(value: T)

  datatype Result<+T, +E> = Success(value: T) | Failure(error: E)
}
