/** Outcome of a computation that can fail with an error value. */
module Wrappers {

  datatype Result<+T, +E> = Success(value: T) | Failure(error: E)
}
