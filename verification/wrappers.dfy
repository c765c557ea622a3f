/** The outcome of an operation that either yields a value or fails with an error. */
module Wrappers {

  datatype Result<+T, +E> = Success(value: T) | Failure(error: E)
}
