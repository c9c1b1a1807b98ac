/** The success-or-error value that the writer returns in place of Go's `error`. */
module Wrappers {

  datatype Result<+T, +E> = Success(value: T) | Failure(error: E)
}
