/** Failure-carrying results, standing in for Python exceptions. */
module Wrappers {

  /** Either the value an operation returns or the error it raises. */
  datatype Result<+T, +E> = Success(value: T) | Failure(error: E)
}
