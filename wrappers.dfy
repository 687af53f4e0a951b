/** Result, the failure-carrying datatype the rest of the model uses. */
module Wrappers {

  datatype Result<+T, +E> = Success(value: T) | Failure(error: E)
}
