/** Success/failure results: the model's stand-in for the exceptions the .NET code throws. */
module Wrappers {

  datatype Result<+T, +E> = Success(value: T) | Failure(error: E)
}
