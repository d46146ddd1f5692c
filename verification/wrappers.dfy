/** The failure-carrying result used wherever the modelled code can throw. */
module Wrappers {

  datatype Result<+T, +E> = Success(value: T) | Failure(error: E)
}
