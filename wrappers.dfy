/** Optional values and the outcome of an operation that can throw. */
module Wrappers {

  datatype Option<+T> = None | Some(value: T)

  /** `Failure` stands for the exception a Java operation throws instead of returning. */
  datatype Result<+T, +E> = Success(value: T) | Failure(error: E)
}
