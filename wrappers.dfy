/** Failure-carrying results shared by the configuration model. */
module Wrappers {

  datatype Option<T> = None | Some(value: T)

  /** The outcome of an operation that the Python code can abort with an exception. */
  datatype Result<T, E> = Success(value: T) | Failure(error: E)
}
