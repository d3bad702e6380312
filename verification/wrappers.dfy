/** Optional values and results with an error, shared by the other modules. */
module Wrappers {

  /** A value that may be absent; an absent cell of the data frame is `None`. */
  datatype Option<+T> = None | Some(value: T)

  /** The outcome of an operation that may raise. */
  datatype Result<+R, +E> = Success(value: R) | Failure(error: E)
}
