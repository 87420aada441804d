/** Option and Result, the two failure-carrying values the model uses. */
module Wrappers {

  /** A value that may be absent: `load` of a missing file, a lookup that found nothing. */
  datatype Option<+T> = None | Some(value: T)

  /** The outcome of an operation that can fail before doing any work. */
  datatype Result<+R, +E> = Success(value: R) | Failure(error: E)
}
