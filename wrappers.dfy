/** Failure-carrying results shared by every module of the model. */
module Wrappers {

  /** A value that may be absent: a lookup that found nothing, a reply that failed. */
  datatype Option<+T> = None | Some(value: T)

  /** The outcome of an operation that can fail with an error of type E. */
  datatype Result<+T, +E> = Ok(value: T) | Err(error: E)
}
