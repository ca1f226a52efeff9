/** Option and Result, the failure-carrying values every lookup and build step returns. */
module Wrappers {

  /** A value that may be absent (a nil pointer in the modelled program). */
  datatype Option<+T> = None | Some(value: T)

  /** The outcome of a step that either produces a value or fails with an error. */
  datatype Result<+T, +E> = Ok(value: T) | Err(error: E)
}
