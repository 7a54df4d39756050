/** Failure-compatible result types shared by the components. */
module Wrappers {

  /** A value that may be absent (an optional field, a missing dictionary key). */
  datatype Option<+T> = None | Some(value: T)

  /** The outcome of an operation that may throw: the value, or the error's message. */
  datatype Result<+T> = Ok(value: T) | Err(error: string)
}
