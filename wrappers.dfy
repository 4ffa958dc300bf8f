/** Failure-carrying results used where the script raises or skips. */
module Wrappers {

  /** A value that may be absent (a missing attribute array, a failed library call). */
  datatype Option<T> = None | Some(value: T)

  /** The outcome of an operation that raises on bad input. */
  datatype Result<T, E> = Ok(value: T) | Err(error: E)
}
