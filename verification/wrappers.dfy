/** Failure-carrying datatypes used to model host calls that may be absent or may throw. */
module Wrappers {

  /** A value that may be missing (a `null` returned by the host). */
  datatype Option<+T> = None | Some(value: T)

  /** The outcome of a host call that may throw: a value or the error it raised. */
  datatype Result<+T, +E> = Ok(value: T) | Err(error: E)
}
