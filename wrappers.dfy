/** Failure-carrying results used in place of the Java exceptions the controller throws. */
module Wrappers {

  datatype Option<+T> = None | Some(value: T)

  /** A computation that yields a value or stops with an error. */
  datatype Result<+T, +E> = Ok(value: T) | Err(error: E)

  /** A computation run only for its effect, that succeeds or stops with an error. */
  datatype Outcome<+E> = Pass | Fail(error: E)
}
