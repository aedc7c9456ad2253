/** Small failure-carrying datatypes used across the model. */
module Wrappers {

  /** A value that may be absent (Java `null`). */
  datatype Option<+T> = None | Some(value: T) {
    function GetOr(default: T): T {
      match this
      case Some(v) => v
      case None => default
    }
  }

  /** A computed value or the exception the Java code would throw. */
  datatype Result<+R, +E> = Ok(value: R) | Err(error: E)

  /** A check that either passes or fails with an error (a void Java method that may throw). */
  datatype Outcome<+E> = Pass | Fail(error: E)
}
