/** Option and Result: the model's stand-ins for Java's null references and thrown exceptions. */
module Wrappers {

  /** A value that may be absent (a Java reference that may be null). */
  datatype Option<+T> = None | Some(value: T) {

    /** Returns the value encapsulated in Some, or a default value if None */
    function GetOr(default: T): T {
      match this
      case Some(v) => v
      case None() => default
    }
  }

  /** A computation that either succeeds with a value or fails with an error (a thrown exception). */
  datatype Result<+R, +E> = Success(value: R) | Failure(error: E)
}
