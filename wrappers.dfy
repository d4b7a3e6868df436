/** Failure-compatible wrappers: `Option` stands for a nullable Java reference,
    `Result` and `Outcome` for a call that returns normally or throws. */
module Wrappers {

  datatype Option<+T> = None | Some(value: T) {
    /** The value if present, otherwise `default` (Java's `x != null ? x : default`). */
    function GetOr(default: T): T {
      match this
      case Some(v) => v
      case None => default
    }
  }

  /** The result of a service call that returns a value or throws. */
  datatype Result<+T, +E> = Ok(value: T) | Err(error: E)

  /** The result of a `void` service call that may throw. */
  datatype Outcome<+E> = Pass | Fail(error: E)
}
