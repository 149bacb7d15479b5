/** Failure-compatible wrappers shared by the inventory and catalog models. */
module Base {

  /** A value that may be absent (a nullable Java reference or an empty Optional). */
  datatype Option<+T> = None | Some(value: T) {
    function GetOr(default: T): T {
      match this
      case Some(v) => v
      case None => default
    }
  }

  /** The result of an operation that returns a value or throws. */
  datatype Result<+T, +E> = Ok(value: T) | Err(error: E)

  /** The result of a void operation that completes or throws. */
  datatype Outcome<+E> = Pass | Fail(error: E)

  /** A reading of the wall clock (LocalDateTime.now()), supplied by the caller. */
  type Timestamp = int
}
