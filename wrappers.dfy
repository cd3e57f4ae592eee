/** Failure-carrying values shared by the other modules. */
module Wrappers {

  /** A value that may be missing; Python's `None` where the source returns one. */
  datatype Option<+T> = None | Some(value: T) {
    function GetOr(default: T): T {
      match this
      case Some(v) => v
      case None => default
    }
  }

  /** A value or the error that a raised exception stands for. */
  datatype Result<+T, +E> = Ok(value: T) | Err(error: E)
}
