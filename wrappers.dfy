/** Failure-compatible wrappers shared by every module of the model. */
module Wrappers {

  /** A value that may be absent: Python's `Optional[T]` (`None` or a value). */
  datatype Option<+T> = None | Some(value: T) {
    function GetOr(default: T): T {
      match this
      case Some(v) => v
      case None => default
    }
  }

  /** A computation that either yields a value or raises: Python's `raise ValueError(...)`. */
  datatype Result<+T> = Ok(value: T) | Err(message: string)
}
