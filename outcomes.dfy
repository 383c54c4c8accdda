/** Optional values and error-carrying results shared by every module. */
module Outcomes {

  /** A value that may be absent: `undefined` in TypeScript, `None` in Python. */
  datatype Option<+T> = None | Some(value: T) {
    function GetOr(default: T): T {
      match this
      case Some(v) => v
      case None => default
    }
  }

  /** The outcome of an operation that either returns a value or raises. */
  datatype Result<+T, +E> = Ok(value: T) | Err(error: E)
}
