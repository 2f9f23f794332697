/** Optional values and success-or-failure results. */
module Wrappers {

  /** A field that may be absent (`body.get(...)` returning None, a lookup finding no row). */
  datatype Option<+T> = None | Some(value: T) {

    /** The value, or `default` when absent. */
    function GetOr(default: T): T {
      match this
      case Some(v) => v
      case None => default
    }
  }

  /** The outcome of one operation: a value or an error. */
  datatype Result<+T, +E> = Ok(value: T) | Err(error: E)
}
