/** Optional values and error returns shared by the feed modules. */
module Wrappers {

  /** A value that may be absent (`undefined`/`null` in the application). */
  datatype Option<+T> = None | Some(value: T) {
    /** The value, or `default` when absent (a destructuring default). */
    function GetOr(default: T): T {
      match this
      case Some(v) => v
      case None => default
    }
  }

  /** The outcome of a procedure that can be rejected. */
  datatype Result<+T, +E> = Ok(value: T) | Err(error: E)
}
