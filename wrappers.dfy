/** Optional values and results with an error code, used by every module of the model. */
module Wrappers {

  /** A value that may be absent: JavaScript's `null`/`undefined`, SQL's NULL. */
  datatype Option<+T> = None | Some(value: T) {
    function GetOr(default: T): T {
      match this
      case Some(v) => v
      case None => default
    }
  }

  /** The outcome of a handler: a result, or the error code it answers with. */
  datatype Result<+T, +E> = Ok(value: T) | Err(error: E)
}
