/** Optional values and results with an error value, for the places where the
    Go code returns a `(value, ok)` pair or a `(value, error)` pair. */
module Wrappers {

  datatype Option<+T> = None | Some(value: T) {
    function GetOr(default: T): T {
      match this
      case Some(v) => v
      case None => default
    }
  }

  datatype Result<+T, +E> = Ok(value: T) | Err(error: E)
}
