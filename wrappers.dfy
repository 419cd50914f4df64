/** Optional values and results that carry an error, used by the model of the
    user schema and of the authentication routes. */
module Wrappers {

  /** A value that may be absent: a missing request field or schema path, or
      the `null` a collection lookup returns when nothing matches. */
  datatype Option<+T> = None | Some(value: T) {

    /** The value when present, otherwise `default`. */
    function GetOr(default: T): T {
      match this
      case Some(v) => v
      case None => default
    }
  }

  /** The outcome of an operation that can be rejected. */
  datatype Result<+T, +E> = Ok(value: T) | Err(error: E)
}
