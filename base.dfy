/** Option and Result: absence and failure as values rather than exceptions. */
module Base {

  datatype Option<+T> = None | Some(value: T) {

    /** `d.get(key, default)` once the lookup has been made */
    function GetOr(default: T): T {
      match this
      case Some(v) => v
      case None => default
    }
  }

  /** A success value or the error that Python would have raised. */
  datatype Result<+T, +E> = Ok(value: T) | Err(error: E)
}
