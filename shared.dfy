/** Small value types shared by every module of the model. */
module Shared {

  /** A value that may be absent: a Python `None`, a missing dictionary key, a JavaScript `NaN`. */
  datatype Option<T> = None | Some(value: T) {
    function GetOr(default: T): T {
      match this
      case Some(v) => v
      case None => default
    }
  }

  /** One octet of a byte string. */
  newtype byte = x: int | 0 <= x < 256
}
