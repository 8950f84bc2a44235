/** The optional-value type, used for Python values that may be `None`. */
module Wrappers {

  datatype Option<+T> = None | Some(value: T) {

    /** The value carried by `Some`, or `default` for `None`. */
    function GetOr(default: T): T {
      match this
      case Some(v) => v
      case None => default
    }
  }
}
