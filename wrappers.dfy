/** The optional value used wherever the scripts work with a value that may be
    missing: a pandas NaN cell, a JSON key that is absent, or a call into an
    external service that raised and was caught. */
module Wrappers {

  datatype Option<+T> = None | Some(value: T) {

    /** The value if present, otherwise `default`. */
    function GetOr(default: T): T {
      match this
      case Some(v) => v
      case None => default
    }
  }
}
