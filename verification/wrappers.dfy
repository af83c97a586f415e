/** The conventional Some/None datatype, used wherever the site's code has
    `null`, a missing key, or an invalid date. */
module Wrappers {

  datatype Option<+T> = None | Some(value: T) {

    /** Returns the value in Some, or a default when None. */
    function GetOr(default: T): T {
      match this
      case Some(v) => v
      case None => default
    }
  }
}
