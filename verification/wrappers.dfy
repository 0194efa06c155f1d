/** Optional values: Python's `None` and the SQL NULL column. */
module Wrappers {

  datatype Option<+T> = None | Some(value: T) {

    /** The value if present, otherwise `default`. */
    function GetOr(default: T): T {
      match this
      case Some(v) => v
      case None => default
    }
  }
}
