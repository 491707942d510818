/** Optional values: a JSON field that may be missing or null. */
module Wrappers {

  datatype Option<+T> = None | Some(value: T) {

    /** The field's value when present, `default` when it is missing. */
    function GetOr(default: T): T {
      match this
      case Some(v) => v
      case None => default
    }
  }
}
