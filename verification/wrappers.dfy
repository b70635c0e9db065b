/** Option: a value that may be missing, used for nullable columns and left joins. */
module Wrappers {

  datatype Option<+T> = None | Some(value: T) {

    /** The SQL `coalesce(x, default)`: the value when present, the default when NULL. */
    function GetOr(default: T): (r: T)
      ensures Some? ==> r == value
      ensures None? ==> r == default
    {
      match this
      case Some(v) => v
      case None => default
    }
  }
}
