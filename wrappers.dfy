/** The Some/None datatype that stands for Python's `X | None`. */
module Wrappers {

  datatype Option<+T> = None | Some(value: T) {

    /** The value, or a default when None. */
    function GetOr(default: T): (r: T)
      ensures Some? ==> r == value
      ensures None? ==> r == default
    {
      match this
      case Some(v) => v
      case None => default
    }
  }
}
