/** Optional values, for Python's `None` defaults and `None` grid padding. */
module Wrappers {

  datatype Option<T> = None | Some(value: T)
  {
    /** The value, or `default` in place of `None` (`if x is None: x = default`). */
    function GetOr(default: T): (r: T)
      ensures Some? ==> r == value
      ensures None? ==> r == default
    {
      match this
      case None => default
      case Some(v) => v
    }
  }
}
