/** Optional values. A column that may hold NULL, a query parameter the
    request may omit, a dictionary key an entry may lack and a lookup that
    may find nothing are all an `Option`. */
module Wrappers {

  datatype Option<T> = None | Some(value: T) {

    /** Python's `x if x is not None else default`, and `dict.get(key,
        default)` when `this` is the looked-up value. */
    function GetOr(default: T): T {
      match this
      case Some(v) => v
      case None => default
    }
  }
}
