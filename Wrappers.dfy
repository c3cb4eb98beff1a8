/** Optional values: the `?:` fields of the record types and `Map.get` results. */
module Wrappers {

  datatype Option<+T> = None | Some(value: T) {

    /** `x || d` for an optional value whose present values are never falsy here. */
    function GetOr(default: T): T {
      match this
      case Some(v) => v
      case None => default
    }
  }
}
