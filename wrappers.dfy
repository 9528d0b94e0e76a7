/** Optional values: a CSV field or a pandas cell that may be missing (None / NaN). */
module Wrappers {
  datatype Option<+T> = None | Some(value: T) {
    /** The value, or `default` when it is missing (Python's `d.get(k, default)`). */
    function GetOr(default: T): T {
      match this
      case Some(v) => v
      case None => default
    }
  }
}
