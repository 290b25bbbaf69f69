/** Optional values: `None` stands for JavaScript's `undefined`, `null` or `NaN`
    wherever the program falls back to a default with `||`. */
module Wrappers {

  datatype Option<+T> = None | Some(value: T) {

    /** The value if there is one, otherwise `default` (JavaScript's `x || default`
        for a value that is either absent or truthy). */
    function GetOr(default: T): T {
      match this
      case Some(v) => v
      case None => default
    }
  }
}
