/** Optional values, for PHP's `isset($x) ? $x : $default`. */
module Wrappers {

  datatype Option<+T> = None | Some(value: T) {

    /** The value if present, otherwise `default`: PHP's `isset($v) ? $v : $default`. */
    function GetOr(default: T): T
    {
      match this
      case Some(v) => v
      case None => default
    }
  }
}
