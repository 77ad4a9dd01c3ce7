/** Optional values, standing in for the nullable pointers of the C code. */
module Wrappers {

  /** `None` plays the role of a NULL pointer; `Some(v)` of a pointer to `v`. */
  datatype Option<+T> = None | Some(value: T) {

    /** Returns the wrapped value, or `default` when there is none. */
    function GetOr(default: T): T {
      match this
      case Some(v) => v
      case None => default
    }
  }
}
