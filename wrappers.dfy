/** The optional value used wherever a JavaScript field or variable may be absent (undefined or null). */
module Wrappers {

  datatype Option<T> = None | Some(value: T) {

    /** The held value, or the default when absent (popup.js's `x || d` on a present, truthy x). */
    function GetOr(default: T): T {
      match this
      case Some(v) => v
      case None => default
    }
  }
}
