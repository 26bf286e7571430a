/** Optional values, used for the nullable handles and parameters of the slideshow. */
module Wrappers {

  /** `None` plays the part of JavaScript's `null`. */
  datatype Option<+T> = None | Some(value: T) {

    /** The wrapped value, or `default` when there is none. */
    function GetOr(default: T): T {
      match this
      case Some(v) => v
      case None => default
    }
  }
}
