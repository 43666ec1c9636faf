/** The Option type used throughout the model for values that may be absent
    (a missing dictionary key, a timestamp that does not parse). */
module Wrappers {

  datatype Option<+T> = None | Some(value: T) {

    /** The wrapped value, or `default` when there is none. */
    function GetOr(default: T): T {
      match this
      case Some(v) => v
      case None => default
    }
  }
}
