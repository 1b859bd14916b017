/** The absent-or-present value used throughout the model for JavaScript's
    null/undefined and for lookups that may miss. */
module Wrappers {

  datatype Option<+T> = None | Some(value: T) {

    /** The value, or the given default when absent. */
    function GetOr(default: T): T {
      match this
      case Some(v) => v
      case None => default
    }
  }
}
