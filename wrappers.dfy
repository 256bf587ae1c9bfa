/** The Option datatype used for values that may be absent: a missing storage
    entry, a failed parse, a thrown TypeError. */
module Wrappers {

  datatype Option<+T> = None | Some(value: T) {

    /** The value in Some, or the given default when None. */
    function GetOr(default: T): T {
      match this
      case Some(v) => v
      case None => default
    }
  }
}
