/** The absent-or-present value used for nullable references and optional lookups. */
module Wrappers {

  /** `None` plays the part of a Java `null` or an empty `Optional`. */
  datatype Option<+T> = None | Some(value: T) {

    /** The wrapped value, or `default` when there is none. */
    function GetOr(default: T): T {
      match this
      case Some(v) => v
      case None => default
    }
  }
}
