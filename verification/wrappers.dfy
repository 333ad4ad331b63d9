/** Failure-compatible wrapper used for values the source may not have
    (an absent page text, a regex group that did not take part, an empty
    query result). */
module Wrappers {

  datatype Option<+T> = None | Some(value: T) {

    /** The wrapped value, or `default` when there is none. */
    function GetOr(default: T): T {
      match this
      case Some(v) => v
      case None => default
    }
  }
}
