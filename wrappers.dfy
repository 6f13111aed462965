/** Small value wrappers shared by the modules of the bookmark model. */
module Wrappers {

  /** An optional value: a JSON field that may be left out, a cache miss, a parse failure. */
  datatype Option<+T> = None | Some(value: T) {

    /** The wrapped value, or `default` when there is none. */
    function GetOr(default: T): T {
      match this
      case Some(v) => v
      case None => default
    }
  }
}
