/** The one wrapper the model needs: an optional value. */
module Wrappers {

  /** A value that may be absent, for JavaScript's `undefined`. */
  datatype Option<T> = None | Some(value: T) {

    /** The wrapped value, or `default` when there is none (JavaScript's `v || default`). */
    function GetOr(default: T): T {
      match this
      case Some(v) => v
      case None => default
    }
  }
}
