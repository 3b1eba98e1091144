/** The optional value used for the source's `null` / `undefined` results. */
module Wrappers {

  datatype Option<+T> = None | Some(value: T) {

    /** The value of `Some`, or `default` for `None` (the source's `??`). */
    function GetOr(default: T): T {
      match this
      case Some(v) => v
      case None => default
    }
  }
}
