/** Optional values: a JavaScript `undefined`/`null` or a failed lookup is `None`. */
module Wrappers {
  datatype Option<+T> = None | Some(value: T) {
    /** `x ?? d` */
    function GetOr(default: T): T {
      match this
      case Some(v) => v
      case None => default
    }
  }
}
