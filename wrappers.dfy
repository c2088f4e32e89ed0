/** The optional value used wherever the Python code returns `None`. */
module Wrappers {

  datatype Option<+T> = None | Some(value: T) {

    /** `value` when present, `default` otherwise. */
    function GetOr(default: T): T {
      match this
      case Some(v) => v
      case None => default
    }
  }
}
