/** The optional value used for Python operations that may raise. */
module Wrappers {

  /** `None` stands for a raised `ValueError`/`KeyError`; `Some` carries the result. */
  datatype Option<+T> = None | Some(value: T) {

    /** The carried value, or `default` when there is none. */
    function GetOr(default: T): T {
      match this
      case Some(v) => v
      case None => default
    }
  }
}
