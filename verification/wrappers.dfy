/** An optional value, used for dialog answers and optional page elements. */
module Wrappers {

  /** The conventional Some/None datatype: a cancelled `prompt`, a missing
      storage key or a task without a due-date element is `None`. */
  datatype Option<+T> = None | Some(value: T) {

    /** Returns the wrapped value, or `default` when there is none. */
    function GetOr(default: T): T {
      match this
      case Some(v) => v
      case None => default
    }
  }
}
