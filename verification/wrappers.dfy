/** The optional value used for dictionary entries that may be absent (Python's `dict.get`). */
module Wrappers {

  datatype Option<T> = None | Some(value: T) {

    /** `d.get(key, default)`: the stored value when present, `default` otherwise. */
    function GetOr(default: T): T {
      match this
      case Some(v) => v
      case None => default
    }
  }
}
