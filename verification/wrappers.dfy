/** The optional value used for every field that the source reads through `?.` or compares
    loosely with `null`: JavaScript's `null` and `undefined` both become `None`. */
module Wrappers {

  datatype Option<+T> = None | Some(value: T) {

    /** The value, or `default` when it is absent (the source's `?? default`). */
    function GetOr(default: T): T {
      match this
      case Some(v) => v
      case None => default
    }
  }
}
