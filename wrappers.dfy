/** The nullable references of the C# code, as an Option datatype. */
module Wrappers {

  datatype Option<+T> = None | Some(value: T) {

    /** The `x ?? default` operator */
    function GetOr(default: T): T {
      match this
      case Some(v) => v
      case None => default
    }
  }
}
