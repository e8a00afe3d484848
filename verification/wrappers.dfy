/** The optional value used wherever the script gets `None` back or an exception
    makes a value absent. */
module Wrappers {

  datatype Option<+T> = None | Some(value: T) {

    /** Returns the value inside Some, or the default when None. */
    function GetOr(default: T): T {
      match this
      case Some(v) => v
      case None => default
    }
  }
}
