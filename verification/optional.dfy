/** The C code signals "nothing here" with NULL pointers; this module gives
    that absence a type of its own. */
module Optional {

  datatype Option<+T> = None | Some(value: T) {

    /** Returns the value held in Some, or `default` for None. */
    function GetOr(default: T): T
    {
      match this
      case Some(v) => v
      case None => default
    }
  }
}
