/** An optional value: used where the Go code returns a value together with
    an "ok" flag, or reads an attribute that may be absent. */
module Optional {

  datatype Option<+T> = None | Some(value: T) {

    /** The value when present, otherwise `default`. */
    function GetOr(default: T): T {
      match this
      case Some(v) => v
      case None => default
    }
  }
}
