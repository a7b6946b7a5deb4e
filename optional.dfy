/** The NULL-or-value idiom of the C code: a pointer that may be NULL, a
    lookup that may find nothing. */
module Optional {

  datatype Option<+T> = None | Some(value: T) {

    /** The value, or `default` when there is none. */
    function GetOr(default: T): T {
      match this
      case Some(v) => v
      case None => default
    }
  }
}
