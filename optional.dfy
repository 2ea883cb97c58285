/** The optional value used wherever the source returns an `Option`. */
module Optional {

  datatype Option<T> = None | Some(value: T) {

    /** `Option::unwrap_or`. */
    function GetOr(default: T): T {
      if Some? then value else default
    }
  }
}
