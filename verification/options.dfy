/** The optional value used wherever PHP returns `false`/`null` or JS returns
    `null`/`undefined` in place of a result. */
module Options {

  datatype Option<+T> = None | Some(value: T) {

    /** The carried value, or `default` when there is none. */
    function GetOr(default: T): T {
      match this
      case Some(v) => v
      case None => default
    }
  }
}
