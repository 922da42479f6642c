/** The stock optional value: `None` is also how a Rust panic of a conversion is reported. */
module Option {
  datatype Option<+T> = None | Some(value: T) {
    function GetOr(default: T): T {
      match this
      case Some(v) => v
      case None => default
    }
  }
}
