/** Swift optionals (`T?`), used for optional callbacks, labels and limits. */
module Options {
  datatype Option<T> = None | Some(value: T) {
    /** `self ?? fallback` */
    function GetOr(fallback: T): T {
      match this
      case Some(v) => v
      case None => fallback
    }
  }
}
