/** Kotlin's nullable values (`T?`). */
module Optional {

  datatype Option<T> = None | Some(value: T) {

    /** The Elvis operator `x ?: fallback`. */
    function GetOr(fallback: T): T {
      match this
      case Some(v) => v
      case None => fallback
    }
  }
}
