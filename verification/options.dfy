/** The optional value used across the model for JavaScript's `null` / `undefined`
    and for operations that may produce nothing (a parse that fails, a lookup that misses). */
module Options {

  datatype Option<+T> = None | Some(value: T) {

    /** The value if present, else `default` (the `x || default` idiom for non-falsy values). */
    function GetOr(default: T): T {
      match this
      case Some(v) => v
      case None => default
    }
  }
}
