/** An optional value: a DOM element or a storage key that may be absent. */
module Options {

  datatype Option<T> = None | Some(value: T) {

    /** The carried value, or `default` when there is none: JavaScript's `x ?? default`,
        which agrees with `x || default` only when a present `x` is never falsy. */
    function GetOr(default: T): T {
      match this
      case Some(v) => v
      case None => default
    }
  }
}
