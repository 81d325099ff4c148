/** Optional values, used wherever the source has `undefined`, `null` or `None`. */
module Wrappers {

  datatype Option<+T> = None | Some(value: T) {

    /** The wrapped value, or `default` when there is none. */
    function GetOr(default: T): T {
      match this
      case Some(v) => v
      case None => default
    }
  }

  /**
   * An optional text that is present and not empty: the texts that JavaScript and Python
   * both treat as true. A field or parameter that was not sent, and an empty one, are false.
   */
  predicate Given(text: Option<string>) {
    text.Some? && text.value != ""
  }
}
