/** The optional value the model uses for a `null`-able DOM or storage read. */
module Wrappers {

  datatype Option<+T> = None | Some(value: T) {

    /** The value, or `default` when there is none. For a nullable string
        `x`, `x || ""` is `x.GetOr("")`: `||` also replaces `""`, which is
        the same as keeping it when the fallback is `""` itself. */
    function GetOr(default: T): T {
      match this
      case Some(v) => v
      case None => default
    }
  }
}
