/** Values that may be missing, results that may be errors, and requests that may get lost. */
module Wrappers {
  datatype Option<+T> = None | Some(value: T) {
    /** The value, or `default` when there is none (Lua's `x or default`). */
    function Or(default: T): T {
      match this
      case Some(v) => v
      case None => default
    }
  }

  datatype Result<+T, +E> = Ok(value: T) | Err(error: E)

  /** What became of a request. NotSent: it never ran. ReplyLost: it ran, but the caller only sees an error. */
  datatype Net = Answered | NotSent | ReplyLost
}
