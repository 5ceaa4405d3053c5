/** Small generic building blocks shared by every component of the model. */
module Basics {

  /** A value that may be absent: JavaScript's `null` / `undefined` beside a value. */
  datatype Option<+T> = None | Some(value: T) {

    /** `x || fallback` for a nullable list or record. */
    function GetOr(default: T): T
    {
      match this
      case Some(v) => v
      case None => default
    }
  }

  /** An operation that either yields a value or throws an `Error` with a message. */
  datatype Attempt<+T> = Ok(value: T) | Err(message: string)

  /** What awaiting a server action or a foreign call did: it threw, or it returned a value. */
  datatype Outcome<+T> = Threw | Returned(value: T)
}
