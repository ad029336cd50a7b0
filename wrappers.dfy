/** The optional value used wherever a column of the store may hold SQL NULL
    or a request field may be absent, and the outcome of an endpoint. */
module Wrappers {

  datatype Option<+T> = None | Some(value: T) {

    /** The value, or `default` when there is none (JavaScript's `x || default`
        on a value that is never falsy). */
    function GetOr(default: T): T
    {
      match this
      case Some(v) => v
      case None => default
    }
  }

  /** What an endpoint answers: success with a value, or a refusal. */
  datatype Result<+T, +E> = Ok(value: T) | Err(error: E)
}
