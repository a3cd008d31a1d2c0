/** Helper datatypes shared by every module. */
module Wrappers {

  /** An optional value: a request field that may be absent, a lookup that may miss. */
  datatype Option<T> = None | Some(value: T) {

    /** The value, or `default` when there is none (JavaScript's `a ?? b`). */
    function GetOr(default: T): T {
      match this
      case Some(v) => v
      case None => default
    }
  }

  /** The outcome of an operation that either yields a value or throws an error. */
  datatype Result<T, E> = Ok(value: T) | Err(error: E)
}
