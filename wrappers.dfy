/** Optional values and results with an error message, used for Python's `None` and raised errors. */
module Wrappers {

  datatype Option<T> = None | Some(value: T) {

    /** The value, or `default` when there is none (Python's `x or default` for text). */
    function GetOr(default: T): T
    {
      match this
      case Some(v) => v
      case None => default
    }
  }

  datatype Result<T> = Ok(value: T) | Err(message: string)
}
