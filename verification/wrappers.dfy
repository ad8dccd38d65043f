/** Optional values and results with an error, used for the optional
    parameters and the failing operations of the digest type. */
module Wrappers {

  /** A value that may be absent, as an omitted optional argument is. */
  datatype Option<+T> = None | Some(value: T) {

    /** The held value, or `default` when there is none. */
    function GetOr(default: T): T
    {
      match this
      case Some(v) => v
      case None => default
    }
  }

  /** Either a value or the error that prevented computing it. */
  datatype Result<+T, +E> = Success(value: T) | Failure(error: E)
}
