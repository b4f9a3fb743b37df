/** Optional values and success/failure results shared by the modules. */
module Wrappers {

  /** A value that may be absent (`null` or `undefined` in the source). */
  datatype Option<+T> = None | Some(value: T)
  {
    function GetOr(default: T): T
    {
      match this
      case Some(v) => v
      case None => default
    }
  }

  /** The outcome of a request: a value, or the error it was rejected with. */
  datatype Result<+T, +E> = Ok(value: T) | Err(error: E)
}
