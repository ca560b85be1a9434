/** Small result types shared by every module of the model. */
module Wrappers {

  /** A value that may be absent (`NULL`, `std::nullopt`, `None`). */
  datatype Option<T> = None | Some(value: T)
  {
    function GetOr(default: T): T
    {
      match this
      case None => default
      case Some(v) => v
    }

    /** The value as a sequence of length one, or the empty sequence. */
    function ToSeq(): seq<T>
    {
      match this
      case None => []
      case Some(v) => [v]
    }
  }

  /** A computation that either produces a value or fails with an error. */
  datatype Result<T, E> = Ok(value: T) | Err(error: E)
}
