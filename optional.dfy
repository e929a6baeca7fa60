/** Absent-or-present values and success-or-error results. */
module Optional {

  /** A stored value; None is the value Python calls None. */
  datatype Option<+T> = None | Some(value: T)
  {
    function GetOr(default: T): T
    {
      match this
      case Some(v) => v
      case None => default
    }
  }

  datatype Result<+T, +E> = Success(value: T) | Failure(error: E)
}
