/** Failure-carrying datatypes shared by every module of the model.
    The source signals failure by throwing an `Error` whose message is later
    shown to the caller; the model returns these values instead. */
module Results {

  /** A value that may be absent (`undefined` / `null` in the source). */
  datatype Option<T> = None | Some(value: T) {
    function GetOr(default: T): T {
      match this
      case Some(v) => v
      case None => default
    }
  }

  /** Either a value or the error the source would have thrown. */
  datatype Result<T, E> = Ok(value: T) | Err(error: E)
}
