/** Failure-carrying datatypes shared by the fan controller and the stats collector. */
module Wrappers {

  /** A value that may be absent: a failed parse, a step that writes nothing. */
  datatype Option<+T> = None | Some(value: T)

  /** Either a computed value or the reason it could not be computed. */
  datatype Result<+R, +E> = Success(value: R) | Failure(error: E) {

    /** The value on success, `default` otherwise. */
    function GetOr(default: R): R
    {
      match this
      case Success(v) => v
      case Failure(_) => default
    }
  }
}
