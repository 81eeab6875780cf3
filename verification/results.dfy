/** Failure-carrying wrappers used by the conversion functions.
    - Option<T> stands for a JavaScript value that may be `undefined`.
    - Result<T, E> stands for a call that either returns a value or throws. */
module Results {

  datatype Option<+T> = None | Some(value: T) {

    /** The wrapped value, or `default` when absent (a JavaScript default
        parameter value applied to `undefined`). */
    function GetOr(default: T): (r: T)
      ensures Some? ==> r == value
      ensures None? ==> r == default
    {
      match this
      case Some(v) => v
      case None => default
    }
  }

  datatype Result<+T, +E> = Success(value: T) | Failure(error: E)
}
