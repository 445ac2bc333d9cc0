/** Failure-compatible wrappers used throughout the model: `Option` stands for
    Python's `None`-or-value and JavaScript's `null`-or-value, `Result` for a
    value-or-error return such as the `{"error": ...}` dictionaries of the API. */
module Wrappers {

  datatype Option<+T> = None | Some(value: T) {

    /** The value, or `default` when there is none (`x if x is not None else default`). */
    function GetOr(default: T): T
    {
      match this
      case Some(v) => v
      case None => default
    }
  }

  datatype Result<+R, +E> = Success(value: R) | Failure(error: E)
}
