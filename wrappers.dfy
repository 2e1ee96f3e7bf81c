/** Option, Result and Outcome values for the lookups and error returns of the model. */
module Wrappers {

  /** `Option<T>` of the source: `None` or `Some(value)`. */
  datatype Option<+T> = None | Some(value: T) {

    /** The value, or `default` for `None` (`unwrap_or` / `unwrap_or_default`). */
    function GetOr(default: T): T {
      match this
      case Some(v) => v
      case None => default
    }

    /** Applies `f` to a `Some` value (`Option::map`). */
    function Map<U>(f: T -> U): Option<U> {
      match this
      case Some(v) => Some(f(v))
      case None => None
    }
  }

  /** `Result<R, E>`: a value or an error. */
  datatype Result<+R, +E> = Success(value: R) | Failure(error: E)

  /** `Result<(), E>`: success carries no value. */
  datatype Outcome<+E> = Pass | Fail(error: E)
}
