/** The Option and Result types used throughout the model.
    - Option<T> stands for a Python value that may be `None` (a tag that
      BeautifulSoup did not find, an attribute that is absent, a record that
      was not produced).
    - Result<T, E> stands for a computation that either returns normally or
      raises an exception that the caller does not catch.
 */
module Wrappers {

  datatype Option<+T> = None | Some(value: T) {

    /** The wrapped value, or `default` when there is none */
    function GetOr(default: T): T {
      match this
      case Some(v) => v
      case None => default
    }
  }

  datatype Result<+T, +E> = Success(value: T) | Failure(error: E)
}
