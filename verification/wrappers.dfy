/** Failure-compatible datatypes shared by both transformers.
    - Option<T> models a JSON object field that may be absent.
    - Result<T, E> models a call that either returns a value or raises.
 */
module Wrappers {

  datatype Option<+T> = None | Some(value: T) {

    /** The encapsulated value, or `default` when absent (Python's `dict.get(key, default)`). */
    function GetOr(default: T): T {
      match this
      case Some(v) => v
      case None => default
    }
  }

  datatype Result<+R, +E> = Success(value: R) | Failure(error: E)

  /** The exception raised by `d[key]` on a dict that has no such key. */
  datatype KeyError = KeyError(key: string)
}
