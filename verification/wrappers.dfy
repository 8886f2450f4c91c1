/** Failure-carrying datatypes shared by the whole model.
  - Option<T> stands for a nullable value (Python None, pandas NaN).
  - Result<T, E> stands for a computation that either returns or raises.
 */
module Wrappers {

  datatype Option<+T> = None | Some(value: T) {

    /** Returns the value in Some, or the default when None. */
    function GetOr(default: T): T {
      match this
      case Some(v) => v
      case None => default
    }
  }

  datatype Result<+T, +E> = Ok(value: T) | Err(error: E)
}
