/** Optional values and results with an error, shared by every module of the model. */
module Wrappers {

  /** A nullable column or an optional input field: `None` is SQL NULL or an absent property. */
  datatype Option<+T> = None | Some(value: T) {

    /** The value, or `default` when absent. */
    function GetOr(default: T): T {
      match this
      case Some(v) => v
      case None => default
    }
  }

  /** The outcome of a service call: a value, or the exception the call throws. */
  datatype Result<+T, +E> = Ok(value: T) | Err(error: E)
}
