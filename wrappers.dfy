/** Option and Result, used for JavaScript's `undefined`, absent fetch results and error replies. */
module Wrappers {

  /** An optional value: `None` stands for JavaScript's `undefined`/`null` or a failed fetch. */
  datatype Option<+T> = None | Some(value: T) {

    /** The value, or `default` when absent. */
    function GetOr(default: T): T
    {
      match this
      case Some(v) => v
      case None => default
    }
  }

  /** A value or the error that replaced it. */
  datatype Result<+T, +E> = Ok(value: T) | Err(error: E)
}
