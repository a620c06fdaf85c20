/** Failure-carrying datatypes shared by every module of the model.
    Python's `None` becomes `Option.None`; a raised exception that the
    caller is expected to see becomes `Result.Err`. */
module Wrappers {

  datatype Option<+T> = None | Some(value: T) {

    /** The value, or `default` when there is none (Python's `x or default`
        for values whose truthiness is their presence). */
    function GetOr(default: T): T {
      match this
      case Some(v) => v
      case None => default
    }
  }

  datatype Result<+T, +E> = Ok(value: T) | Err(error: E)
}
