/** Error and optional-value wrappers shared by every module of the model.
    A thrown ECMAScript error is modelled as an `Err` value carrying its kind. */
module Wrappers {

  /** The two kinds of error the modelled built-ins throw. */
  datatype Error = TypeError | RangeError

  datatype Option<+T> = None | Some(value: T) {
    function GetOr(default: T): T {
      match this
      case Some(v) => v
      case None => default
    }
  }

  /** Either a value or the error that aborted the operation. Usable with `:-`. */
  datatype Result<+T> = Ok(value: T) | Err(error: Error) {
    predicate IsFailure() {
      Err?
    }

    function PropagateFailure<U>(): Result<U>
      requires Err?
    {
      Err(error)
    }

    function Extract(): T
      requires Ok?
    {
      value
    }
  }
}
