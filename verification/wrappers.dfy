/** Failure-compatible wrappers shared by the whole model. */
module Wrappers {

  /** A JavaScript value that may be `undefined`: `None` is `undefined`. */
  datatype Option<+T> = None | Some(value: T) {
    function GetOr(default: T): T {
      match this
      case Some(v) => v
      case None => default
    }
  }

  /** The outcome of an awaited store call: a value, or a thrown error. */
  datatype Result<+T> = Ok(value: T) | Err(reason: string) {
    predicate IsFailure() {
      Err?
    }

    function PropagateFailure<U>(): Result<U>
      requires Err?
    {
      Err(reason)
    }

    function Extract(): T
      requires Ok?
    {
      value
    }
  }
}
