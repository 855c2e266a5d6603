/** Option and Result values used for the library's `null`/`undefined`
    values and for the failure callbacks its operations invoke. */
module Results {

  /** A JavaScript value that may be `null`/`undefined` (None) or present. */
  datatype Option<+T> = None | Some(value: T) {

    /** The value if present, otherwise `default`. */
    function GetOr(default: T): T {
      match this
      case Some(v) => v
      case None => default
    }
  }

  /** Either a value handed to a success callback or the message handed
      to a failure callback (or a JavaScript exception escaping the call). */
  datatype Result<+T> = Ok(value: T) | Err(error: string) {

    predicate IsFailure() {
      Err?
    }

    function PropagateFailure<U>(): Result<U>
      requires Err?
    {
      Err(error)
    }

    function Extract(): T
      requires Ok?
    {
      value
    }
  }
}
