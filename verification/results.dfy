/** Failure-carrying values shared by the whole model.

    The source signals failure with Python exceptions; here every fallible
    operation returns a `Result`, and `Error` names the exception the source
    would have raised. */
module Results {

  /** The exceptions the modelled code can raise. */
  datatype Error =
    | KeyError(key: string)   // a dict lookup of a missing key
    | IndexError              // a list index out of range
    | EndOfInput              // `input()` with nothing left to read

  datatype Option<+T> = None | Some(value: T)

  datatype Result<+T> = Ok(value: T) | Err(error: Error) {

    predicate IsFailure() {
      Err?
    }

    function PropagateFailure<U>(): Result<U>
      requires Err?
    {
      Err(error)
    }

    function Extract(): T
      requires Ok?
    {
      value
    }
  }
}
