/** Result types shared by the model. */
module Wrappers {

  datatype Option<+T> = None | Some(value: T)

  /** Why a call gives back an error: a token or line is missing, a number does not parse,
      a process state letter is unknown. */
  datatype Error = MissingData | BadNumber | BadState

  /** What a Rust call can do: return `Ok`, return `Err`, or panic.
      Overflow and out-of-range slices are panics, as in a build with debug assertions. */
  datatype Outcome<+T> = Ok(value: T) | Err(error: Error) | Panic {

    predicate IsFailure() {
      !Ok?
    }

    function PropagateFailure<U>(): Outcome<U>
      requires !Ok?
    {
      if Err? then Err(error) else Panic
    }

    function Extract(): T
      requires Ok?
    {
      value
    }
  }
}
