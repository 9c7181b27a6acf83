/** Failure-compatible wrappers standing for the Python functions' exceptions and `None` values. */
module Results {

  datatype Option<+T> = None | Some(value: T) {
    predicate IsFailure() { None? }

    function PropagateFailure<U>(): Option<U>
      requires None?
    {
      None
    }

    function Extract(): T
      requires Some?
    {
      value
    }

    function GetOr(default: T): T {
      if Some? then value else default
    }
  }

  /** A value, or the Python exception raised instead of returning it. */
  datatype Result<+T, +E> = Ok(value: T) | Err(error: E) {
    predicate IsFailure() { Err? }

    function PropagateFailure<U>(): Result<U, E>
      requires Err?
    {
      Err(error)
    }

    function Extract(): T
      requires Ok?
    {
      value
    }
  }

  /** Turns a missing value into the given error. */
  function Need<T, E>(o: Option<T>, e: E): Result<T, E> {
    if o.Some? then Ok(o.value) else Err(e)
  }
}
