/** Failure-compatible wrappers shared by every module of the model. */
module Common {

  /** A value that may be missing: a null cell, an empty lookup. */
  datatype Option<T> = None | Some(value: T) {
    function GetOr(default: T): T {
      if Some? then value else default
    }

    // Members that let `:-` stop a computation at the first missing value.
    predicate IsFailure() {
      None?
    }

    function PropagateFailure<U>(): Option<U>
      requires None?
    {
      None
    }

    function Extract(): T
      requires Some?
    {
      value
    }
  }

  /** The outcome of a step that can raise: `Err` stands for the exception the source lets escape. */
  datatype Result<T, E> = Ok(value: T) | Err(error: E)
}
