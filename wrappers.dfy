/** Option, Result and Outcome, the failure-compatible wrappers the rest of the model uses. */
module Wrappers {

  /** A value that may be absent; Python's `Optional[...]` / `None`. */
  datatype Option<+T> = None | Some(value: T) {
    function GetOr(default: T): T {
      if Some? then value else default
    }
  }

  /** A value or the exception that prevented it. */
  datatype Result<+T, +E> = Success(value: T) | Failure(error: E) {
    predicate IsFailure() {
      Failure?
    }

    function PropagateFailure<U>(): Result<U, E>
      requires Failure?
    {
      Failure(error)
    }

    function Extract(): T
      requires Success?
    {
      value
    }
  }

  /** Completion of a statement that returns nothing: normally, or by raising `error`. */
  datatype Outcome<+E> = Pass | Fail(error: E)
}
