/** Failure-carrying wrappers used by the model: a nullable value, a value-or-error
    result (what the source expresses by throwing), and a pass-or-fail outcome
    (what a `void` setter that may throw amounts to). */
module Wrappers {

  /** A C# reference that may be `null`. */
  datatype Option<+T> = None | Some(value: T)

  /** The value an operation returns, or the error it throws. */
  datatype Result<+T, +E> = Success(value: T) | Failure(error: E) {

    /** Forgets the value: whether the operation threw, and what. */
    function ToOutcome(): Outcome<E> {
      match this
      case Success(_) => Pass
      case Failure(e) => Fail(e)
    }

    /** The value on success, `default` when the operation threw. */
    function GetOr(default: T): T {
      match this
      case Success(v) => v
      case Failure(_) => default
    }
  }

  /** Whether a statement completed or threw. */
  datatype Outcome<+E> = Pass | Fail(error: E)
}
