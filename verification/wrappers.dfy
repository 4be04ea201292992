/** Failure-compatible wrappers used across the model: `Option` stands for a
    JavaScript value that may be `null`/`undefined`, `Result` for a call that
    either returns a value or throws. */
module Wrappers {

  datatype Option<+T> = None | Some(value: T) {

    /** `x ?? d`: the value when present, the default otherwise. */
    function GetOr(default: T): T {
      match this
      case Some(v) => v
      case None => default
    }
  }

  /** The outcome of an operation that may throw: `Ok(value)` or `Err(error)`. */
  datatype Result<+T, +E> = Ok(value: T) | Err(error: E) {

    predicate IsFailure() {
      Err?
    }
  }

  /** The outcome of a backend call whose value is not used: it succeeded, or it
      failed with an error message. */
  datatype Outcome = Succeeded | Failed(message: string)
}
