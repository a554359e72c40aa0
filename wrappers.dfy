/** Wrappers for absent values and validator outcomes, shared by the modules of this model. */
module Wrappers {

  /** A value that may be absent: a dictionary key that is not there, a call that raised. */
  datatype Option<+T> = None | Some(value: T) {

    /** The wrapped value, or `default` when there is none (Python's `dict.get(key, default)`). */
    function GetOr(default: T): T {
      match this
      case Some(v) => v
      case None => default
    }
  }

  /** The outcome of a validator that either passes or raises an error. */
  datatype Outcome<+E> = Pass | Fail(error: E)
}
