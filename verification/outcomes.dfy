/**
 * Option and Result types shared by every module of the model.  A Python
 * function that either returns or raises is modelled as a function returning
 * a `Result`, whose error side names the exception.
 */
module Outcomes {

  datatype Option<+T> = None | Some(value: T) {

    function GetOr(default: T): T {
      match this
      case Some(v) => v
      case None => default
    }
  }

  datatype Result<+T, +E> = Ok(value: T) | Err(error: E) {

    predicate IsFailure() {
      Err?
    }

    function PropagateFailure<U>(): Result<U, E>
      requires Err?
    {
      Err(error)
    }

    function Extract(): T
      requires Ok?
    {
      value
    }
  }

  /**
   * Which reading of a line that cannot work as written a function follows:
   * the code as written, or the behaviour its authors evidently intended.
   */
  datatype Check = Written | Intended
}
