/** Failure-compatible wrappers used throughout the model.
    `Option` stands for a .NET nullable value (`double?`) or an absent key;
    `Result` stands for a call that may end in an exception, the error text
    naming the exception the original code throws. */
module Wrappers {

  datatype Option<+T> = None | Some(value: T) {

    predicate IsFailure() {
      None?
    }

    function PropagateFailure<U>(): Option<U>
      requires None?
    {
      None
    }

    function Extract(): T
      requires Some?
    {
      value
    }

    function GetOr(default: T): T {
      match this
      case Some(v) => v
      case None => default
    }
  }

  datatype Result<+T> = Success(value: T) | Failure(error: string) {

    predicate IsFailure() {
      Failure?
    }

    function PropagateFailure<U>(): Result<U>
      requires Failure?
    {
      Failure(error)
    }

    function Extract(): T
      requires Success?
    {
      value
    }
  }

  /** Fails with `error` unless `condition` holds; use with `:-`. */
  function Need(condition: bool, error: string): (r: Result<()>)
    ensures r.Success? <==> condition
  {
    if condition then Success(()) else Failure(error)
  }
}
