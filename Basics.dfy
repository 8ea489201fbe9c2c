/** Option and Result, the two wrappers every other module uses.
    `Result` carries the error message of an operation that the source
    aborts with an exception (a strict cast that fails, a missing column). */
module Basics {

  datatype Option<+T> = None | Some(value: T) {
    function GetOr(default: T): T {
      match this
      case Some(v) => v
      case None => default
    }
  }

  datatype Result<+T> = Ok(value: T) | Err(msg: string) {
    predicate IsFailure() {
      Err?
    }

    function PropagateFailure<U>(): Result<U>
      requires Err?
    {
      Err(msg)
    }

    function Extract(): T
      requires Ok?
    {
      value
    }
  }

  datatype Unit = Unit

  /** Fails with `msg` unless `condition` holds. */
  function Need(condition: bool, msg: string): Result<Unit> {
    if condition then Ok(Unit) else Err(msg)
  }

  function Min(a: int, b: int): int {
    if a <= b then a else b
  }

  function Max(a: int, b: int): int {
    if a <= b then b else a
  }
}
