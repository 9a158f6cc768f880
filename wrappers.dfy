/** Option, Result and Outcome: the model's stand-ins for nil and for Ruby's raised exceptions. */
module Wrappers {

  datatype Option<+T> = None | Some(value: T)

  datatype Result<+R, +E> = Success(value: R) | Failure(error: E)

  /** The outcome of an operation that only changes state: it passes or it raises `error`. */
  datatype Outcome<+E> = Pass | Fail(error: E)

  function Min(a: int, b: int): int { if a <= b then a else b }

  function Max(a: int, b: int): int { if a <= b then b else a }
}
