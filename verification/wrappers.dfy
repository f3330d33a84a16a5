/** Option and Result: the values the guard returns where Python raises. */
module Wrappers {

  datatype Option<+T> = None | Some(value: T)

  /** Success carries the value a step returns; Failure what it raises. */
  datatype Result<+T, +E> = Success(value: T) | Failure(error: E)
}
