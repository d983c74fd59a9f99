/** Option and outcome datatypes shared by the model. */
module Wrappers {

  /** An optional value: the source's `undefined` is `None`. */
  datatype Option<+T> = None | Some(value: T)

  /** The result of an operation that either succeeds or throws. */
  datatype Outcome<+E> = Pass | Fail(error: E)

  /** A value, or the error thrown instead of producing it. */
  datatype Result<+T, +E> = Ok(value: T) | Err(error: E)

  /** `Math.min` on two integers. */
  function Min(a: int, b: int): int
  {
    if a <= b then a else b
  }
}
