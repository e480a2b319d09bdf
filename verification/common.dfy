/** Small shared vocabulary: JavaScript's null-or-value, thrown-or-returned, and a minimum. */
module Common {

  /**
   * A JavaScript value that may be `null`. `None` also stands for `undefined`
   * where the two behave alike (`||`, `parseInt`, the `!== null` test); where
   * they differ, in string interpolation, `None` is `null` and is written "null".
   */
  datatype Option<+T> = None | Some(value: T)

  /** The outcome of a call that either returns a value or throws an `Error` with a message. */
  datatype Result<+T> = Success(value: T) | Failure(error: string)

  function Min(a: int, b: int): int
  {
    if a <= b then a else b
  }
}
