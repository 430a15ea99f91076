/** Value types shared by the modules: Go's `byte`, nil-able values and `(T, error)` results. */
module Basics {
  /** A Go `byte` (uint8). */
  type byte = x: int | 0 <= x < 256

  /** A value that may be absent (a nil pointer, a nil error, an unmatched group). */
  datatype Option<+T> = None | Some(value: T)

  /** Go's `(T, error)`; an error is identified by its `Error()` text, as the source compares errors by text. */
  datatype Result<+T> = Ok(value: T) | Err(message: string)

  function Min(a: int, b: int): int
  {
    if a <= b then a else b
  }
}
