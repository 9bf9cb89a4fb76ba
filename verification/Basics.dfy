/** Types shared by the whole project. */
module Basics {
  /** An octet of a payload. Text is a `string` instead, one `char` for each byte. */
  type byte = i: int | 0 <= i < 256

  datatype Option<+T> = None | Some(value: T)

  function Min(a: int, b: int): int {
    if a <= b then a else b
  }
}
