/** Shared value types of the EG4 Lifepower protocol model. */
module Common {

  /** One byte on the serial line, as Python's `bytes` indexing yields it. */
  type byte = x: int | 0 <= x < 0x100

  /** An unsigned 16-bit value, as `unpack_from(">H", ...)` yields it. */
  type u16 = x: int | 0 <= x < 0x1_0000

  datatype Option<+T> = None | Some(value: T)

  function Min(a: int, b: int): int {
    if a <= b then a else b
  }
}
