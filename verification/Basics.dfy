/** Types shared by the models. */
module Basics {
  datatype Option<+T> = None | Some(value: T)

  /** Go's byte. */
  type byte = b: int | 0 <= b < 256

  type int16 = x: int | -0x8000 <= x < 0x8000

  type int32 = x: int | -0x8000_0000 <= x < 0x8000_0000

  /** Conversion to int16, which keeps the low 16 bits. */
  function ToInt16(x: int): int16 {
    (x + 0x8000) % 0x1_0000 - 0x8000
  }

  /** Conversion to int32, which keeps the low 32 bits. */
  function ToInt32(x: int): int32 {
    (x + 0x8000_0000) % 0x1_0000_0000 - 0x8000_0000
  }
}
