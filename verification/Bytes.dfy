/** Machine integers shared by the models. */
module Bytes {

  /** An unsigned 8-bit quantity. */
  type Byte = b: int | 0 <= b < 0x100

  /** An unsigned 16-bit quantity. */
  type Word16 = w: int | 0 <= w < 0x1_0000

  /** An unsigned 32-bit quantity. */
  type Word32 = w: int | 0 <= w < 0x1_0000_0000

  /** Conversion to `uint32`, as C performs it. */
  function U32(x: int): (w: Word32) {
    x % 0x1_0000_0000
  }

  /** Conversion to `int32`, as every supported compiler performs it. */
  function I32(x: int): (i: int)
    ensures -0x8000_0000 <= i < 0x8000_0000
    ensures -0x8000_0000 <= x < 0x8000_0000 ==> i == x
    ensures (i - x) % 0x1_0000_0000 == 0
  {
    var u := x % 0x1_0000_0000;
    if u < 0x8000_0000 then u else u - 0x1_0000_0000
  }
}
