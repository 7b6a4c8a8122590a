/** Integer widths of the i386 target: the source's fixed-width types, with
    wrap-around written out where it can matter. */
module Machine {

  const TWO_TO_THE_32: int := 0x1_0000_0000
  const UINTPTR_MAX: nat := 0xFFFF_FFFF

  type uint8 = x: int | 0 <= x < 0x100

  type uint32 = x: int | 0 <= x < 0x1_0000_0000

  type int32 = x: int | -0x8000_0000 <= x < 0x8000_0000

  const INT32_MIN: int := -0x8000_0000

  /** The value of an unsigned expression computed in 32 bits. */
  function Wrap32(x: int): uint32 {
    x % TWO_TO_THE_32
  }

  /** A 32-bit unsigned value converted to `int32_t`. */
  function ToInt32(x: uint32): (r: int32)
    ensures x < 0x8000_0000 ==> r == x
    ensures (r - x) % 0x1_0000_0000 == 0
  {
    if x < 0x8000_0000 then x else x - TWO_TO_THE_32
  }
}
