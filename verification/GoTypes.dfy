/** Go's fixed-width integers as ranges of `int`, the conversions that truncate, and `Option`. */
module GoTypes {
  const TWO8: int := 0x100
  const TWO16: int := 0x1_0000
  const TWO32: int := 0x1_0000_0000
  const TWO64: int := 0x1_0000_0000_0000_0000

  type u8 = x: int | 0 <= x < TWO8
  type u16 = x: int | 0 <= x < TWO16
  type u32 = x: int | 0 <= x < TWO32
  type u64 = x: int | 0 <= x < TWO64

  datatype Option<+T> = None | Some(value: T)

  // A Go conversion between integer types keeps the low bits.
  function ToU16(x: int): u16 { x % TWO16 }
  function ToU32(x: int): u32 { x % TWO32 }
  function ToU64(x: int): u64 { x % TWO64 }
}
