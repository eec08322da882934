/** The fixed-width integer types of the .NET code, as subset types of `int`. */
module Primitives {

  type uint8 = x: int | 0 <= x < 0x100
  type uint16 = x: int | 0 <= x < 0x1_0000
  type int16 = x: int | -0x8000 <= x < 0x8000
  type int32 = x: int | -0x8000_0000 <= x < 0x8000_0000
  type int64 = x: int | -0x8000_0000_0000_0000 <= x < 0x8000_0000_0000_0000

  /** int.MaxValue, also the largest length a MemoryStream can reach. */
  const Int32Max: int32 := 0x7FFF_FFFF

  /** The unchecked C# conversion `(int) x` of a long: keeps the low 32 bits. */
  function ToInt32(x: int64): (r: int32)
    ensures (r - x) % 0x1_0000_0000 == 0
    ensures -0x8000_0000 <= x < 0x8000_0000 ==> r == x
  {
    var low := x % 0x1_0000_0000;
    if low < 0x8000_0000 then low else low - 0x1_0000_0000
  }
}
