/** The 32-bit signed integers of C, with two's-complement wrap-around. */
module Int32 {
  const INT32_MIN := -0x8000_0000
  const INT32_MAX := 0x7fff_ffff

  type int32 = x: int | INT32_MIN <= x <= INT32_MAX

  /** The two's-complement truncation (int32_t)x. */
  function Wrap32(x: int): (r: int32)
    ensures INT32_MIN <= x <= INT32_MAX ==> r == x
    ensures (r - x) % 0x1_0000_0000 == 0
  {
    var m := x % 0x1_0000_0000;
    if m <= INT32_MAX then m else m - 0x1_0000_0000
  }
}
