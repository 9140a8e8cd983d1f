/** The source's 32-bit `int`. */
module Integers {

  const INT_MAX: int := 0x7fff_ffff
  const TWO_TO_THE_32: int := 0x1_0000_0000

  /** A number stored in an `int`. */
  function Int32(n: int): (i: int)
    ensures -INT_MAX - 1 <= i <= INT_MAX && (-INT_MAX - 1 <= n <= INT_MAX ==> i == n)
  {
    var low := n % TWO_TO_THE_32;
    if low > INT_MAX then low - TWO_TO_THE_32 else low
  }
}
