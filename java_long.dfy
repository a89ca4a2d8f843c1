/**
 Java's 64-bit `long`: the range of values and the two's-complement wrap-around
 of `+`, which the expiry computation `now + OTP_EXPIRATION_MS` is subject to.
 */
module JavaLong {

  const LONG_MIN: int := -0x8000_0000_0000_0000
  const LONG_MAX: int := 0x7FFF_FFFF_FFFF_FFFF
  /** Number of distinct `long` values, 2^64. */
  const LONG_MODULUS: int := 0x1_0000_0000_0000_0000

  type Long = x: int | LONG_MIN <= x <= LONG_MAX

  /** Java's `a + b` on two `long`s: the mathematical sum reduced into the `long` range. */
  function AddLong(a: Long, b: Long): (r: Long)
    ensures (r - (a + b)) % LONG_MODULUS == 0
    ensures LONG_MIN <= a + b <= LONG_MAX ==> r == a + b
    ensures a + b > LONG_MAX ==> r < a && r < b
  {
    var sum := a + b;
    if sum > LONG_MAX then sum - LONG_MODULUS
    else if sum < LONG_MIN then sum + LONG_MODULUS
    else sum
  }
}
