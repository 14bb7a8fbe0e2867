/** Fixed-width unsigned integers of the Arduino target, and the bit arithmetic
    the decoder performs on a uint8. */
module Ints {

  type uint8 = x: int | 0 <= x < 0x100
  type uint32 = x: int | 0 <= x < 0x1_0000_0000

  /** Number of distinct uint32 values: uint32 arithmetic is arithmetic modulo this. */
  const U32_RANGE: int := 0x1_0000_0000

  function Pow2(n: nat): (p: nat)
    ensures p >= 1
  {
    if n == 0 then 1 else 2 * Pow2(n - 1)
  }

  lemma {:induction false} Pow2Monotone(m: nat, n: nat)
    requires m <= n
    ensures Pow2(m) <= Pow2(n)
  {
    if m < n {
      Pow2Monotone(m, n - 1);
    }
  }

  /** `b <<= 1` on a uint8: the bit shifted out of position 7 is lost. */
  function ShiftLeft(b: uint8): (r: uint8)
    ensures b < 0x80 ==> r == 2 * b
    ensures r % 2 == 0
  {
    (b * 2) % 0x100
  }

  /** `b |= 1` on a uint8: sets the lowest bit. */
  function OrOne(b: uint8): (r: uint8)
    ensures r % 2 == 1
    ensures r / 2 == b / 2
  {
    if b % 2 == 1 then b else b + 1
  }
}
