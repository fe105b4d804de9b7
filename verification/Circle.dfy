/** Arithmetic on uint32_t microsecond counters: a circle of 2^32 points. */
module Circle {
  const TWO32: int := 0x1_0000_0000
  const HALF: int := 0x8000_0000

  type u32 = x: int | 0 <= x < 0x1_0000_0000

  /** Conversion of a wider integer to uint32_t. */
  function Truncate(x: int): u32 {
    x % TWO32
  }

  /** Unsigned addition and subtraction, wrapping around. */
  function Add(a: u32, b: u32): u32 {
    if a + b < TWO32 then a + b else a + b - TWO32
  }

  function Sub(a: u32, b: u32): u32 {
    if a >= b then a - b else a - b + TWO32
  }

  /** The bit pattern of a uint32_t read as an int. */
  function ToSigned(x: u32): int {
    if x < HALF then x else x - TWO32
  }

  /** Subtraction of two ints in two's complement. */
  function SignedSub(a: int, b: int): int
    requires -HALF <= a < HALF && -HALF <= b < HALF
  {
    var d := a - b;
    if d >= HALF then d - TWO32 else if d < -HALF then d + TWO32 else d
  }

  /** Every counter of cs is less than half a turn ahead of base. */
  ghost predicate InHalfFrom(base: u32, c: u32) {
    Sub(c, base) < HALF
  }

  /** On a half circle, subtracting the signed readings compares distances from its start. */
  lemma SignedSubOnHalf(base: u32, p: u32, q: u32)
    requires InHalfFrom(base, p) && InHalfFrom(base, q)
    ensures SignedSub(ToSigned(p), ToSigned(q)) == Sub(p, base) - Sub(q, base)
  {
  }

  lemma TruncateAdd(x: int, y: int)
    ensures Truncate(x + y) == Add(Truncate(x), Truncate(y))
  {
    var a, b := x % TWO32, y % TWO32;
    var k, l := x / TWO32, y / TWO32;
    assert x + y == (k + l) * TWO32 + a + b;
    if a + b < TWO32 {
      ModUnique(x + y, k + l, a + b);
    } else {
      ModUnique(x + y, k + l + 1, a + b - TWO32);
    }
  }

  lemma ModUnique(x: int, k: int, r: int)
    requires x == k * TWO32 + r && 0 <= r < TWO32
    ensures x % TWO32 == r
  {
    var d := x / TWO32 - k;
    assert x == (x / TWO32) * TWO32 + x % TWO32;
    assert d * TWO32 == r - x % TWO32;
  }
}
