/** The fixed-width integers of lwIP and the TCP_SEQ_* comparisons (section 3.3 of RFC 793). */
module SequenceNumbers {
  // The rest of the project counts stream positions with unbounded integers. The lemmas here say when
  // the 32-bit comparisons see the same order.

  const TWO_16: int := 0x1_0000
  const TWO_31: int := 0x8000_0000
  const TWO_32: int := 0x1_0000_0000

  type byte = x: int | 0 <= x < 0x100
  type u8 = x: int | 0 <= x < 0x100
  type u16 = x: int | 0 <= x < 0x1_0000
  type u32 = x: int | 0 <= x < 0x1_0000_0000

  /** The C conversion (u16_t). */
  function U16(x: int): u16 { x % TWO_16 }

  /** The C conversion (u32_t). */
  function U32(x: int): u32 { x % TWO_32 }

  /** The C conversion (s32_t)(u32_t). */
  function S32(x: int): int {
    var y := x % TWO_32;
    if y < TWO_31 then y else y - TWO_32
  }

  // The arguments are C expressions of type u32_t, possibly written without
  // reducing an intermediate sum; S32 reduces them.
  predicate SeqLt(a: int, b: int) { S32(a - b) < 0 }
  predicate SeqLeq(a: int, b: int) { S32(a - b) <= 0 }
  predicate SeqGt(a: int, b: int) { S32(a - b) > 0 }
  predicate SeqGeq(a: int, b: int) { S32(a - b) >= 0 }
  predicate SeqBetween(a: int, b: int, c: int) { SeqGeq(a, b) && SeqLeq(a, c) }

  /** a is the 32-bit image of the unbounded position x. */
  predicate Represents(a: int, x: int) { U32(a) == U32(x) }

  /** The signed difference of two 32-bit images is the true difference, provided
      that is in the range of s32_t, and only then. */
  lemma DifferenceExact(a: int, b: int, x: int, y: int)
    requires Represents(a, x) && Represents(b, y)
    ensures S32(a - b) == x - y <==> -TWO_31 <= x - y < TWO_31
  {
    ModDifference(a, b, x, y);
  }

  lemma ModDifference(a: int, b: int, x: int, y: int)
    requires Represents(a, x) && Represents(b, y)
    ensures (a - b) % TWO_32 == (x - y) % TWO_32
  {
    var i, j := a / TWO_32 - x / TWO_32, b / TWO_32 - y / TWO_32;
    assert a - x == i * TWO_32;
    assert b - y == j * TWO_32;
    assert a - b == (x - y) + (i - j) * TWO_32;
    ModShift(x - y, i - j);
  }

  lemma ModShift(x: int, k: int)
    ensures (x + k * TWO_32) % TWO_32 == x % TWO_32
  {
    assert (x + k * TWO_32) == (x / TWO_32 + k) * TWO_32 + x % TWO_32;
  }

  /** Every comparison macro agrees with the order of the unbounded positions. */
  lemma ComparisonsExact(a: int, b: int, x: int, y: int)
    requires Represents(a, x) && Represents(b, y)
    requires -TWO_31 <= x - y < TWO_31
    ensures SeqLt(a, b) <==> x < y
    ensures SeqLeq(a, b) <==> x <= y
    ensures SeqGt(a, b) <==> x > y
    ensures SeqGeq(a, b) <==> x >= y
  {
    DifferenceExact(a, b, x, y);
  }

  /** Adding the same amount keeps the representation. */
  lemma RepresentsPlus(a: int, x: int, n: int)
    requires Represents(a, x)
    ensures Represents(a + n, x + n)
    ensures Represents(U32(a + n), x + n)
    ensures U32(a + n) == U32(x + n)
  {
    ModDifference(a, -n, x, -n);
  }

  /** RFC 793 arithmetic needs the range: with positions 2^31 apart the order is inverted. */
  lemma ComparisonsFailHalfRangeApart(x: int)
    ensures SeqLt(U32(x + TWO_31), U32(x))
  {
    DifferenceExact(U32(x + TWO_31), U32(x), x + TWO_31, x);
    ModDifference(U32(x + TWO_31), U32(x), x + TWO_31, x);
  }

  lemma U16Sum(x: int, y: int)
    ensures U16(U16(x) + y) == U16(x + y)
  {
    assert x == (x / TWO_16) * TWO_16 + U16(x);
    ModShift16(U16(x) + y, x / TWO_16);
  }

  lemma ModShift16(x: int, k: int)
    ensures (x + k * TWO_16) % TWO_16 == x % TWO_16
  {
    assert (x + k * TWO_16) == (x / TWO_16 + k) * TWO_16 + x % TWO_16;
  }

  // ---------- Division ----------

  lemma Divide(a: nat, m: nat)
    requires m >= 1
    ensures (a + m) / m == a / m + 1
  {
    Quotient(a + m, m, a / m + 1, a % m);
  }

  /** The quotient is unique. */
  lemma Quotient(x: nat, m: nat, k: nat, r: nat)
    requires m >= 1 && r < m && x == m * k + r
    ensures x / m == k
  {
    var d := x / m - k;
    assert m * d == r - x % m;
    assert d >= 1 ==> m * d >= m;
    assert d <= -1 ==> m * d <= 0 - m;
  }

  lemma SmallQuotient(a: nat, m: nat)
    requires a < m
    ensures a / m == 0
  {}

  lemma QuotientMono(a: nat, c: nat, d: nat)
    requires 1 <= c <= d
    ensures a / d <= a / c
  {
    var q := a / d;
    assert q * c <= q * d <= a;
    AtMostQuotient(a, c, q);
  }

  lemma AtMostQuotient(a: nat, c: nat, q: nat)
    requires c >= 1 && q * c <= a
    ensures q <= a / c
  {
    var e := q - a / c;
    assert c * e == q * c - (a / c) * c;
    assert e >= 1 ==> c * e >= c;
  }
}
