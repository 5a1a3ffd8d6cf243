/** Powers of two, the highest set bit, and order facts about products and quotients. */
module Arith {

  function Pow2(k: nat): (r: int)
    ensures r >= 1
  {
    if k == 0 then 1 else 2 * Pow2(k - 1)
  }

  /** Position of the highest set bit, as `bsrl` computes it. */
  function Log2(x: int): (m: nat)
    requires x >= 1
    ensures Pow2(m) <= x < 2 * Pow2(m)
  {
    if x == 1 then 0 else Log2(x / 2) + 1
  }

  lemma {:induction false} Pow2Monotone(a: nat, b: nat)
    requires a <= b
    ensures Pow2(a) <= Pow2(b)
    decreases b
  {
    if a < b { Pow2Monotone(a, b - 1); }
  }

  lemma Log2Monotone(x: int, y: int)
    requires 1 <= x <= y
    ensures Log2(x) <= Log2(y)
  {
    if Log2(x) > Log2(y) {
      Pow2Monotone(Log2(y) + 1, Log2(x));
    }
  }

  lemma MulOrder(a: int, b: int, d: int)
    requires d >= 0
    ensures a <= b ==> a * d <= b * d
  {
    if a <= b { assert (b - a) * d >= 0; }
  }

  lemma QuotientBracket(x: int, d: int)
    requires d >= 1
    ensures (x / d) * d <= x < (x / d + 1) * d
  {
    assert x == d * (x / d) + x % d;
  }

  lemma DivBounds(x: int, d: int, lo: int, hi: int)
    requires d >= 1 && lo * d <= x < hi * d
    ensures lo <= x / d < hi
  {
    QuotientBracket(x, d);
    MulOrder(x / d + 1, lo, d);
    MulOrder(hi, x / d, d);
  }

  /** A quotient and a remainder in range are the quotient and the remainder. */
  lemma DivMod(x: int, d: int, q: int, r: int)
    requires d >= 1 && x == d * q + r && 0 <= r < d
    ensures x / d == q && x % d == r
  {
    DivBounds(x, d, q, q + 1);
    assert x == d * (x / d) + x % d;
  }

  lemma DivMonotone(a: int, b: int, d: int)
    requires 0 <= a <= b && d >= 1
    ensures a / d <= b / d
  {
    QuotientBracket(a, d);
    QuotientBracket(b, d);
    MulOrder(b / d + 1, a / d, d);
  }
}
