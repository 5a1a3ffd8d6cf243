/**
  64-bit division: do_div64 of shared/div64.c (estimate with one 64/32-bit hardware division, then correct) and
  the shift-and-subtract div64 of user/test.c, against exact quotient and remainder.
 */
module Div64 {
  import opened Arith

  const W32: int := 0x1_0000_0000
  const W64: int := 0x1_0000_0000_0000_0000

  /** Outcome of a division on this processor: divl traps on a zero divisor or a quotient that needs 33 bits. */
  datatype Outcome = DivideError | Quotient(q: int, rem: int)

  /** divl: hi:lo divided by y. */
  function Divl(hi: int, lo: int, y: int): Outcome {
    if y == 0 || hi >= y then DivideError
    else Quotient((hi * W32 + lo) / y, (hi * W32 + lo) % y)
  }

  /** It traps exactly if there is no quotient of 32 bits. */
  lemma DivlFits(hi: int, lo: int, y: int)
    requires 0 <= hi && 0 <= lo < W32 && 0 <= y < W32
    ensures Divl(hi, lo, y).DivideError? <==> y == 0 || (hi * W32 + lo) / y >= W32
  {
    if y > 0 {
      if hi >= y {
        MulOrder(y, hi, W32);
        DivBounds(hi * W32 + lo, y, W32, hi * W32 + lo + 1) by { MulOrder(1, y, hi * W32 + lo + 1); }
      } else {
        MulOrder(hi + 1, y, W32);
        DivBounds(hi * W32 + lo, y, 0, W32);
      }
    }
  }

  /** What a division should deliver; a zero divisor leaves x as the remainder. */
  function Exact(x: int, y: int): (int, int) {
    if y == 0 then (0, x) else (x / y, x % y)
  }

  /** The 32 most significant bits of a divisor of at least 2^32. */
  function TopBits(y: int): int
    requires W32 <= y < W64
  {
    y / Pow2(Log2(y / W32) + 1)
  }

  lemma Pow2Of31()
    ensures Pow2(31) == W32 / 2 && Pow2(32) == W32
  {
    assert Pow2(4) == 16 && Pow2(8) == 256 && Pow2(12) == 0x1000 && Pow2(16) == 0x10000;
    assert Pow2(20) == 0x100000 && Pow2(24) == 0x1000000 && Pow2(28) == 0x10000000;
  }

  lemma TopBitsRange(y: int)
    requires W32 <= y < W64
    ensures W32 / 2 <= TopBits(y) < W32
    ensures 2 <= Pow2(Log2(y / W32) + 1) <= W32
  {
    var y1 := y / W32;
    var p := Pow2(Log2(y1) + 1);
    assert 1 <= y1 < W32;
    assert p == 2 * Pow2(Log2(y1));
    assert (W32 / 2) * p <= y < W32 * p by {
      assert y1 * W32 <= y < (y1 + 1) * W32;
    }
    DivBounds(y, p, W32 / 2, W32);
    Pow2Of31();
    if Log2(y1) > 31 { Pow2Monotone(32, Log2(y1)); }
    Pow2Monotone(Log2(y1) + 1, 32);
  }

  /** The estimate: never too large, and at most two too small. */
  lemma EstimateIsClose(x: int, y: int, p: int, top: int, xs: int, est: int)
    requires 0 <= x < W64 && p >= 2 && W32 / 2 <= top < W32
    requires top * p <= y < (top + 1) * p && xs * p <= x < (xs + 1) * p && 0 <= xs
    requires est * (top + 1) <= xs < (est + 1) * (top + 1) && est >= 0
    ensures est < W32
    ensures est * y <= x < (est + 3) * y
  {
    EstimateFits(x, p, top, xs, est);
    EstimateBelow(x, y, p, top, xs, est);
    EstimateAbove(x, y, p, top, xs, est);
  }

  lemma EstimateFits(x: int, p: int, top: int, xs: int, est: int)
    requires 0 <= x < W64 && p >= 2 && W32 / 2 <= top && xs * p <= x && 0 <= xs
    requires est * (top + 1) <= xs && est >= 0
    ensures est < W32
  {
    assert 2 * xs <= xs * p by { assert xs * (p - 2) >= 0; }
    MulOrder(W32, est, top + 1);
    assert W32 * (top + 1) >= W32 * (W32 / 2 + 1) by { MulOrder(W32 / 2 + 1, top + 1, W32); }
  }

  lemma EstimateBelow(x: int, y: int, p: int, top: int, xs: int, est: int)
    requires p >= 2 && y < (top + 1) * p && xs * p <= x && est >= 0 && est * (top + 1) <= xs
    ensures est * y <= x
  {
    calc {
      est * y;
    <= { MulOrder(y, (top + 1) * p, est); assert est * y <= est * ((top + 1) * p); }
      est * ((top + 1) * p);
    == { Associate(est, top + 1, p); }
      (est * (top + 1)) * p;
    <= { MulOrder(est * (top + 1), xs, p); }
      xs * p;
    <= x;
    }
  }

  lemma Associate(a: int, b: int, c: int)
    ensures a * (b * c) == (a * b) * c
  {
  }

  lemma EstimateAbove(x: int, y: int, p: int, top: int, xs: int, est: int)
    requires p >= 2 && W32 / 2 <= top && top * p <= y && x < (xs + 1) * p && 0 <= est < W32
    requires xs < (est + 1) * (top + 1)
    ensures x < (est + 3) * y
  {
    calc {
      x;
    < (xs + 1) * p;
    <= { MulOrder(xs + 1, (est + 1) * (top + 1), p); }
      ((est + 1) * (top + 1)) * p;
    <= { Widen(est, top); MulOrder((est + 1) * (top + 1), (est + 3) * top, p); }
      ((est + 3) * top) * p;
    == { Associate(est + 3, top, p); }
      (est + 3) * (top * p);
    <= { MulOrder(top * p, y, est + 3); assert (est + 3) * (top * p) <= (est + 3) * y; }
      (est + 3) * y;
    }
  }

  lemma Widen(est: int, top: int)
    requires 0 <= est < W32 && W32 / 2 <= top
    ensures (est + 1) * (top + 1) <= (est + 3) * top
  {
    assert (est + 1) * (top + 1) == est * top + est + top + 1;
    assert (est + 3) * top == est * top + 3 * top;
  }

  /** A quotient and a remainder in range are the exact ones. */
  lemma QuotientUnique(x: int, y: int, q: int, r: int)
    requires y >= 1 && x == q * y + r && 0 <= r < y
    ensures q == x / y && r == x % y
  {
    DivBounds(x, y, q, q + 1);
    assert x == y * (x / y) + x % y;
  }

  /** The top 32 bits of y and the shifted dividend, as the shifts leave them. */
  lemma ShiftedOperands(x: int, y: int, p: int)
    requires 0 <= x < W64 && W32 <= y < W64 && p == Pow2(Log2(y / W32) + 1)
    ensures TopBits(y) * p <= y < (TopBits(y) + 1) * p
    ensures (x / p) * p <= x < (x / p + 1) * p
    ensures 0 <= x / p < W64 / 2
  {
    TopBitsRange(y);
    QuotientBracket(y, p);
    QuotientBracket(x, p);
    assert (W64 / 2) * p >= W64;
    DivBounds(x, p, 0, W64 / 2);
  }

  /**
    One hardware division of the shifted dividend by the top bits plus one. The addition is in 32 bits,
    so it wraps to a zero divisor, and traps, exactly when the top bits are all ones.
   */
  function Estimate(x: int, y: int): (e: Outcome)
    requires 0 <= x < W64 && W32 <= y < W64
    ensures e.DivideError? <==> TopBits(y) == W32 - 1
    ensures e.Quotient? ==> e.q >= 0 && e.q < W32 && e.q * y <= x && x < (e.q + 3) * y
  {
    var p := Pow2(Log2(y / W32) + 1);
    TopBitsRange(y);
    ShiftedOperands(x, y, p);
    var xs := x / p;
    var d := (TopBits(y) + 1) % W32;
    HalvesOf(xs);
    EstimateBounds(x, y);
    Divl(xs / W32, xs % W32, d)
  }

  lemma HalvesOf(x: int)
    requires 0 <= x < W64
    ensures (x / W32) * W32 + x % W32 == x && 0 <= x / W32 < W32
    ensures x < W64 / 2 ==> x / W32 < W32 / 2
  {
  }

  lemma EstimateBounds(x: int, y: int)
    requires 0 <= x < W64 && W32 <= y < W64
    ensures var p, d := Pow2(Log2(y / W32) + 1), (TopBits(y) + 1) % W32;
      && (d == 0 <==> TopBits(y) == W32 - 1)
      && (d != 0 ==> d > W32 / 2)
      && (d != 0 ==> 0 <= x / p / d < W32 && (x / p / d) * y <= x < (x / p / d + 3) * y)
  {
    var p, d := Pow2(Log2(y / W32) + 1), (TopBits(y) + 1) % W32;
    TopBitsRange(y);
    ShiftedOperands(x, y, p);
    if d != 0 {
      assert d == TopBits(y) + 1;
      var xs := x / p;
      var est := xs / d;
      QuotientBracket(xs, d);
      assert est >= 0 by { DivMonotone(0, xs, d); }
      EstimateIsClose(x, y, p, TopBits(y), xs, est);
    }
  }

  /** The correction loop. The quotient stays below 2^32, so its 32-bit increment cannot wrap. */
  method Correct(x: int, y: int, est: int) returns (q: int, r: int, turns: nat)
    requires 0 <= x < W64 && W32 <= y < W64 && 0 <= est < W32 && est * y <= x < (est + 3) * y
    ensures q == x / y && r == x % y && 0 <= q < W32
    ensures turns <= 2
  {
    q, r, turns := est, x - y * est, 0;
    while r >= y
      invariant 0 <= r && x == q * y + r
      invariant q == est + turns && turns <= 2
      decreases r
    {
      ThirdTurnImpossible(x, y, est, turns, r);
      StepUp(q, y, r);
      q := q + 1;
      r := r - y;
      turns := turns + 1;
    }
    QuotientUnique(x, y, q, r);
    QuotientFits(x, y);
  }

  lemma StepUp(q: int, y: int, r: int)
    ensures q * y + r == (q + 1) * y + (r - y)
  {
  }

  lemma QuotientFits(x: int, y: int)
    requires 0 <= x < W64 && W32 <= y
    ensures 0 <= x / y < W32
  {
    MulOrder(W32, y, W32);
    DivBounds(x, y, 0, W32);
  }

  /** Division by one word: a single divl when the quotient fits in a word, two chained ones otherwise. */
  method DivideByWord(x1: int, x0: int, y: int) returns (res: Outcome)
    requires 0 <= x1 < W32 && 0 <= x0 < W32 && 1 <= y < W32
    ensures res == Quotient((x1 * W32 + x0) / y, (x1 * W32 + x0) % y)
  {
    if x1 < y {
      res := Divl(x1, x0, y);
    } else {
      var high := Divl(0, x1, y);
      var low := Divl(high.rem, x0, y);
      LongDivision(x1, x0, y);
      res := Quotient(high.q * W32 + low.q, low.rem);
    }
  }

  /**
    do_div64. It traps exactly on the divisors whose top 32 bits are all ones; on all the others the
    quotient and the remainder are exact and the correction takes at most two turns.
   */
  method DoDiv64(x: int, y: int) returns (res: Outcome, turns: nat)
    requires 0 <= x < W64 && 0 <= y < W64
    ensures res.DivideError? <==> y >= W32 && TopBits(y) == W32 - 1
    ensures res.Quotient? ==> (res.q, res.rem) == Exact(x, y)
    ensures turns <= 2
  {
    turns := 0;
    HalvesOf(x);
    HalvesOf(y);
    if y / W32 != 0 {
      var e := Estimate(x, y);
      if e.DivideError? {
        res := DivideError;
      } else {
        var q, r, n := Correct(x, y, e.q);
        res, turns := Quotient(q, r), n;
      }
    } else if y % W32 != 0 {
      res := DivideByWord(x / W32, x % W32, y % W32);
    } else {
      res := Quotient(0, x);
    }
  }

  lemma ThirdTurnImpossible(x: int, y: int, est: int, turns: int, r: int)
    requires x < (est + 3) * y && x == (est + turns) * y + r && y <= r && turns <= 2
    ensures turns < 2
  {
    assert (est + 3) * y == est * y + 3 * y;
    assert (est + turns) * y == est * y + turns * y;
  }

  /** Schoolbook division in two digits of 32 bits. */
  lemma LongDivision(x1: int, x0: int, y: int)
    requires 1 <= y && 0 <= x1 && 0 <= x0 < W32
    ensures 0 <= x1 % y < y
    ensures (x1 / y) * W32 + (x1 % y * W32 + x0) / y == (x1 * W32 + x0) / y
    ensures (x1 % y * W32 + x0) % y == (x1 * W32 + x0) % y
  {
    var q1, r1 := x1 / y, x1 % y;
    var n := r1 * W32 + x0;
    var q0, r0 := n / y, n % y;
    assert x1 == q1 * y + r1;
    assert n == q0 * y + r0;
    Distribute(q1, q0, y);
    QuotientUnique(x1 * W32 + x0, y, q1 * W32 + q0, r0);
  }

  lemma Distribute(q1: int, q0: int, y: int)
    ensures (q1 * W32 + q0) * y == (q1 * y) * W32 + q0 * y
  {
  }

  /** The doubling loop stops at the last power of two times y below x; `peak` is the largest number it forms. */
  method DoubleUp(x: int, y: int) returns (mul: int, div: int, ghost k: nat, ghost peak: int)
    requires 1 <= y <= x < W64
    ensures mul == Pow2(k) && div == y * mul && y <= div <= x < 2 * div
    ensures peak < W64
  {
    mul, div, k, peak := 1, y, 0, 0;
    while div / W32 < 0x8000_0000
      invariant mul == Pow2(k) && div == y * mul && y <= div <= x && peak < W64
      invariant div >= 0x8000_0000 * W32 ==> x < 2 * div
      decreases x - div
    {
      var newd := div + div;
      peak := if newd > peak then newd else peak;
      if newd > x { break; }
      DoubleFactor(y, mul, div);
      FactorBelow(y, mul, div);
      div := newd;
      mul := mul + mul;
      k := k + 1;
      peak := if mul > peak then mul else peak;
    }
  }

  /** div64: the halving loop undoes the doubling loop exactly, and no number formed on the way up leaves 64 bits. */
  method ShiftSubtract(x: int, y: int) returns (q: int, rem: int, ghost peak: int)
    requires 0 <= x < W64 && 0 <= y < W64
    ensures (q, rem) == Exact(x, y)
    ensures peak < W64
  {
    if y > x || y == 0 {
      if y != 0 { QuotientUnique(x, y, 0, x); }
      return 0, x, 0;
    }
    var mul, div;
    ghost var k;
    mul, div, k, peak := DoubleUp(x, y);
    q := mul;
    rem := x - div;
    while true
      invariant mul == Pow2(k) && div == y * mul && 0 <= rem < div && x == q * y + rem
      decreases k
    {
      HalveFactor(y, mul, div, k);
      mul := mul / 2;
      div := div / 2;
      if mul == 0 {
        QuotientUnique(x, y, q, rem);
        return;
      }
      k := k - 1;
      if rem >= div {
        AddFactor(q, mul, y, div);
        q := q + mul;
        rem := rem - div;
      }
    }
  }

  lemma FactorBelow(y: int, mul: int, div: int)
    requires div == y * mul && y >= 1 && mul >= 1
    ensures mul <= div
  {
    MulOrder(1, y, mul);
  }

  lemma DoubleFactor(y: int, mul: int, div: int)
    requires div == y * mul
    ensures div + div == y * (mul + mul)
  {
  }

  lemma AddFactor(q: int, mul: int, y: int, div: int)
    requires div == y * mul
    ensures (q + mul) * y == q * y + div
  {
  }

  lemma HalveFactor(y: int, mul: int, div: int, k: nat)
    requires mul == Pow2(k) && div == y * mul
    ensures k == 0 ==> mul / 2 == 0 && div == y
    ensures k > 0 ==> mul / 2 == Pow2(k - 1) && div / 2 == y * Pow2(k - 1)
  {
    if k > 0 {
      var h := Pow2(k - 1);
      assert mul == 2 * h;
      DoubleFactor(y, h, y * h);
    }
  }

  /** One divisor on which do_div64 traps while the quotient is an ordinary number. */
  lemma AllOnesDivisorTraps()
    ensures Estimate(W64 - 1, W64 - 1).DivideError? && Exact(W64 - 1, W64 - 1) == (1, 0)
  {
    Pow2Of31();
    assert (W64 - 1) / W32 == W32 - 1;
    var m := Log2(W32 - 1);
    if m > 31 { Pow2Monotone(32, m); }
    if m < 31 { Pow2Monotone(m, 30); }
    assert Pow2(m + 1) == W32;
    TopBitsRange(W64 - 1);
  }

  /** The library division and the shift-and-subtract one agree wherever the former returns at all. */
  method DivisionsAgree(x: int, y: int) returns (agree: bool)
    requires 0 <= x < W64 && 0 <= y < W64
    ensures agree <==> (y < W32 || TopBits(y) != W32 - 1)
  {
    var res, _ := DoDiv64(x, y);
    var q, rem, _ := ShiftSubtract(x, y);
    agree := res == Quotient(q, rem);
  }

  /** Four 16-bit digits, least significant first. */
  function Digits(a: int, b: int, c: int, d: int): int {
    a + 0x10000 * (b + 0x10000 * (c + 0x10000 * d))
  }

  function Digit(x: int, i: nat): (d: int)
    ensures 0 <= d < 0x10000
    decreases i
  {
    if i == 0 then x % 0x10000 else Digit(x / 0x10000, i - 1)
  }

  /** A product of two digits is formed in 32 bits and does not wrap. */
  function DigitProduct(u: int, v: int): (p: int)
    requires 0 <= u < 0x10000 && 0 <= v < 0x10000
    ensures p == u * v
  {
    DigitProductFits(u, v);
    u * v % W32
  }

  lemma DigitProductFits(u: int, v: int)
    requires 0 <= u < 0x10000 && 0 <= v < 0x10000
    ensures 0 <= u * v < W32
  {
    MulOrder(u, 0xffff, v);
    MulOrder(0, u, v);
  }

  /** A shift of a residue by one digit. */
  lemma ShiftResidue(r: int, v: int, p: int)
    requires r == v % W64
    ensures ((r + p) * 0x10000) % W64 == ((v + p) * 0x10000) % W64
  {
    var k := v / W64;
    var whole, rest := (v + p) * 0x10000, (r + p) * 0x10000;
    assert whole == rest + W64 * (k * 0x10000);
    DropMultiple(rest % W64, whole, k * 0x10000);
  }

  /** Partial sums shifted in from the top, every shift and sum in 64 bits. */
  function Accumulate(p0: int, p1: int, p2: int, p3: int): (r: int)
    ensures r == Digits(p0, p1, p2, p3) % W64
  {
    var top := p3 * 0x10000 % W64;
    var third := (top + p2) * 0x10000 % W64;
    var second := (third + p1) * 0x10000 % W64;
    ShiftResidue(top, p3 * 0x10000, p2);
    ShiftResidue(third, (p3 * 0x10000 + p2) * 0x10000, p1);
    (second + p0) % W64
  }

  function Mul64(x: int, y: int): int {
    var a, b, c, d := Digit(x, 0), Digit(x, 1), Digit(x, 2), Digit(x, 3);
    var e, f, g, h := Digit(y, 0), Digit(y, 1), Digit(y, 2), Digit(y, 3);
    Accumulate(
      DigitProduct(a, e),
      DigitProduct(b, e) + DigitProduct(a, f),
      DigitProduct(c, e) + DigitProduct(b, f) + DigitProduct(a, g),
      DigitProduct(d, e) + DigitProduct(c, f) + DigitProduct(b, g) + DigitProduct(a, h))
  }

  /** mul64 multiplies modulo 2^64, whatever is lost on the way. */
  lemma Mul64IsProduct(x: int, y: int)
    requires 0 <= x < W64 && 0 <= y < W64
    ensures Mul64(x, y) == x * y % W64
  {
    var a, b, c, d := Digit(x, 0), Digit(x, 1), Digit(x, 2), Digit(x, 3);
    var e, f, g, h := Digit(y, 0), Digit(y, 1), Digit(y, 2), Digit(y, 3);
    DigitsOf(x);
    DigitsOf(y);
    var carry := Carry(a, b, c, d, e, f, g, h);
    DigitsProduct(a, b, c, d, e, f, g, h);
    DropMultiple(Mul64(x, y), x * y, carry);
  }

  lemma DigitsOf(x: int)
    requires 0 <= x < W64
    ensures x == Digits(Digit(x, 0), Digit(x, 1), Digit(x, 2), Digit(x, 3))
  {
    var x1 := x / 0x10000;
    var x2 := x1 / 0x10000;
    var x3 := x2 / 0x10000;
    assert Digit(x, 1) == Digit(x1, 0) && Digit(x, 2) == Digit(x1, 1) == Digit(x2, 0);
    assert Digit(x, 3) == Digit(x1, 2) == Digit(x2, 1) == Digit(x3, 0) == x3;
  }

  lemma DropMultiple(r: int, whole: int, carry: int)
    requires r == (whole - W64 * carry) % W64
    ensures r == whole % W64
  {
  }

  function Carry(a: int, b: int, c: int, d: int, e: int, f: int, g: int, h: int): int {
    b * h + c * g + d * f + 0x10000 * (c * h + d * g + 0x10000 * (d * h))
  }

  lemma DigitsProduct(a: int, b: int, c: int, d: int, e: int, f: int, g: int, h: int)
    ensures Digits(a, b, c, d) * Digits(e, f, g, h)
         == Digits(a * e, b * e + a * f, c * e + b * f + a * g, d * e + c * f + b * g + a * h)
          + W64 * Carry(a, b, c, d, e, f, g, h)
  {
  }
}
