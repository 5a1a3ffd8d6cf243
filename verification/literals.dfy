/**
  Printed numbers as C literals: what a scanner that is left to find the base itself makes of a printed field
  (the flag # of shared/doprnt.c against base 0 of shared/strtoul.c).
 */
module Literals {
  import opened Arith
  import opened Numerals

  lemma DigitCharIn(d: int, c: int)
    requires 0 <= d < 16 && 2 <= c
    ensures DigitValue(DigitChar(d), c) == if d < c then d else -1
  {
  }

  ghost predicate IsDigit(s: string, i: int, c: int) {
    0 <= i < |s| && DigitValue(s[i], c) >= 0
  }

  /** The run of digits is the one that cannot be made longer. */
  lemma RunIs(s: string, c: int, n: nat)
    requires n <= |s| && (n < |s| ==> !IsDigit(s, n, c))
    requires forall i {:trigger IsDigit(s, i, c)} :: 0 <= i < n ==> IsDigit(s, i, c)
    ensures DigitRun(s, c) == n
  {
    RunFacts(s, c);
  }

  lemma RunFacts(s: string, c: int)
    ensures var k := DigitRun(s, c);
      && k <= |s| && (k < |s| ==> !IsDigit(s, k, c))
      && (forall i {:trigger IsDigit(s, i, c)} :: 0 <= i < k ==> IsDigit(s, i, c))
  {
    var k := DigitRun(s, c);
    forall i {:trigger IsDigit(s, i, c)} | 0 <= i < k ensures IsDigit(s, i, c) {
      assert s[..k][i] == s[i];
    }
  }

  /** Digits in front lengthen the run. */
  lemma RunAfterDigits(z: string, s: string, c: int)
    requires AllDigits(z, c)
    ensures DigitRun(z + s, c) == |z| + DigitRun(s, c)
  {
    var t, k := z + s, DigitRun(s, c);
    RunFacts(s, c);
    forall i {:trigger IsDigit(t, i, c)} | 0 <= i < |z| + k ensures IsDigit(t, i, c) {
      if i >= |z| { assert IsDigit(s, i - |z|, c); }
    }
    RunIs(t, c, |z| + k);
  }

  /** Blanks behind do not. */
  lemma RunBeforeBlanks(s: string, n: nat, c: int)
    ensures DigitRun(s + Fill(' ', n), c) == DigitRun(s, c)
  {
    var t, k := s + Fill(' ', n), DigitRun(s, c);
    RunFacts(s, c);
    forall i {:trigger IsDigit(t, i, c)} | 0 <= i < k ensures IsDigit(t, i, c) { assert IsDigit(s, i, c); }
    RunIs(t, c, k);
  }

  /** One character more: the run of digits goes on only if it had reached the end. */
  lemma RunSnoc(s: string, a: char, c: int)
    ensures DigitRun(s + [a], c)
         == if DigitRun(s, c) < |s| then DigitRun(s, c) else if DigitValue(a, c) >= 0 then |s| + 1 else |s|
  {
    var t, k := s + [a], DigitRun(s, c);
    RunFacts(s, c);
    forall i {:trigger IsDigit(t, i, c)} | 0 <= i < k ensures IsDigit(t, i, c) { assert IsDigit(s, i, c); }
    RunIs(t, c, if k < |s| then k else if DigitValue(a, c) >= 0 then |s| + 1 else |s|);
  }

  /** The numeral of u in one base, read in another as far as its digits go. */
  function Misread(u: nat, base: int, c: int): int
    requires 2 <= base <= 16
  {
    var ds := Digits(u, base);
    Value(ds[..DigitRun(ds, c)], c)
  }

  /** What is read of a text, with one character more. */
  lemma ReadSnoc(s: string, a: char, c: int)
    ensures var k, t := DigitRun(s, c), s + [a];
      Value(t[..DigitRun(t, c)], c)
      == if k < |s| || DigitValue(a, c) < 0 then Value(s[..k], c) else Value(s[..k], c) * c + DigitValue(a, c)
  {
    RunSnoc(s, a, c);
    Slices(s, a, DigitRun(s, c));
    ValueSnoc(s, a, c);
  }

  lemma Slices(s: string, a: char, k: nat)
    requires k <= |s|
    ensures (s + [a])[..k] == s[..k] && s[..|s|] == s && (s + [a])[..|s| + 1] == s + [a]
  {
  }

  lemma MisreadDigit(u: nat, base: int, c: int)
    requires u < base && 2 <= base <= 16 && 2 <= c
    ensures Misread(u, base, c) == if u < c then u else 0
  {
    DigitCharIn(u, c);
    ReadSnoc("", DigitChar(u), c);
    assert "" + [DigitChar(u)] == Digits(u, base) && ""[..0] == "";
  }

  lemma MisreadStep(u: nat, base: int, c: int)
    requires u >= base && 2 <= base <= 16 && 2 <= c
    ensures var ds := Digits(u / base, base);
      Misread(u, base, c) == if DigitRun(ds, c) < |ds| || u % base >= c then Misread(u / base, base, c)
                             else Misread(u / base, base, c) * c + u % base
  {
    QuotientSmaller(u, base);
    DigitCharIn(u % base, c);
    ReadSnoc(Digits(u / base, base), DigitChar(u % base), c);
  }

  lemma Quotient(u: nat, base: int)
    requires u >= base >= 2
    ensures 1 <= u / base < u && 0 <= u % base < base && u == (u / base) * base + u % base
  {
    QuotientSmaller(u, base);
    Recompose(u, base);
    if u / base < 1 { MulOrder(u / base, 0, base); }
  }

  lemma Stretch(v: int, c: int, w: int, d: int)
    requires 0 <= v <= w && 1 <= w && 0 <= c < d
    ensures 0 <= v * c < w * d
  {
    MulOrder(0, v, c);
    MulOrder(v, w, c);
    assert w * d == w * c + w * (d - c) && w * (d - c) >= w by { MulOrder(1, d - c, w); }
  }

  /** In a smaller base it comes out too small, unless it is one digit of that base. */
  lemma {:induction false} ReadInSmaller(u: nat, base: int, c: int)
    requires 2 <= c < base <= 16
    ensures 0 <= Misread(u, base, c) <= u && (Misread(u, base, c) == u <==> u < c)
    decreases u
  {
    if u < base {
      MisreadDigit(u, base, c);
    } else {
      MisreadStep(u, base, c);
      Quotient(u, base);
      ReadInSmaller(u / base, base, c);
      Stretch(Misread(u / base, base, c), c, u / base, base);
    }
  }

  /** In a larger base it is read to the end and comes out too large, unless it is one digit. */
  lemma {:induction false} ReadInLarger(u: nat, base: int, c: int)
    requires 2 <= base < c <= 16
    ensures Misread(u, base, c) >= u && (Misread(u, base, c) == u <==> u < base)
    ensures DigitRun(Digits(u, base), c) == |Digits(u, base)|
    decreases u
  {
    if u < base {
      MisreadDigit(u, base, c);
      DigitCharIn(u, c);
      RunIs(Digits(u, base), c, 1);
    } else {
      MisreadStep(u, base, c);
      Quotient(u, base);
      ReadInLarger(u / base, base, c);
      DigitCharIn(u % base, c);
      RunSnoc(Digits(u / base, base), DigitChar(u % base), c);
      Stretch(u / base, base, Misread(u / base, base, c), c);
    }
  }

  lemma MisreadIsRight(u: nat, base: int, c: int)
    requires 2 <= base <= 16 && 2 <= c <= 16
    ensures Misread(u, base, c) == u <==> base == c || (u < c && u < base)
  {
    if c < base {
      ReadInSmaller(u, base, c);
    } else if base < c {
      ReadInLarger(u, base, c);
    } else {
      DigitsValue(u, base);
      var ds := Digits(u, base);
      RunStopsAtBlanks(ds, 0, base);
      assert ds + Fill(' ', 0) == ds && ds[..|ds|] == ds;
    }
  }

  /** Only the numeral of zero starts with a zero. */
  lemma {:induction false} FirstDigit(u: nat, base: int)
    requires 2 <= base <= 16
    ensures Digits(u, base)[0] == '0' <==> u == 0
    decreases u
  {
    if u >= base {
      Quotient(u, base);
      FirstDigit(u / base, base);
      assert Digits(u, base)[0] == Digits(u / base, base)[0];
    }
  }

  /** Does what is printed, after any blanks, start with a zero? */
  predicate LeadsWithZero(f: Format, u: nat, base: int)
    requires 2 <= base <= 16
  {
    u == 0 || (f.alt && base == 8) || f.prec > |Digits(u, base)| || (f.zeroPad && f.width > |Digits(u, base)|)
  }

  /** A printed number is its own C literal: hexadecimal after 0x, octal after a zero, decimal otherwise. */
  predicate IsLiteral(f: Format, u: nat, base: int)
    requires 2 <= base <= 16
  {
    if f.alt && base == 16 && u != 0 then true
    else if LeadsWithZero(f, u, base) then base == 8 || (u < 8 && u < base)
    else base == 10 || (u < 10 && u < base)
  }

  lemma CoreAsLiteral(u: nat, base: int, zeros: nat, n: nat)
    requires 2 <= base <= 16
    ensures Scanned(Core(u, base, false, zeros) + Fill(' ', n), 0).0
         == Misread(u, base, if zeros > 0 || u == 0 then 8 else 10)
    ensures Harmless(Core(u, base, false, zeros)[0])
  {
    var ds := Digits(u, base);
    var s := Fill('0', zeros) + ds;
    DigitsValue(u, base);
    ZerosHarmless(zeros, ds, base);
    assert Core(u, base, false, zeros) == s;
    BaseOfLiteral(u, base, zeros, n);
    ZerosAndBlanks(ds, zeros, n, if zeros > 0 || u == 0 then 8 else 10);
  }

  /** After a zero base 8 is taken, otherwise base 10. */
  lemma BaseOfLiteral(u: nat, base: int, zeros: nat, n: nat)
    requires 2 <= base <= 16 && AllHarmless(Fill('0', zeros) + Digits(u, base))
    ensures var t := Fill('0', zeros) + Digits(u, base) + Fill(' ', n);
      ChooseBase(t, 0) == (if zeros > 0 || u == 0 then 8 else 10, t)
  {
    var s := Fill('0', zeros) + Digits(u, base);
    NotHexPrefixed(s, n);
    FirstDigit(u, base);
    assert (s + Fill(' ', n))[0] == s[0] == if zeros > 0 then '0' else Digits(u, base)[0];
  }

  /** Zeros in front and blanks behind do not change what is read. */
  lemma ZerosAndBlanks(ds: string, zeros: nat, n: nat, c: int)
    requires 2 <= c
    ensures var t := Fill('0', zeros) + ds + Fill(' ', n);
      Value(t[..DigitRun(t, c)], c) == Value(ds[..DigitRun(ds, c)], c)
  {
    var k := DigitRun(ds, c);
    assert AllDigits(Fill('0', zeros), c);
    RunAfterDigits(Fill('0', zeros), ds, c);
    RunBeforeBlanks(Fill('0', zeros) + ds, n, c);
    assert (Fill('0', zeros) + ds + Fill(' ', n))[..zeros + k] == Fill('0', zeros) + ds[..k];
    LeadingZeros(zeros, ds[..k], c);
  }

  /**
    Which numbers a scanner reads back without being told the base: the text denotes the number if and only if it is
    its literal, and then strtoul with base 0 returns it.
   */
  lemma ReadBackAsLiteral(f: Format, u: nat, base: int)
    requires u < WORD && 2 <= base <= 16
    ensures Scanned(SkipBlanks(UnsignedField(f, u, base)), 0).0 == u <==> IsLiteral(f, u, base)
    ensures IsLiteral(f, u, base) ==> ReadUnsigned(UnsignedField(f, u, base), 0).0 == u
  {
    var lead, core := LiteralParts(f, u, base, UnsignedField(f, u, base));
    AfterBlanks(UnsignedField(f, u, base), lead, core, u, IsLiteral(f, u, base));
  }

  lemma LiteralParts(f: Format, u: nat, base: int, text: string) returns (lead: nat, core: string)
    requires 2 <= base <= 16 && text == Field(f, "", Prefix(u, base, f.alt), Digits(u, base))
    ensures text == Fill(' ', lead) + ("" + core) && core != "" && Harmless(core[0])
    ensures Scanned(core, 0).0 == u <==> IsLiteral(f, u, base)
  {
    var hex, zeros, n;
    lead, hex, zeros, n := FieldShape(f, "", u, base);
    core := Core(u, base, hex, zeros) + Fill(' ', n);
    LiteralCore(f, u, base, hex, zeros, n);
  }

  lemma AfterBlanks(text: string, lead: nat, core: string, u: nat, literal: bool)
    requires text == Fill(' ', lead) + ("" + core) && core != "" && Harmless(core[0])
    requires u < WORD && (Scanned(core, 0).0 == u <==> literal)
    ensures Scanned(SkipBlanks(text), 0).0 == u <==> literal
    ensures literal ==> ReadUnsigned(text, 0).0 == u
  {
    SkipToCore(lead, "", core);
    assert "" + core == core;
  }

  lemma FirstOf(s: string, t: string)
    requires s != ""
    ensures s + t != "" && (s + t)[0] == s[0]
  {
  }

  lemma LiteralCore(f: Format, u: nat, base: int, hex: bool, zeros: nat, n: nat)
    requires 2 <= base <= 16 && (hex <==> f.alt && base == 16 && u != 0)
    requires !hex ==> (zeros > 0 <==>
      (f.alt && base == 8 && u != 0) || f.prec > |Digits(u, base)| || (f.zeroPad && f.width > |Digits(u, base)|))
    ensures var core := Core(u, base, hex, zeros) + Fill(' ', n);
      core != "" && Harmless(core[0]) && (Scanned(core, 0).0 == u <==> IsLiteral(f, u, base))
  {
    if hex {
      HexAsLiteral(u, zeros, n);
    } else {
      var c := if zeros > 0 || u == 0 then 8 else 10;
      CoreAsLiteral(u, base, zeros, n);
      MisreadIsRight(u, base, c);
      assert IsLiteral(f, u, base) <==> base == c || (u < c && u < base);
    }
    FirstOf(Core(u, base, hex, zeros), Fill(' ', n));
  }

  lemma HexAsLiteral(u: nat, zeros: nat, n: nat)
    ensures Scanned(Core(u, 16, true, zeros) + Fill(' ', n), 0).0 == u && Harmless(Core(u, 16, true, zeros)[0])
  {
    var s := Core(u, 16, true, zeros) + Fill(' ', n);
    CoreScanned(u, 16, true, zeros, n);
    assert s[0] == '0' && s[1] == 'x';
  }

  /** The flag # changes nothing about zero, and nothing in a base other than 8 and 16. */
  lemma AltSpares(f: Format, u: nat, base: int)
    requires 2 <= base <= 16 && (u == 0 || (base != 8 && base != 16))
    ensures UnsignedField(f.(alt := true), u, base) == UnsignedField(f.(alt := false), u, base)
  {
  }

  /** A number printed with zeros in front is taken as octal: 08 reads as 0. */
  lemma EightReadsZero()
    ensures UnsignedField(Format(2, -1, false, true, "", false), 8, 10) == "08"
    ensures ReadUnsigned("08", 0).0 == 0
  {
    PaddedEight();
    OctalEight();
  }

  lemma PaddedEight()
    ensures UnsignedField(Format(2, -1, false, true, "", false), 8, 10) == "08"
  {
    var f := Format(2, -1, false, true, "", false);
    assert Digits(8, 10) == "8" && Missing(f, "8") == 0 && Room(f, "", "", "8") == 1;
    assert Fill('0', 1) == "0" && Fill(' ', 0) == "";
    assert Field(f, "", "", "8") == "" + "" + "" + "0" + "8" + "";
  }

  lemma OctalEight()
    ensures ReadUnsigned("08", 0).0 == 0
  {
    assert SkipBlanks("08") == "08" && ChooseBase("08", 0) == (8, "08");
    RunOfEight();
    ValueSnoc("", '0', 8);
    assert "" + ['0'] == "08"[..1];
  }

  lemma RunOfEight()
    ensures DigitRun("08", 8) == 1
  {
    RunIs("08", 8, 1);
  }
}
