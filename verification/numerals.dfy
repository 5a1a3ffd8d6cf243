/**
  Printing and reading numbers: the numeric part of _doprnt (shared/doprnt.c) and the scanners strtol (shared/strtol.c)
  and strtoul (shared/strtoul.c). Registers hold 32 bits.
 */
module Numerals {
  import opened Arith

  const WORD: int := 0x1_0000_0000

  // ---- digits and their value ----

  function DigitChar(d: int): (c: char)
    requires 0 <= d < 16
  {
    "0123456789abcdef"[d]
  }

  /** What a character counts for in a base, or -1. */
  function DigitValue(c: char, base: int): (d: int)
    ensures d == -1 || 0 <= d < base
  {
    if '0' <= c <= '9' && c as int - '0' as int < base then c as int - '0' as int
    else if 'a' <= c <= 'z' && c as int - 'a' as int + 10 < base then c as int - 'a' as int + 10
    else if 'A' <= c <= 'Z' && c as int - 'A' as int + 10 < base then c as int - 'A' as int + 10
    else -1
  }

  lemma DigitCharValue(d: int, base: int)
    requires 0 <= d < base <= 16
    ensures DigitValue(DigitChar(d), base) == d
    ensures DigitChar(d) != 'x' && DigitChar(d) != 'X' && DigitChar(d) != '-' && !IsSpace(DigitChar(d))
  {
  }

  /** The numeral of u, most significant digit first. */
  function Digits(u: nat, base: int): (s: string)
    requires 2 <= base <= 16
    ensures s != ""
    decreases u
  {
    if u < base then [DigitChar(u)]
    else
      QuotientSmaller(u, base);
      Digits(u / base, base) + [DigitChar(u % base)]
  }

  lemma QuotientSmaller(u: int, base: int)
    requires u >= 1 && base >= 2
    ensures 0 <= u / base && 2 * (u / base) <= u && u / base < u
    ensures 0 <= u % base < base
  {
    QuotientBracket(u, base);
    DivMonotone(0, u, base);
    MulOrder(2, base, u / base);
  }

  /** The value of a digit string, by Horner's rule. */
  function Value(s: string, base: int): int {
    if s == "" then 0 else Value(s[..|s| - 1], base) * base + DigitValue(s[|s| - 1], base)
  }

  lemma ValueSnoc(s: string, c: char, base: int)
    ensures Value(s + [c], base) == Value(s, base) * base + DigitValue(c, base)
  {
    assert (s + [c])[..|s|] == s;
  }

  predicate AllDigits(s: string, base: int) {
    forall i :: 0 <= i < |s| ==> DigitValue(s[i], base) >= 0
  }

  predicate Harmless(c: char) { c != 'x' && c != 'X' && c != '-' && !IsSpace(c) }

  predicate AllHarmless(s: string) { forall i :: 0 <= i < |s| ==> Harmless(s[i]) }

  /** The numeral of u denotes u. */
  lemma {:induction false} DigitsValue(u: nat, base: int)
    requires 2 <= base <= 16
    ensures Value(Digits(u, base), base) == u && AllDigits(Digits(u, base), base) && AllHarmless(Digits(u, base))
    decreases u
  {
    if u < base {
      AppendDigit("", u, base);
      assert "" + [DigitChar(u)] == [DigitChar(u)];
    } else {
      QuotientSmaller(u, base);
      DigitsValue(u / base, base);
      AppendDigit(Digits(u / base, base), u % base, base);
      Recompose(u, base);
    }
  }

  lemma AppendDigit(s: string, d: int, base: int)
    requires 0 <= d < base <= 16 && AllDigits(s, base) && AllHarmless(s)
    ensures AllDigits(s + [DigitChar(d)], base) && AllHarmless(s + [DigitChar(d)])
    ensures Value(s + [DigitChar(d)], base) == Value(s, base) * base + d
  {
    DigitCharValue(d, base);
    ValueSnoc(s, DigitChar(d), base);
  }

  lemma Recompose(u: int, base: int)
    requires base >= 1
    ensures (u / base) * base + u % base == u
  {
  }

  function Fill(c: char, n: int): (s: string)
    ensures |s| == if n > 0 then n else 0
    ensures forall i :: 0 <= i < |s| ==> s[i] == c
  {
    if n <= 0 then "" else seq(n, _ => c)
  }

  lemma FillSplit(c: char, m: nat, n: nat)
    ensures Fill(c, m) + Fill(c, n) == Fill(c, m + n)
  {
  }

  lemma {:induction false} LeadingZeros(n: nat, s: string, base: int)
    requires base >= 1
    ensures Value(Fill('0', n) + s, base) == Value(s, base)
    decreases n, |s|
  {
    var t := Fill('0', n) + s;
    if |s| > 0 {
      LeadingZeros(n, s[..|s| - 1], base);
      assert t == (Fill('0', n) + s[..|s| - 1]) + [s[|s| - 1]];
      ValueSnoc(Fill('0', n) + s[..|s| - 1], s[|s| - 1], base);
    } else if n > 0 {
      LeadingZeros(n - 1, s, base);
      assert t == (Fill('0', n - 1) + s) + ['0'];
      ValueSnoc(Fill('0', n - 1) + s, '0', base);
    }
  }

  // ---- the printer ----

  /** Width, precision and flags of a conversion; `plus` is the character shown for a number that is not negative. */
  datatype Format = Format(width: int, prec: int, ladjust: bool, zeroPad: bool, plus: string, alt: bool)

  predicate IsFormat(f: Format) { f.plus == "" || f.plus == "+" || f.plus == " " }

  function Prefix(u: int, base: int, alt: bool): string {
    if u != 0 && alt then (if base == 8 then "0" else if base == 16 then "0x" else "") else ""
  }

  function Max(a: int, b: int): int { if a >= b then a else b }

  /** Zeros that the precision adds and the characters of padding that the width still asks for. */
  function Missing(f: Format, digits: string): nat { Max(0, f.prec - |digits|) }

  function Room(f: Format, sign: string, prefix: string, digits: string): nat {
    Max(0, f.width - |sign| - |prefix| - Missing(f, digits) - |digits|)
  }

  /** The printed field: zero padding wins over left adjustment, and goes after sign and prefix. */
  function Field(f: Format, sign: string, prefix: string, digits: string): string {
    var room := Room(f, sign, prefix, digits);
    Fill(' ', if !f.zeroPad && !f.ladjust then room else 0)
    + sign + prefix
    + Fill('0', Missing(f, digits) + (if f.zeroPad then room else 0))
    + digits
    + Fill(' ', if !f.zeroPad && f.ladjust then room else 0)
  }

  /** The field is as wide as asked, and no wider than that or than its contents. */
  lemma FieldWidth(f: Format, sign: string, prefix: string, digits: string)
    requires digits != ""
    ensures |Field(f, sign, prefix, digits)| == Max(f.width, |sign| + |prefix| + Max(f.prec, |digits|))
  {
  }

  /** The flags '-' and '0' together: the zeros win and '-' has no effect, where the C standard has it the other way. */
  lemma ZerosBeatLeft(f: Format, sign: string, prefix: string, digits: string)
    requires f.zeroPad
    ensures Field(f.(ladjust := true), sign, prefix, digits) == Field(f.(ladjust := false), sign, prefix, digits)
  {
  }

  lemma LeftAdjustedZeros()
    ensures Field(Format(5, -1, true, true, "", false), "", "", "42") == "00042"
  {
    assert Fill('0', 3) == "000";
  }

  class Printer {
    var out: string

    constructor ()
      ensures out == ""
    {
      out := "";
    }

    method Put(s: string)
      modifies this
      ensures out == old(out) + s
    {
      out := out + s;
    }

    /** A loop that counts length down below zero and prints a character each time. */
    method Pad(c: char, length: int) returns (left: int)
      modifies this
      ensures out == old(out) + Fill(c, length)
      ensures left < 0
    {
      left := length - 1;
      ghost var done: nat := 0;
      while left >= 0
        invariant left + 1 + done == length && (length > 0 ==> left >= -1) && (length <= 0 ==> done == 0)
        invariant out == old(out) + Fill(c, done)
      {
        FillSplit(c, done, 1);
        assert Fill(c, 1) == [c];
        out := out + [c];
        left := left - 1;
        done := done + 1;
      }
    }

    method PutDigit(buf: array<char>, p: nat, c: char)
      requires p < buf.Length
      modifies buf
      ensures buf[p..] == [c] + old(buf[p + 1..])
    {
      buf[p] := c;
    }

    /** The digits, built backwards in a buffer of 32: in no base of at least two are there more. */
    method BuildDigits(u: int, base: int, buf: array<char>) returns (p: int)
      requires 0 <= u < WORD && 2 <= base <= 16 && buf.Length == 32
      modifies buf
      ensures -1 <= p < 31 && buf[p + 1..] == Digits(u, base)
    {
      PowerOfWord();
      p := 31;
      var rest := u;
      while true
        invariant 0 <= p <= 31 && 0 <= rest < Pow2(p + 1) && (rest != 0 || p == 31)
        invariant Digits(rest, base) + buf[p + 1..] == Digits(u, base)
        decreases p
      {
        ghost var tail := buf[p + 1..];
        DigitsStep(rest, base, tail);
        FewerBits(rest, base, p);
        var digit, next := rest % base, rest / base;
        PutDigit(buf, p, DigitChar(digit));
        rest, p := next, p - 1;
        if rest == 0 { break; }
      }
    }

    method PadIf(asked: bool, c: char, length: int) returns (left: int)
      modifies this
      ensures out == old(out) + Fill(c, if asked then length else 0)
      ensures if asked then left < 0 else left == length
    {
      left := length;
      if asked {
        left := Pad(c, length);
      }
    }

    /** The field around digits already built; `prec` and `length` are what precision and width leave to fill. */
    method Emit(f: Format, sign: string, prefix: string, digits: string, prec: int, length: int)
      requires prec == f.prec - |digits|
      requires Max(0, length) == Room(f, sign, prefix, digits)
      modifies this
      ensures out == old(out) + Field(f, sign, prefix, digits)
    {
      ghost var start := out;
      var left := PadIf(!f.zeroPad && !f.ladjust, ' ', length);
      Put(sign);
      Put(prefix);
      var _ := Pad('0', prec);
      ghost var beforeZeros := left;
      left := PadIf(f.zeroPad, '0', left);
      Put(digits);
      ghost var beforeTail := left;
      left := PadIf(f.ladjust, ' ', left);
      ghost var blanks := Fill(' ', if !f.zeroPad && !f.ladjust then length else 0);
      ghost var missing := Fill('0', prec);
      ghost var zeros := Fill('0', if f.zeroPad then beforeZeros else 0);
      ghost var tail := Fill(' ', if f.ladjust then beforeTail else 0);
      Clamp(length, Room(f, sign, prefix, digits));
      FieldPieces(f, sign, prefix, digits, blanks, missing, zeros, tail);
      JoinPieces(start, blanks, sign, prefix, missing, zeros, digits, tail);
    }

    /** print_num: everything from the digits to the trailing blanks. */
    method PrintNumber(f: Format, u: int, base: int, sign: string)
      requires 0 <= u < WORD && 2 <= base <= 16
      modifies this
      ensures out == old(out) + Field(f, sign, Prefix(u, base, f.alt), Digits(u, base))
    {
      var buf := new char[32];
      var p := BuildDigits(u, base, buf);
      var prefix := Prefix(u, base, f.alt);
      var prec := f.prec - (31 - p);
      var length := f.width - (31 - p) - |sign| - |prefix|;
      if prec > 0 {
        length := length - prec;
      }
      Emit(f, sign, prefix, buf[p + 1..], prec, length);
    }

    /** print_signed: a negative number is shown as a minus and its magnitude, taken in 32 bits. */
    method PrintSigned(f: Format, n: int, base: int)
      requires IsLong(n) && 2 <= base <= 16
      modifies this
      ensures out == old(out) + SignedField(f, n, base)
    {
      if n >= 0 {
        PrintNumber(f, n, base, f.plus);
      } else {
        var u := Magnitude(n);
        PrintNumber(f, u, base, "-");
      }
    }

    /** print_unsigned. */
    method PrintUnsigned(f: Format, u: int, base: int)
      requires 0 <= u < WORD && 2 <= base <= 16
      modifies this
      ensures out == old(out) + UnsignedField(f, u, base)
    {
      PrintNumber(f, u, base, "");
    }
  }

  /** Negation in 32 bits, read as an unsigned number: exact even for the most negative one. */
  function Magnitude(n: int): (u: int)
    requires IsLong(n) && n < 0
    ensures u == -n && 0 <= u < WORD
  {
    (-n) % WORD
  }

  predicate IsLong(n: int) { -0x8000_0000 <= n < 0x8000_0000 }

  function SignedField(f: Format, n: int, base: int): string
    requires 2 <= base <= 16
  {
    if n >= 0 then Field(f, f.plus, Prefix(n, base, f.alt), Digits(n, base))
    else Field(f, "-", Prefix(-n, base, f.alt), Digits(-n, base))
  }

  function UnsignedField(f: Format, u: nat, base: int): string
    requires 2 <= base <= 16
  {
    Field(f, "", Prefix(u, base, f.alt), Digits(u, base))
  }

  lemma Clamp(length: int, room: int)
    requires Max(0, length) == room
    ensures Fill(' ', length) == Fill(' ', room) && Fill('0', length) == Fill('0', room)
  {
  }

  lemma FieldPieces(f: Format, sign: string, prefix: string, digits: string, blanks: string, missing: string, zeros: string, tail: string)
    requires blanks == if !f.zeroPad && !f.ladjust then Fill(' ', Room(f, sign, prefix, digits)) else ""
    requires missing == Fill('0', f.prec - |digits|)
    requires zeros == if f.zeroPad then Fill('0', Room(f, sign, prefix, digits)) else ""
    requires tail == if !f.zeroPad && f.ladjust then Fill(' ', Room(f, sign, prefix, digits)) else ""
    ensures Field(f, sign, prefix, digits) == blanks + sign + prefix + (missing + zeros) + digits + tail
  {
    FillSplit('0', Missing(f, digits), if f.zeroPad then Room(f, sign, prefix, digits) else 0);
    assert missing == Fill('0', Missing(f, digits));
    assert zeros == Fill('0', if f.zeroPad then Room(f, sign, prefix, digits) else 0);
  }

  lemma JoinPieces(o: string, a: string, b: string, c: string, d: string, e: string, f: string, g: string)
    ensures o + a + b + c + d + e + f + g == o + (a + b + c + (d + e) + f + g)
  {
  }

  lemma PowerOfWord()
    ensures Pow2(32) == WORD
  {
    assert Pow2(8) == 0x100 && Pow2(16) == 0x1_0000 && Pow2(24) == 0x100_0000;
  }

  lemma FewerBits(rest: nat, base: int, p: nat)
    requires 2 <= base && rest < Pow2(p + 1)
    ensures 0 <= rest / base < Pow2(p) && (p == 0 ==> rest / base == 0)
  {
    if rest > 0 { QuotientSmaller(rest, base); } else { DivBounds(rest, base, 0, 1); }
  }

  lemma DigitsStep(rest: nat, base: int, tail: string)
    requires 2 <= base <= 16
    ensures 0 <= rest % base < 16
    ensures rest / base == 0 ==> Digits(rest, base) + tail == [DigitChar(rest % base)] + tail
    ensures rest / base > 0 ==> Digits(rest, base) + tail == Digits(rest / base, base) + ([DigitChar(rest % base)] + tail)
  {
    LastDigit(rest, base);
    if rest >= base {
      var front, d := Digits(rest / base, base), [DigitChar(rest % base)];
      assert Digits(rest, base) == front + d;
      assert (front + d) + tail == front + (d + tail);
    }
  }

  lemma LastDigit(u: nat, base: int)
    requires 2 <= base <= 16
    ensures 0 <= u % base < base && u / base >= 0
    ensures u < base <==> u / base == 0
    ensures u < base ==> u % base == u
  {
    QuotientBracket(u, base);
    if u >= base { DivMonotone(base, u, base); } else { DivBounds(u, base, 0, 1); }
  }

  // ---- spaces ----

  predicate IsSpace(c: char) {
    c == ' ' || c == 12 as char || c == '\n' || c == '\r' || c == '\t' || c == 11 as char
  }

  /** The six characters that count as space: tab, line feed, vertical tab, form feed, carriage return, blank. */
  lemma SpaceCodes(c: char)
    ensures IsSpace(c) <==> 9 <= c as int <= 13 || c as int == 32
  {
  }

  /** The other case of a letter. */
  function OtherCase(c: char): char {
    if 'a' <= c <= 'z' then (c as int - 32) as char else if 'A' <= c <= 'Z' then (c as int + 32) as char else c
  }

  /** Upper and lower case letters count for the same, in every base. */
  lemma CaseOfDigit(c: char, base: int)
    ensures DigitValue(OtherCase(c), base) == DigitValue(c, base)
  {
  }

  // ---- the scanners ----

  function SkipBlanks(s: string): string {
    if s != "" && IsSpace(s[0]) then SkipBlanks(s[1..]) else s
  }

  predicate HexPrefixed(s: string) {
    |s| >= 2 && s[0] == '0' && (s[1] == 'x' || s[1] == 'X')
  }

  /** The base in effect and what is left once a 0x prefix is dropped. */
  function ChooseBase(s: string, base: int): (int, string) {
    if (base == 16 || base == 0) && HexPrefixed(s) then (16, s[2..])
    else if base == 0 then (if s != "" && s[0] == '0' then 8 else 10, s)
    else (base, s)
  }

  /** How many characters at the front are digits. */
  function DigitRun(s: string, base: int): (n: nat)
    ensures n <= |s| && AllDigits(s[..n], base) && (n < |s| ==> DigitValue(s[n], base) < 0)
  {
    if s == "" || DigitValue(s[0], base) < 0 then 0
    else
      var n := DigitRun(s[1..], base) + 1;
      assert s[..n] == [s[0]] + s[1..][..n - 1];
      n
  }

  /** The number that the digits at the front denote, and the rest of the text. */
  function Scanned(s: string, base: int): (int, string) {
    var (b, t) := ChooseBase(s, base);
    var n := DigitRun(t, b);
    (Value(t[..n], b), t[n..])
  }

  /** A 32-bit register read as a signed number. */
  function Signed(x: int): int { (x + 0x8000_0000) % WORD - 0x8000_0000 }

  /** What strtol means: value and rest. */
  function ReadLong(s: string, base: int): (int, string) {
    var t := SkipBlanks(s);
    var neg := t != "" && t[0] == '-';
    var (v, rest) := Scanned(if neg then t[1..] else t, base);
    (Signed(if neg then -v else v), rest)
  }

  /** What strtoul means. */
  function ReadUnsigned(s: string, base: int): (int, string) {
    var (v, rest) := Scanned(SkipBlanks(s), base);
    (v % WORD, rest)
  }

  lemma ResidueStep(v: int, b: int, d: int)
    ensures ((v % WORD) * b + d) % WORD == (v * b + d) % WORD
  {
    var k := v / WORD;
    var r := v % WORD;
    assert v * b == (WORD * k + r) * b == WORD * (k * b) + r * b;
    Residue(r * b + d, v * b + d, k * b);
  }

  lemma Residue(a: int, whole: int, k: int)
    requires whole == a + WORD * k
    ensures a % WORD == whole % WORD
  {
  }

  /** The accumulating loop: a 32-bit register, and the position after the last digit. */
  method ScanDigits(s: string, i: nat, base: int) returns (v: int, end: nat)
    requires i <= |s|
    ensures end == i + DigitRun(s[i..], base) && end <= |s|
    ensures v == Value(s[i..end], base) % WORD
  {
    v, end := 0, i;
    ghost var n := DigitRun(s[i..], base);
    while end < |s| && DigitValue(s[end], base) >= 0
      invariant i <= end <= i + n
      invariant v == Value(s[i..end], base) % WORD
    {
      RunContinues(s, i, end, base);
      ScanStep(s, i, end, base);
      v := (v * base + DigitValue(s[end], base)) % WORD;
      end := end + 1;
    }
  }

  lemma RunContinues(s: string, i: nat, end: nat, base: int)
    requires i <= end < |s| && DigitValue(s[end], base) >= 0 && end <= i + DigitRun(s[i..], base)
    ensures end < i + DigitRun(s[i..], base)
  {
    assert s[i..][end - i] == s[end];
  }

  lemma ScanStep(s: string, i: nat, end: nat, base: int)
    requires i <= end < |s|
    ensures Value(s[i..end + 1], base) % WORD == (Value(s[i..end], base) % WORD * base + DigitValue(s[end], base)) % WORD
  {
    var sofar, c := s[i..end], s[end];
    assert s[i..end + 1] == sofar + [c];
    ValueSnoc(sofar, c, base);
    ResidueStep(Value(sofar, base), base, DigitValue(c, base));
  }

  method SkipSpaces(s: string) returns (i: nat)
    ensures i <= |s| && s[i..] == SkipBlanks(s)
  {
    i := 0;
    assert s[0..] == s;
    while i < |s| && IsSpace(s[i])
      invariant i <= |s| && SkipBlanks(s[i..]) == SkipBlanks(s)
    {
      assert s[i..][0] == s[i] && s[i..][1..] == s[i + 1..];
      i := i + 1;
    }
    assert i < |s| ==> s[i..][0] == s[i];
  }

  method PickBase(s: string, i: nat, base: int) returns (p: nat, b: int)
    requires i <= |s|
    ensures p <= |s| && ChooseBase(s[i..], base) == (b, s[p..])
  {
    p, b := i, base;
    if (base == 16 || base == 0) && p + 1 < |s| && s[p] == '0' && (s[p + 1] == 'x' || s[p + 1] == 'X') {
      p, b := p + 2, 16;
    }
    if b == 0 {
      b := if p < |s| && s[p] == '0' then 8 else 10;
    }
    ChosenAt(s, i, base, p, b);
  }

  /** The part that both scanners share: an optional 0x, the base, the digits. */
  method ScanNumber(s: string, i: nat, base: int) returns (v: int, end: nat)
    requires i <= |s|
    ensures end <= |s| && s[end..] == Scanned(s[i..], base).1
    ensures v == Scanned(s[i..], base).0 % WORD
  {
    var p, b := PickBase(s, i, base);
    v, end := ScanDigits(s, p, b);
    assert s[p..][..end - p] == s[p..end];
    assert s[p..][end - p..] == s[end..];
  }

  lemma ChosenAt(s: string, i: nat, base: int, p: nat, b: int)
    requires i <= |s|
    requires HexPrefixed(s[i..]) <==> i + 1 < |s| && s[i] == '0' && (s[i + 1] == 'x' || s[i + 1] == 'X')
    requires p == if (base == 16 || base == 0) && HexPrefixed(s[i..]) then i + 2 else i
    requires b == if p == i + 2 then 16 else if base != 0 then base else if p < |s| && s[p] == '0' then 8 else 10
    ensures p <= |s| && ChooseBase(s[i..], base) == (b, s[p..])
  {
    if p == i + 2 { assert s[i..][2..] == s[p..]; }
    assert i < |s| ==> s[i..][0] == s[i];
  }

  /** strtol. A leading plus sign is looked at but not skipped. */
  method Strtol(s: string, base: int) returns (v: int, end: nat)
    ensures end <= |s| && (v, s[end..]) == ReadLong(s, base)
  {
    var i := SkipSpaces(s);
    var neg := i < |s| && s[i] == '-';
    ghost var t := s[i..];
    if neg {
      assert t[1..] == s[i + 1..];
      i := i + 1;
    }
    v, end := ScanNumber(s, i, base);
    ghost var value := Scanned(s[i..], base).0;
    SignedResidue(value);
    v := Signed(if neg then -v else v);
  }

  lemma SignedResidue(x: int)
    ensures Signed(x % WORD) == Signed(x) && Signed(-(x % WORD)) == Signed(-x)
  {
  }

  /** strtoul. */
  method Strtoul(s: string, base: int) returns (v: int, end: nat)
    ensures end <= |s| && (v, s[end..]) == ReadUnsigned(s, base)
  {
    var i := SkipSpaces(s);
    v, end := ScanNumber(s, i, base);
  }

  /** Any mixture of the six space characters in front is skipped. */
  lemma {:induction false} SpacesSkipped(w: string, s: string)
    requires forall k :: 0 <= k < |w| ==> IsSpace(w[k])
    ensures SkipBlanks(w + s) == SkipBlanks(s)
  {
    if w == "" {
      assert w + s == s;
    } else {
      assert (w + s)[0] == w[0] && (w + s)[1..] == w[1..] + s;
      SpacesSkipped(w[1..], s);
    }
  }

  /** The same letters in any case: digits that agree up to case have the same value and end at the same place. */
  lemma {:induction false} CaseOfNumeral(s: string, t: string, base: int)
    requires |t| == |s| && forall k :: 0 <= k < |s| ==> t[k] == s[k] || t[k] == OtherCase(s[k])
    ensures Value(t, base) == Value(s, base) && DigitRun(t, base) == DigitRun(s, base)
    decreases |s|
  {
    if s != "" {
      var n := |s| - 1;
      CaseOfDigit(s[n], base);
      CaseOfDigit(s[0], base);
      CaseOfNumeral(s[..n], t[..n], base);
      CaseOfNumeral(s[1..], t[1..], base);
    }
  }

  // ---- reading back what was printed ----

  lemma {:induction false} BlanksSkipped(n: nat, s: string)
    ensures SkipBlanks(Fill(' ', n) + s) == SkipBlanks(s)
  {
    if n > 0 {
      BlanksSkipped(n - 1, s);
      assert (Fill(' ', n) + s)[1..] == Fill(' ', n - 1) + s;
    } else {
      assert Fill(' ', 0) + s == s;
    }
  }

  /** Digits followed by blanks end where the blanks begin. */
  lemma RunStopsAtBlanks(ds: string, n: nat, base: int)
    requires AllDigits(ds, base)
    ensures DigitRun(ds + Fill(' ', n), base) == |ds|
    ensures (ds + Fill(' ', n))[..|ds|] == ds && (ds + Fill(' ', n))[|ds|..] == Fill(' ', n)
  {
    var s := ds + Fill(' ', n);
    var k := DigitRun(s, base);
    assert forall i :: 0 <= i < |ds| ==> s[i] == ds[i];
    if n > 0 {
      assert s[|ds|] == ' ' && DigitValue(' ', base) == -1;
      DigitsWithin(s, k, |ds|, base);
    }
  }

  lemma DigitsWithin(s: string, k: nat, i: nat, base: int)
    requires k <= |s| && AllDigits(s[..k], base) && i < |s|
    ensures i < k ==> DigitValue(s[i], base) >= 0
  {
    if i < k { assert s[..k][i] == s[i]; }
  }

  lemma ScannedPlain(ds: string, n: nat, base: int)
    requires 2 <= base <= 16 && ds != "" && AllDigits(ds, base) && AllHarmless(ds)
    ensures Scanned(ds + Fill(' ', n), base) == (Value(ds, base), Fill(' ', n))
  {
    NotHexPrefixed(ds, n);
    RunStopsAtBlanks(ds, n, base);
  }

  lemma ScannedHex(ds: string, n: nat)
    requires AllDigits(ds, 16)
    ensures Scanned("0x" + ds + Fill(' ', n), 16) == (Value(ds, 16), Fill(' ', n))
  {
    var s := "0x" + ds + Fill(' ', n);
    assert s[2..] == ds + Fill(' ', n);
    assert s[0] == '0' && s[1] == 'x';
    RunStopsAtBlanks(ds, n, 16);
  }

  /** What stands between the sign and the trailing blanks. */
  function Core(u: nat, base: int, hex: bool, zeros: nat): (s: string)
    requires 2 <= base <= 16
    ensures s != ""
  {
    (if hex then "0x" else "") + (Fill('0', zeros) + Digits(u, base))
  }

  /** Zeros and the numeral of u, possibly after a 0x in base 16: scanned, they give u. */
  lemma CoreScanned(u: nat, base: int, hex: bool, zeros: nat, n: nat)
    requires 2 <= base <= 16 && (hex ==> base == 16)
    ensures Scanned(Core(u, base, hex, zeros) + Fill(' ', n), base) == (u, Fill(' ', n))
    ensures Harmless(Core(u, base, hex, zeros)[0])
  {
    var ds := Fill('0', zeros) + Digits(u, base);
    DigitsValue(u, base);
    ZerosHarmless(zeros, Digits(u, base), base);
    LeadingZeros(zeros, Digits(u, base), base);
    if hex {
      ScannedHex(ds, n);
    } else {
      assert Core(u, base, hex, zeros) == ds;
      ScannedPlain(ds, n, base);
    }
  }

  lemma ZerosHarmless(zeros: nat, ds: string, base: int)
    requires AllDigits(ds, base) && AllHarmless(ds) && base >= 2
    ensures AllDigits(Fill('0', zeros) + ds, base) && AllHarmless(Fill('0', zeros) + ds)
  {
    assert DigitValue('0', base) == 0;
  }

  lemma NotHexPrefixed(ds: string, n: nat)
    requires AllHarmless(ds) && ds != ""
    ensures !HexPrefixed(ds + Fill(' ', n))
  {
    var t := ds + Fill(' ', n);
    assert |ds| > 1 ==> t[1] == ds[1] && Harmless(ds[1]);
  }

  /** The parts of a field as a scanner meets them. */
  lemma FieldShape(f: Format, sign: string, u: nat, base: int) returns (lead: nat, hex: bool, zeros: nat, n: nat)
    requires 2 <= base <= 16
    ensures hex <==> f.alt && base == 16 && u != 0
    ensures sign == "" && !hex ==> (zeros > 0 <==>
      (f.alt && base == 8 && u != 0) || f.prec > |Digits(u, base)| || (f.zeroPad && f.width > |Digits(u, base)|))
    ensures Field(f, sign, Prefix(u, base, f.alt), Digits(u, base))
         == Fill(' ', lead) + (sign + (Core(u, base, hex, zeros) + Fill(' ', n)))
  {
    var prefix, digits := Prefix(u, base, f.alt), Digits(u, base);
    var room := Room(f, sign, prefix, digits);
    lead := if !f.zeroPad && !f.ladjust then room else 0;
    n := if !f.zeroPad && f.ladjust then room else 0;
    var z := Missing(f, digits) + (if f.zeroPad then room else 0);
    hex := prefix == "0x";
    zeros := if prefix == "0" then z + 1 else z;
    PrefixZeros(prefix, z, hex, zeros);
    var front := (if hex then "0x" else "") + Fill('0', zeros);
    CoreGroups(u, base, hex, zeros, front, digits);
    Regroup(Fill(' ', lead), sign, prefix, Fill('0', z), digits, Fill(' ', n), front);
  }

  lemma PrefixZeros(prefix: string, z: nat, hex: bool, zeros: nat)
    requires (prefix == "" || prefix == "0" || prefix == "0x") && hex == (prefix == "0x")
    requires zeros == if prefix == "0" then z + 1 else z
    ensures prefix + Fill('0', z) == (if hex then "0x" else "") + Fill('0', zeros)
  {
  }

  lemma CoreGroups(u: nat, base: int, hex: bool, zeros: nat, front: string, digits: string)
    requires 2 <= base <= 16 && digits == Digits(u, base) && front == (if hex then "0x" else "") + Fill('0', zeros)
    ensures front + digits == Core(u, base, hex, zeros)
  {
    var h, z := if hex then "0x" else "", Fill('0', zeros);
    assert (h + z) + digits == h + (z + digits);
  }

  lemma Regroup(a: string, b: string, c: string, d: string, e: string, f: string, cd: string)
    requires cd == c + d
    ensures a + b + c + d + e + f == a + (b + ((cd + e) + f))
  {
  }

  /** The same with the scan of the core done. */
  lemma FieldParts(f: Format, sign: string, u: nat, base: int, text: string) returns (lead: nat, core: string, k: nat)
    requires 2 <= base <= 16 && text == Field(f, sign, Prefix(u, base, f.alt), Digits(u, base))
    ensures text == Fill(' ', lead) + (sign + core)
    ensures core != "" && Harmless(core[0]) && Scanned(core, base) == (u, Fill(' ', k))
  {
    var hex, zeros;
    lead, hex, zeros, k := FieldShape(f, sign, u, base);
    CoreScanned(u, base, hex, zeros, k);
    core := Core(u, base, hex, zeros) + Fill(' ', k);
    assert core[0] == Core(u, base, hex, zeros)[0];
  }

  /** Text that starts with a character that is no space is left alone; a sign that is a space is skipped with the rest. */
  lemma SkipToCore(lead: nat, sign: string, core: string)
    requires core != "" && Harmless(core[0]) && (sign == "" || sign == "+" || sign == "-" || sign == " ")
    ensures SkipBlanks(Fill(' ', lead) + (sign + core)) == if sign == " " then core else sign + core
  {
    BlanksSkipped(lead, sign + core);
    if sign == "" {
      assert sign + core == core;
    } else {
      assert (sign + core)[0] == sign[0] && (sign + core)[1..] == core;
    }
  }

  /** A plus sign is no digit, so nothing is read. */
  lemma PlusReadsZero(core: string, base: int)
    requires 2 <= base <= 16
    ensures Scanned("+" + core, base) == (0, "+" + core)
  {
    var s := "+" + core;
    assert s[0] == '+' && DigitValue('+', base) == -1;
    assert s[..0] == "";
  }

  /** How strtol takes a text apart: no sign, a minus, a plus that it does not skip. */
  lemma LongOfPlain(text: string, core: string, base: int)
    requires SkipBlanks(text) == core && core != "" && Harmless(core[0])
    ensures ReadLong(text, base) == (Signed(Scanned(core, base).0), Scanned(core, base).1)
  {
  }

  lemma LongOfMinus(text: string, core: string, base: int)
    requires SkipBlanks(text) == "-" + core
    ensures ReadLong(text, base) == (Signed(-Scanned(core, base).0), Scanned(core, base).1)
  {
    var t := "-" + core;
    assert t[0] == '-' && t[1..] == core;
  }

  lemma LongOfPlus(text: string, core: string, base: int)
    requires SkipBlanks(text) == "+" + core && 2 <= base <= 16
    ensures ReadLong(text, base) == (0, "+" + core)
  {
    var t := "+" + core;
    assert t[0] == '+';
    PlusReadsZero(core, base);
    SignedIdentity(0);
  }

  /** The same for a printed number, given what the scan of its core yields. */
  lemma LongOfCore(lead: nat, sign: string, core: string, text: string, n: int, base: int)
    requires core != "" && Harmless(core[0]) && (sign == "" || sign == "+" || sign == "-" || sign == " ")
    requires text == Fill(' ', lead) + (sign + core) && 2 <= base <= 16 && IsLong(n)
    requires Scanned(core, base).0 == (if n >= 0 then n else -n) && (sign == "-" <==> n < 0)
    ensures ReadLong(text, base) == if sign == "+" then (0, "+" + core) else (n, Scanned(core, base).1)
  {
    SkipToCore(lead, sign, core);
    SignedIdentity(n);
    if sign == "+" {
      LongOfPlus(text, core, base);
    } else if sign == "-" {
      LongOfMinus(text, core, base);
    } else {
      assert sign == "" ==> sign + core == core;
      LongOfPlain(text, core, base);
    }
  }

  predicate AllBlank(s: string) { forall i :: 0 <= i < |s| ==> s[i] == ' ' }

  lemma UnsignedOfCore(lead: nat, core: string, text: string, u: nat, k: nat, base: int)
    requires core != "" && Harmless(core[0]) && text == Fill(' ', lead) + ("" + core)
    requires u < WORD && Scanned(core, base) == (u, Fill(' ', k))
    ensures ReadUnsigned(text, base).0 == u && AllBlank(ReadUnsigned(text, base).1)
  {
    SkipToCore(lead, "", core);
    assert "" + core == core;
  }

  lemma SignedIdentity(n: int)
    requires IsLong(n)
    ensures Signed(n) == n
  {
  }

  /**
    Every long comes back, in its own base, from the field it was printed in, with any width, precision and flags,
    unless it is positive and was printed with a plus sign, which strtol does not skip.
   */
  lemma SignedReadBack(f: Format, n: int, base: int)
    requires IsLong(n) && 2 <= base <= 16 && IsFormat(f)
    ensures ReadLong(SignedField(f, n, base), base).0 == n <==> !(f.plus == "+" && n > 0)
    ensures AllBlank(ReadLong(SignedField(f, n, base), base).1) <==> !(f.plus == "+" && n >= 0)
  {
    var text := SignedField(f, n, base);
    var u: nat := if n >= 0 then n else -n;
    var sign := if n >= 0 then f.plus else "-";
    var lead, core, k := FieldParts(f, sign, u, base, text);
    assert AllBlank(Fill(' ', k));
    assert ("+" + core)[0] == '+';
    LongOfCore(lead, sign, core, text, n, base);
  }

  /** Every unsigned long comes back, and the scanner stops at the trailing blanks. */
  lemma UnsignedReadBack(f: Format, u: nat, base: int)
    requires u < WORD && 2 <= base <= 16
    ensures ReadUnsigned(UnsignedField(f, u, base), base).0 == u
    ensures AllBlank(ReadUnsigned(UnsignedField(f, u, base), base).1)
  {
    var text := UnsignedField(f, u, base);
    var lead, core, k := FieldParts(f, "", u, base, text);
    UnsignedOfCore(lead, core, text, u, k, base);
  }

  /** The smallest failure: one, printed with a plus sign, is read as zero. */
  lemma PlusOneReadsZero()
    ensures SignedField(Format(0, -1, false, false, "+", false), 1, 10) == "+1"
    ensures ReadLong("+1", 10).0 == 0
  {
    PlusReadsZero("1", 10);
    assert "+" + "1" == "+1";
    assert SkipBlanks("+1") == "+1";
  }

  /** The numbers printed are as wide as their formats ask. */
  lemma SignedWidth(f: Format, n: int, base: int)
    requires 2 <= base <= 16
    ensures |SignedField(f, n, base)|
         == Max(f.width, (if n >= 0 then |f.plus| else 1) + |Prefix(n, base, f.alt)| + Max(f.prec, |Digits(if n >= 0 then n else -n, base)|))
  {
    FieldWidth(f, if n >= 0 then f.plus else "-", Prefix(n, base, f.alt), Digits(if n >= 0 then n else -n, base));
  }
}
