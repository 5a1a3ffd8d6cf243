/**
  Request padding and bin indexing of the dlmalloc heap, on 32-bit words
  (shared/malloc.c.h, "Size and alignment checks" and "Indexing").
 */
module HeapSizes {
  import opened Arith

  const MINSIZE: int := 16
  const NBINS: int := 96
  const NSMALLBINS: int := 32
  const MIN_LARGE_SIZE: int := 256
  const NFASTBINS: int := 10
  const PAGE: int := 4096
  const FASTBIN_CONSOLIDATION_THRESHOLD: int := 0x20000
  const WORD: int := 0x1_0000_0000

  /** Requests so large that padding them would wrap around zero. */
  predicate OutOfRange(req: nat) {
    req >= WORD - 2 * MINSIZE
  }

  /** Normalized chunk size: room for the request and one word of overhead, 8-aligned, minimal. */
  function Request2Size(req: nat): (nb: int)
    ensures nb % 8 == 0 && nb >= MINSIZE
    ensures nb >= req + 4
    ensures nb == MINSIZE || nb < req + 12
  {
    if req + 4 + 7 < MINSIZE then MINSIZE else (req + 4 + 7) / 8 * 8
  }

  /** The retry in sYSMALLOc asks for nb - 7 bytes and gets the same normalized size back. */
  lemma RetrySameSize(nb: int)
    requires nb % 8 == 0 && nb >= MINSIZE
    ensures Request2Size(nb - 7) == nb
  {
  }

  predicate InSmallbinRange(sz: int) {
    sz < MIN_LARGE_SIZE
  }

  function LargebinIndex(sz: int): int
    requires sz >= MIN_LARGE_SIZE
  {
    var x := sz / 256;
    if x >= 0x10000 then NBINS - 1
    else
      var m := Log2(x);
      NSMALLBINS + 4 * m + (sz / Pow2(m + 6)) % 4
  }

  function BinIndex(sz: int): int
    requires sz >= MINSIZE
  {
    if InSmallbinRange(sz) then sz / 8 else LargebinIndex(sz)
  }

  function FastbinIndex(sz: int): int {
    sz / 8 - 2
  }

  lemma Log2Below16(x: int)
    requires 1 <= x < 0x10000
    ensures Log2(x) <= 15
  {
    assert Pow2(16) == 0x10000 by {
      assert Pow2(4) == 16 && Pow2(8) == 256 && Pow2(12) == 4096;
    }
    if Log2(x) > 15 { Pow2Monotone(16, Log2(x)); }
  }

  lemma Pow2Plus6(m: nat)
    ensures Pow2(m + 6) == 64 * Pow2(m)
  {
    assert Pow2(m + 2) == 2 * Pow2(m + 1) == 4 * Pow2(m);
    assert Pow2(m + 4) == 2 * Pow2(m + 3) == 4 * Pow2(m + 2);
    assert Pow2(m + 6) == 2 * Pow2(m + 5) == 4 * Pow2(m + 4);
  }

  /** Within one power-of-two group the index counts quarter steps of the group. */
  lemma LargeGroup(sz: int)
    requires MIN_LARGE_SIZE <= sz < 256 * 0x10000
    ensures var m := Log2(sz / 256);
            && m <= 15
            && 4 <= sz / Pow2(m + 6) < 8
            && LargebinIndex(sz) == NSMALLBINS + 4 * m + sz / Pow2(m + 6) - 4
  {
    var m := Log2(sz / 256);
    Log2Below16(sz / 256);
    Pow2Plus6(m);
    GroupBounds(sz, Pow2(m));
    DivBounds(sz, Pow2(m + 6), 4, 8);
  }

  lemma GroupBounds(sz: int, p: int)
    requires p <= sz / 256 < 2 * p
    ensures 4 * (64 * p) <= sz < 8 * (64 * p)
  {
    QuotientBracket(sz, 256);
  }

  /** The bin index is monotone in the size, stays below NBINS and separates small from large. */
  lemma BinIndexMonotone(a: int, b: int)
    requires MINSIZE <= a <= b
    ensures 2 <= BinIndex(a) <= BinIndex(b) < NBINS
    ensures BinIndex(a) < NSMALLBINS <==> InSmallbinRange(a)
  {
    BinRange(a);
    BinRange(b);
    if !InSmallbinRange(a) && b < 256 * 0x10000 { LargeMonotone(a, b); }
  }

  lemma BinRange(a: int)
    requires a >= MINSIZE
    ensures if InSmallbinRange(a) then BinIndex(a) == a / 8 && 2 <= a / 8 < NSMALLBINS
            else if a < 256 * 0x10000 then NSMALLBINS <= BinIndex(a) < NBINS
            else BinIndex(a) == NBINS - 1
  {
    if !InSmallbinRange(a) && a < 256 * 0x10000 { LargeGroup(a); }
  }

  /** Large sizes of the groups below the last bin are in the order of their indices. */
  lemma LargeMonotone(a: int, b: int)
    requires MIN_LARGE_SIZE <= a <= b < 256 * 0x10000
    ensures LargebinIndex(a) <= LargebinIndex(b)
  {
    LargeGroup(a);
    LargeGroup(b);
    DivMonotone(a, b, 256);
    Log2Monotone(a / 256, b / 256);
    if Log2(a / 256) == Log2(b / 256) { DivMonotone(a, b, Pow2(Log2(a / 256) + 6)); }
  }

  /** A strictly later bin holds strictly larger chunks: the fact behind "the first chunk is big enough". */
  lemma LaterBinIsLarger(a: int, b: int)
    requires a >= MINSIZE && b >= MINSIZE && BinIndex(a) < BinIndex(b)
    ensures a < b
  {
    if b <= a { BinIndexMonotone(b, a); }
  }

  lemma SmallBinHoldsOneSize(a: int, b: int)
    requires a >= MINSIZE && b >= MINSIZE && a % 8 == 0 && b % 8 == 0
    requires BinIndex(a) == BinIndex(b) < NSMALLBINS
    ensures a == b
  {
    BinIndexMonotone(a, a);
    BinIndexMonotone(b, b);
  }

  /**
    The branch-free variant of largebin_index (used without the i386 asm) finds the same highest bit:
    its result m satisfies 2^m <= x < 2^(m+1) for every x that reaches it.
   */
  function BranchFreeLog2(x: bv32): bv32 {
    var n := ((x - 0x100) >> 16) & 8;
    var x1 := x << n;
    var m1 := ((x1 - 0x1000) >> 16) & 4;
    var n1 := n + m1;
    var x2 := x1 << m1;
    var m2 := ((x2 - 0x4000) >> 16) & 2;
    var n2 := n1 + m2;
    var x3 := (x2 << m2) >> 14;
    13 - n2 + (x3 & !(x3 >> 1))
  }

  lemma BranchFreeLog2IsHighestBit(x: bv32)
    requires 1 <= x < 0x10000
    ensures BranchFreeLog2(x) <= 15
    ensures (x >> BranchFreeLog2(x)) == 1
  {
  }
}
