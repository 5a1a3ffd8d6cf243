/**
  The bitmap of non-empty bins (shared/malloc.c.h, "Binmap"): three 32-bit words and a trailing
  zero word, one bit per bin.
 */
module BinMap {
  import opened Arith
  import opened HeapSizes

  const BINMAPSIZE: int := 3

  predicate TestBit(w: nat, k: nat) {
    if k == 0 then w % 2 == 1 else TestBit(w / 2, k - 1)
  }

  function SetBit(w: nat, k: nat): nat {
    if k == 0 then w - w % 2 + 1 else 2 * SetBit(w / 2, k - 1) + w % 2
  }

  function ClearBit(w: nat, k: nat): nat {
    if k == 0 then w - w % 2 else 2 * ClearBit(w / 2, k - 1) + w % 2
  }

  lemma Halve(x: nat, r: nat)
    requires r < 2
    ensures (2 * x + r) / 2 == x && (2 * x + r) % 2 == r
  {
  }

  lemma {:induction false} TestSetBit(w: nat, k: nat, j: nat)
    ensures TestBit(SetBit(w, k), j) <==> j == k || TestBit(w, j)
  {
    Halve(w / 2, w % 2);
    if k == 0 {
      Halve(w / 2, 1);
    } else {
      Halve(SetBit(w / 2, k - 1), w % 2);
      if j > 0 { TestSetBit(w / 2, k - 1, j - 1); }
    }
  }

  lemma {:induction false} TestClearBit(w: nat, k: nat, j: nat)
    ensures TestBit(ClearBit(w, k), j) <==> j != k && TestBit(w, j)
  {
    Halve(w / 2, w % 2);
    if k == 0 {
      Halve(w / 2, 0);
    } else {
      Halve(ClearBit(w / 2, k - 1), w % 2);
      if j > 0 { TestClearBit(w / 2, k - 1, j - 1); }
    }
  }

  lemma {:induction false} UpdateBounds(w: nat, k: nat, n: nat)
    requires k < n && w < Pow2(n)
    ensures SetBit(w, k) < Pow2(n) && ClearBit(w, k) <= w
  {
    if k > 0 { UpdateBounds(w / 2, k - 1, n - 1); }
  }

  /** `bit > map`: no bit at or above position k is set. */
  lemma {:induction false} NoBitAbove(w: nat, k: nat, j: nat)
    requires w < Pow2(k) && k <= j
    ensures !TestBit(w, j)
  {
    if k > 0 {
      NoBitAbove(w / 2, k - 1, j - 1);
    } else if j > 0 {
      NoBitAbove(0, 0, j - 1);
    }
  }

  /** `bit <= map`: some bit at or above position k is set, so the advance loop stops inside the word. */
  lemma {:induction false} SomeBitAbove(w: nat, k: nat, n: nat) returns (j: nat)
    requires Pow2(k) <= w < Pow2(n)
    ensures k <= j < n && TestBit(w, j)
    decreases n
  {
    if n == 0 { assert false; }
    if k > 0 {
      j := SomeBitAbove(w / 2, k - 1, n - 1);
      j := j + 1;
    } else if w == 1 {
      j := 0;
    } else {
      j := SomeBitAbove(w / 2, 0, n - 1);
      j := j + 1;
    }
  }

  ghost predicate ValidMap(m: seq<nat>) {
    && |m| == BINMAPSIZE + 1
    && m[BINMAPSIZE] == 0
    && forall b :: 0 <= b < |m| ==> m[b] < WORD
  }

  predicate Marked(m: seq<nat>, i: nat)
    requires |m| == BINMAPSIZE + 1 && i < NBINS
  {
    TestBit(m[i / 32], i % 32)
  }

  lemma Pow2Word()
    ensures Pow2(32) == WORD
  {
    assert Pow2(4) == 16 && Pow2(8) == 256 && Pow2(12) == 0x1000 && Pow2(16) == 0x10000;
    assert Pow2(20) == 0x100000 && Pow2(24) == 0x1000000 && Pow2(28) == 0x10000000;
  }

  /** mark_bin: sets exactly the bit of bin i. */
  function Mark(m: seq<nat>, i: nat): (r: seq<nat>)
    requires ValidMap(m) && i < NBINS
  {
    m[i / 32 := SetBit(m[i / 32], i % 32)]
  }

  lemma MarkCorrect(m: seq<nat>, i: nat)
    requires ValidMap(m) && i < NBINS
    ensures ValidMap(Mark(m, i))
    ensures forall j: nat :: j < NBINS ==> (Marked(Mark(m, i), j) <==> j == i || Marked(m, j))
  {
    Pow2Word();
    UpdateBounds(m[i / 32], i % 32, 32);
    forall j: nat | j < NBINS
      ensures Marked(Mark(m, i), j) <==> j == i || Marked(m, j)
    {
      TestSetBit(m[i / 32], i % 32, j % 32);
    }
  }

  /** The write-through on a false alarm: clears exactly the bit of bin i. */
  function Unmark(m: seq<nat>, i: nat): (r: seq<nat>)
    requires ValidMap(m) && i < NBINS
  {
    m[i / 32 := ClearBit(m[i / 32], i % 32)]
  }

  lemma UnmarkCorrect(m: seq<nat>, i: nat)
    requires ValidMap(m) && i < NBINS
    ensures ValidMap(Unmark(m, i))
    ensures forall j: nat :: j < NBINS ==> (Marked(Unmark(m, i), j) <==> j != i && Marked(m, j))
  {
    Pow2Word();
    UpdateBounds(m[i / 32], i % 32, 32);
    forall j: nat | j < NBINS
      ensures Marked(Unmark(m, i), j) <==> j != i && Marked(m, j)
    {
      TestClearBit(m[i / 32], i % 32, j % 32);
    }
  }

  lemma WordAndBit(block: nat, k: nat)
    requires k < 32
    ensures (32 * block + k) / 32 == block && (32 * block + k) % 32 == k
  {
  }

  /** Skips the rest of a word with no set bit at or above k, and then whole zero words. */
  method SkipWords(m: seq<nat>, block: nat, k: nat) returns (b: nat)
    requires ValidMap(m) && block <= BINMAPSIZE && k <= 32
    requires k == 32 || Pow2(k) > m[block]
    ensures block <= b <= BINMAPSIZE && (b < BINMAPSIZE ==> block < b && m[b] != 0)
    ensures forall j: nat {:trigger Marked(m, j)} :: 32 * block + k <= j < 32 * b && j < NBINS ==> !Marked(m, j)
  {
    forall j: nat {:trigger Marked(m, j)} | 32 * block + k <= j < 32 * block + 32 && j < NBINS
      ensures !Marked(m, j)
    {
      WordAndBit(block, j - 32 * block);
      NoBitAbove(m[block], k, j - 32 * block);
    }
    if block + 1 >= BINMAPSIZE { return BINMAPSIZE; }
    b := block + 1;
    while b < BINMAPSIZE && m[b] == 0
      invariant block < b <= BINMAPSIZE
      invariant forall j: nat {:trigger Marked(m, j)} :: 32 * block + k <= j < 32 * b && j < NBINS ==> !Marked(m, j)
    {
      forall j: nat {:trigger Marked(m, j)} | 32 * b <= j < 32 * b + 32 && j < NBINS ensures !Marked(m, j) {
        WordAndBit(b, j - 32 * b);
        NoBitAbove(0, 0, j - 32 * b);
      }
      b := b + 1;
    }
  }

  /** Advances to the next set bit; `bit <= map` guarantees that there is one. */
  method AdvanceToBit(w: nat, k: nat) returns (j: nat)
    requires Pow2(k) <= w < WORD && k < 32
    ensures k <= j < 32 && TestBit(w, j)
    ensures forall t {:trigger TestBit(w, t)} :: k <= t < j ==> !TestBit(w, t)
  {
    Pow2Word();
    ghost var found := SomeBitAbove(w, k, 32);
    j := k;
    while !TestBit(w, j)
      invariant k <= j <= found
      invariant forall t {:trigger TestBit(w, t)} :: k <= t < j ==> !TestBit(w, t)
      decreases 32 - j
    {
      j := j + 1;
    }
  }
}
