/**
  Releasing a chunk of the heap (fREe and malloc_consolidate of shared/malloc.c.h): what fusing it with its free
  neighbours, or with top, does to tiling, tags and the chunks in use.
 */
module HeapRelease {
  import opened HeapSizes
  import opened HeapLayout

  /** Start of the free chunk that results from releasing p: the lower neighbour's if that one is free. */
  ghost predicate ReleaseStart(sz: Chunks, free: set<int>, p: int, a: int)
    requires p in sz
  {
    if a == p then forall q {:trigger q in free} :: q in free && q in sz ==> Next(sz, q) != p
    else a in free && a in sz && Next(sz, a) == p
  }

  /** End of it: past the upper neighbour if that one is free. */
  ghost function ReleaseEnd(sz: Chunks, free: set<int>, p: int): int
    requires p in sz && Next(sz, p) in sz
  {
    if Next(sz, p) in free then Next(sz, Next(sz, p)) else Next(sz, p)
  }

  /** The words fREe writes when p does not border top: clear bit above p, new size word, new footer. */
  ghost function ReleaseMem(m: Mem, sz: Chunks, p: int, a: int, e: int): Mem
    requires p in sz && Next(sz, p) in sz
  {
    m[Next(sz, p) + 4 := sz[Next(sz, p)]][a + 4 := e - a + 1][e := e - a]
  }

  /** Where the fused range [a, e) lies relative to every other chunk. */
  lemma ReleaseRange(m: Mem, sz: Chunks, base: int, top: int, end: int, free: set<int>, p: int, a: int)
    requires Laid(m, sz, base, top, end, free) && p in InUse(sz, top, free) && ReleaseStart(sz, free, p, a)
    requires Next(sz, p) != top
    ensures Next(sz, p) in sz && a in sz && a != top && Next(sz, p) != top
    ensures var e := ReleaseEnd(sz, free, p);
            && e in sz && e !in free && a + MINSIZE <= e && a <= p < Next(sz, p) <= e
            && Head(ReleaseMem(m, sz, p, a, e), e) == sz[e]
            && (e - a) % 8 == 0
            && (forall q {:trigger sz[q]} :: q in sz && a < q < e ==> q == p || (q == Next(sz, p) && q in free))
  {
    assert ChunkAt(sz, base, top, p) && TagAt(m, sz, top, free, p);
    var n := Next(sz, p);
    if a != p { assert FreeAt(sz, top, free, a) && ChunkAt(sz, base, top, a); }
    assert ChunkAt(sz, base, top, n) && TagAt(m, sz, top, free, n);
    if n in free { assert FreeAt(sz, top, free, n) && ChunkAt(sz, base, top, Next(sz, n)); }
    var e := ReleaseEnd(sz, free, p);
    assert AlignedAt(sz, a) && AlignedAt(sz, e);
    Multiples(e, a);
    forall q {:trigger sz[q]} | q in sz && a < q < e ensures q == p || (q == n && q in free) {
      assert InOrder(sz, a, q) && InOrder(sz, p, q) && InOrder(sz, n, q) && InOrder(sz, q, p) && InOrder(sz, q, n);
    }
  }

  lemma ReleaseCoalesced(m: Mem, sz: Chunks, base: int, top: int, end: int, free: set<int>, p: int, a: int)
    requires Laid(m, sz, base, top, end, free) && p in InUse(sz, top, free) && ReleaseStart(sz, free, p, a)
    requires Next(sz, p) != top
    ensures Next(sz, p) in sz
    ensures var e := ReleaseEnd(sz, free, p);
            Coalesced(Fuse(sz, a, e - a), top, free - {Next(sz, p)} + {a})
  {
    ReleaseRange(m, sz, base, top, end, free, p, a);
    var n, e := Next(sz, p), ReleaseEnd(sz, free, p);
    var sz', free' := Fuse(sz, a, e - a), free - {n} + {a};
    if n in free { assert FreeAt(sz, top, free, n); }
    forall q | q in free' ensures FreeAt(sz', top, free', q) {
      if q != a {
        assert FreeAt(sz, top, free, q) && q in free;
        Apart(sz, base, top, end, a, q);
        assert sz[q] >= MINSIZE;
      }
    }
  }

  /** What the stores of a release leave of the tag words. */
  lemma ReleaseWords(m: Mem, sz: Chunks, base: int, top: int, end: int, free: set<int>, p: int, a: int, q: int)
    requires Laid(m, sz, base, top, end, free) && p in InUse(sz, top, free) && ReleaseStart(sz, free, p, a)
    requires Next(sz, p) != top && q in sz
    ensures Next(sz, p) in sz
    ensures var e := ReleaseEnd(sz, free, p);
            var m' := ReleaseMem(m, sz, p, a, e);
            && Head(m', a) == e - a + 1 && Load(m', e) == e - a
            && (q <= a || q >= e ==> Head(m', q) == if q == a then e - a + 1 else if q == e then sz[e] else Head(m, q))
            && (q < a || q > e ==> Load(m', q) == Load(m, q))
  {
    ReleaseRange(m, sz, base, top, end, free, p, a);
    var n, e := Next(sz, p), ReleaseEnd(sz, free, p);
    if q < a || q > e {
      Apart(sz, base, top, end, a, q);
      Apart(sz, base, top, end, e, q);
      Apart(sz, base, top, end, n, q);
    }
  }

  lemma ReleaseTags(m: Mem, sz: Chunks, base: int, top: int, end: int, free: set<int>, p: int, a: int)
    requires Laid(m, sz, base, top, end, free) && p in InUse(sz, top, free) && ReleaseStart(sz, free, p, a)
    requires Next(sz, p) != top
    ensures Next(sz, p) in sz
    ensures var e := ReleaseEnd(sz, free, p);
            Tagged(ReleaseMem(m, sz, p, a, e), Fuse(sz, a, e - a), base, top, free - {Next(sz, p)} + {a})
  {
    ReleaseRange(m, sz, base, top, end, free, p, a);
    ReleaseWords(m, sz, base, top, end, free, p, a, base);
    var n, e := Next(sz, p), ReleaseEnd(sz, free, p);
    var m', sz', free' := ReleaseMem(m, sz, p, a, e), Fuse(sz, a, e - a), free - {n} + {a};
    assert ChunkAt(sz, base, top, a);
    forall q | q in sz' ensures TagAt(m', sz', top, free', q) {
      ReleaseTagAt(m, sz, base, top, end, free, p, a, q);
    }
  }

  lemma ReleaseTagAt(m: Mem, sz: Chunks, base: int, top: int, end: int, free: set<int>, p: int, a: int, q: int)
    requires Laid(m, sz, base, top, end, free) && p in InUse(sz, top, free) && ReleaseStart(sz, free, p, a)
    requires Next(sz, p) != top && Next(sz, p) in sz && q in sz && (q <= a || q >= ReleaseEnd(sz, free, p))
    ensures var e := ReleaseEnd(sz, free, p);
            q in Fuse(sz, a, e - a) && TagAt(ReleaseMem(m, sz, p, a, e), Fuse(sz, a, e - a), top, free - {Next(sz, p)} + {a}, q)
  {
    ReleaseRange(m, sz, base, top, end, free, p, a);
    var n, e := Next(sz, p), ReleaseEnd(sz, free, p);
    ReleaseWords(m, sz, base, top, end, free, p, a, q);
    if q != a {
      assert TagAt(m, sz, top, free, q);
      var u := Next(sz, q);
      if q != top && u in Fuse(sz, a, e - a) {
        ReleaseWords(m, sz, base, top, end, free, p, a, u);
        if q in free { assert FreeAt(sz, top, free, q); }
        if u == e {
          UpperNeighbourUnique(sz, base, top, end, if n in free then n else p, q);
        }
      }
    }
  }

  /** Releasing a chunk below top: it is fused with its free neighbours, and only it leaves the chunks in use. */
  lemma Release(m: Mem, sz: Chunks, base: int, top: int, end: int, free: set<int>, p: int, a: int)
    requires Laid(m, sz, base, top, end, free) && p in InUse(sz, top, free) && ReleaseStart(sz, free, p, a)
    requires Next(sz, p) != top
    ensures Next(sz, p) in sz
    ensures var e := ReleaseEnd(sz, free, p);
            var m', sz', free' := ReleaseMem(m, sz, p, a, e), Fuse(sz, a, e - a), free - {Next(sz, p)} + {a};
            && Laid(m', sz', base, top, end, free')
            && InUse(sz', top, free') == InUse(sz, top, free) - {p}
            && SameBlocks(m, sz, m', sz', InUse(sz, top, free) - {p})
  {
    ReleaseRange(m, sz, base, top, end, free, p, a);
    ReleaseCoalesced(m, sz, base, top, end, free, p, a);
    ReleaseTags(m, sz, base, top, end, free, p, a);
    var n, e := Next(sz, p), ReleaseEnd(sz, free, p);
    var m', sz', free' := ReleaseMem(m, sz, p, a, e), Fuse(sz, a, e - a), free - {n} + {a};
    assert ChunkAt(sz, base, top, e);
    FuseTiled(sz, base, top, end, a, e - a);
    FuseAligned(sz, a, e - a);
    forall q | q in InUse(sz, top, free) - {p} ensures q in sz' && SameBlock(m, sz, m', sz', q) {
      assert sz[q] == sz[q];
      ReleaseApart(m, sz, base, top, end, free, p, a, q);
    }
    forall q | q in InUse(sz', top, free') ensures q in InUse(sz, top, free) - {p} {
      assert sz[q] == sz[q];
    }
  }

  lemma ReleaseApart(m: Mem, sz: Chunks, base: int, top: int, end: int, free: set<int>, p: int, a: int, q: int)
    requires Laid(m, sz, base, top, end, free) && p in InUse(sz, top, free) && ReleaseStart(sz, free, p, a)
    requires Next(sz, p) != top && q in InUse(sz, top, free) - {p}
    ensures Next(sz, p) in sz
    ensures q != a && (Next(sz, q) <= a || q >= ReleaseEnd(sz, free, p))
  {
    ReleaseRange(m, sz, base, top, end, free, p, a);
    assert sz[q] == sz[q];
    if q != a { Apart(sz, base, top, end, a, q); }
  }

  lemma IntoTopTagAt(m: Mem, sz: Chunks, base: int, top: int, end: int, free: set<int>, p: int, a: int, q: int)
    requires Laid(m, sz, base, top, end, free) && p in sz && ReleaseStart(sz, free, p, a) && a in sz && a != top
    requires q in sz && q < a
    ensures q in Fuse(sz, a, end - a) && TagAt(m[a + 4 := end - a + 1], Fuse(sz, a, end - a), a, free - {a}, q)
    ensures Next(Fuse(sz, a, end - a), q) <= a
  {
    assert TagAt(m, sz, top, free, q);
    assert ChunkAt(sz, base, top, q) && ChunkAt(sz, base, top, top);
    Apart(sz, base, top, end, a, q);
    assert ChunkAt(sz, base, top, a);
    var u := Next(sz, q);
    if u != a { Apart(sz, base, top, end, a, u); }
    if q in free { assert FreeAt(sz, top, free, q); }
  }

  /** Releasing a chunk that borders top: it becomes part of top. */
  lemma ReleaseIntoTop(m: Mem, sz: Chunks, base: int, top: int, end: int, free: set<int>, p: int, a: int)
    requires Laid(m, sz, base, top, end, free) && p in InUse(sz, top, free) && ReleaseStart(sz, free, p, a)
    requires Next(sz, p) == top
    ensures a in sz
    ensures var m', sz' := m[a + 4 := end - a + 1], Fuse(sz, a, end - a);
            && Laid(m', sz', base, a, end, free - {a})
            && InUse(sz', a, free - {a}) == InUse(sz, top, free) - {p}
            && SameBlocks(m, sz, m', sz', InUse(sz, top, free) - {p})
  {
    assert ChunkAt(sz, base, top, p) && ChunkAt(sz, base, top, top);
    if a != p { assert FreeAt(sz, top, free, a) && ChunkAt(sz, base, top, a); }
    var m', sz', free' := m[a + 4 := end - a + 1], Fuse(sz, a, end - a), free - {a};
    assert (end - a) % 8 == 0 by {
      assert AlignedAt(sz, top) && AlignedAt(sz, a);
      Multiples(top, sz[top]);
      Multiples(end, a);
    }
    FuseTiled(sz, base, top, end, a, end - a);
    FuseAligned(sz, a, end - a);
    forall q {:trigger q in sz'} | q in sz && q > a ensures q == p || q == top {
      assert InOrder(sz, a, q) && InOrder(sz, p, q) && InOrder(sz, q, p) && ChunkAt(sz, base, top, q);
      assert InOrder(sz, q, top);
    }
    forall q | q in sz' && q != a ensures TagAt(m', sz', a, free', q) && Next(sz', q) <= a {
      assert ChunkAt(sz, base, top, q) && InOrder(sz, q, top);
      IntoTopTagAt(m, sz, base, top, end, free, p, a, q);
    }
    assert TagAt(m', sz', a, free', a);
    forall q | q in free' ensures FreeAt(sz', a, free', q) {
      assert FreeAt(sz, top, free, q);
      assert q in sz' ;
    }
    assert Tagged(m', sz', base, a, free') by { if base != a { Apart(sz, base, top, end, a, base); } }
    forall q | q in InUse(sz, top, free) - {p} ensures SameBlock(m, sz, m', sz', q) {
      assert q in sz';
      Apart(sz, base, top, end, a, q);
    }
    assert InUse(sz', a, free') == InUse(sz, top, free) - {p};
  }
}
