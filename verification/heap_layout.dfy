/**
  The boundary-tag layout of the heap.

  Memory is a map of 32-bit words. The chunk map `sz` (start address to size) is the abstract view of
  the heap; `free` are the chunks whose in-use bit is clear. `Tiled`, `Coalesced` and `Tagged` are the
  invariants that do_check_malloc_state spells out; the lemmas below say what each way of carving,
  growing and writing does to them, to the set of chunks in use and to the bytes of those chunks.
 */
module HeapLayout {
  import opened HeapSizes

  type Mem = map<int, int>
  type Chunks = map<int, int>

  function Load(m: Mem, a: int): int {
    if a in m then m[a] else 0
  }

  /** chunksize: the size field without its two low flag bits. */
  function ChunkSize(w: int): int {
    w - w % 4
  }

  /** The size word of the chunk starting at p. */
  function Head(m: Mem, p: int): int {
    Load(m, p + 4)
  }

  /** The PREV_INUSE bit of the chunk starting at p. */
  predicate PrevInuse(m: Mem, p: int) {
    Head(m, p) % 2 == 1
  }

  ghost function Next(sz: Chunks, p: int): int
    requires p in sz
  {
    p + sz[p]
  }

  ghost predicate ChunkAt(sz: Chunks, base: int, top: int, p: int)
    requires p in sz
  {
    && base <= p <= top && sz[p] >= MINSIZE
    && (p != top ==> Next(sz, p) in sz)
  }

  ghost predicate InOrder(sz: Chunks, p: int, q: int)
    requires p in sz
  {
    p < q ==> p + sz[p] <= q
  }

  /** Chunks tile [base, end) in address order; the last one is top. */
  ghost predicate Tiled(sz: Chunks, base: int, top: int, end: int) {
    && base in sz && top in sz && top + sz[top] == end
    && (forall p {:trigger ChunkAt(sz, base, top, p)} :: p in sz ==> ChunkAt(sz, base, top, p))
    && (forall p, q {:trigger InOrder(sz, p, q)} :: p in sz && q in sz ==> InOrder(sz, p, q))
  }

  ghost predicate AlignedAt(sz: Chunks, p: int)
    requires p in sz
  {
    p % 8 == 0 && sz[p] % 8 == 0
  }

  ghost predicate Aligned(sz: Chunks) {
    forall p {:trigger AlignedAt(sz, p)} :: p in sz ==> AlignedAt(sz, p)
  }

  ghost predicate FreeAt(sz: Chunks, top: int, free: set<int>, p: int) {
    p in sz && p != top && Next(sz, p) != top && Next(sz, p) !in free
  }

  /** Free chunks never touch each other and never border top. */
  ghost predicate Coalesced(sz: Chunks, top: int, free: set<int>) {
    forall p {:trigger FreeAt(sz, top, free, p)} :: p in free ==> FreeAt(sz, top, free, p)
  }

  /**
    The size word of p holds its size; the PREV_INUSE bit of the chunk above p says whether p is in use,
    and if p is free the word before that chunk (its footer) repeats p's size.
   */
  ghost predicate TagAt(m: Mem, sz: Chunks, top: int, free: set<int>, p: int)
    requires p in sz
  {
    && (Head(m, p) == sz[p] || Head(m, p) == sz[p] + 1)
    && (p != top && Next(sz, p) in sz ==>
          && Head(m, Next(sz, p)) == sz[Next(sz, p)] + (if p in free then 0 else 1)
          && (p in free ==> Load(m, Next(sz, p)) == sz[p]))
  }

  ghost predicate Tagged(m: Mem, sz: Chunks, base: int, top: int, free: set<int>) {
    && base in sz && Head(m, base) == sz[base] + 1
    && forall p {:trigger TagAt(m, sz, top, free, p)} :: p in sz ==> TagAt(m, sz, top, free, p)
  }

  ghost predicate Laid(m: Mem, sz: Chunks, base: int, top: int, end: int, free: set<int>) {
    Tiled(sz, base, top, end) && Aligned(sz) && Coalesced(sz, top, free) && Tagged(m, sz, base, top, free)
  }

  /** Chunks that are neither free nor top: those the program (or a fastbin) holds. */
  ghost function InUse(sz: Chunks, top: int, free: set<int>): set<int> {
    sz.Keys - free - {top}
  }

  /** The usable words of a chunk of size n at p run up to and include the next chunk's prev_size word. */
  ghost predicate SamePayload(m0: Mem, m1: Mem, p: int, n: int) {
    forall a {:trigger Load(m1, a)} :: p + 8 <= a < p + n + 4 ==> Load(m1, a) == Load(m0, a)
  }

  ghost predicate SameBlock(m0: Mem, sz0: Chunks, m1: Mem, sz1: Chunks, p: int) {
    p in sz0 && p in sz1 && sz1[p] == sz0[p] && SamePayload(m0, m1, p, sz0[p])
  }

  ghost predicate SameBlocks(m0: Mem, sz0: Chunks, m1: Mem, sz1: Chunks, blocks: set<int>) {
    forall p {:trigger SameBlock(m0, sz0, m1, sz1, p)} :: p in blocks ==> SameBlock(m0, sz0, m1, sz1, p)
  }

  lemma SameBlocksTransitive(m0: Mem, sz0: Chunks, m1: Mem, sz1: Chunks, m2: Mem, sz2: Chunks,
                             b: set<int>, c: set<int>)
    requires SameBlocks(m0, sz0, m1, sz1, b) && SameBlocks(m1, sz1, m2, sz2, c)
    ensures SameBlocks(m0, sz0, m2, sz2, b * c)
  {
    forall p | p in b * c ensures SameBlock(m0, sz0, m2, sz2, p) {
      assert SameBlock(m0, sz0, m1, sz1, p) && SameBlock(m1, sz1, m2, sz2, p);
      assert forall a :: p + 8 <= a < p + sz0[p] + 4 ==> Load(m2, a) == Load(m1, a) == Load(m0, a);
    }
  }

  /** Chunk starts are at least MINSIZE apart, so tag words of one chunk are never link words of another. */
  lemma Apart(sz: Chunks, base: int, top: int, end: int, p: int, q: int)
    requires Tiled(sz, base, top, end) && p in sz && q in sz && p != q
    ensures p + sz[p] <= q || q + sz[q] <= p
    ensures sz[p] >= MINSIZE && sz[q] >= MINSIZE
  {
    assert ChunkAt(sz, base, top, p) && ChunkAt(sz, base, top, q);
    assert InOrder(sz, p, q) && InOrder(sz, q, p);
  }

  lemma NoStartInside(sz: Chunks, base: int, top: int, end: int, p: int, x: int)
    requires Tiled(sz, base, top, end) && p in sz && p < x < p + sz[p]
    ensures x !in sz
  {
    if x in sz { Apart(sz, base, top, end, p, x); }
  }

  lemma UpperNeighbourUnique(sz: Chunks, base: int, top: int, end: int, p: int, q: int)
    requires Tiled(sz, base, top, end) && p in sz && q in sz && Next(sz, p) == Next(sz, q)
    ensures p == q
  {
    if p != q { Apart(sz, base, top, end, p, q); }
  }

  /** Every chunk but the first has a lower neighbour: the tiling leaves no gap. */
  lemma LowerNeighbour(sz: Chunks, base: int, top: int, end: int, p: int) returns (q: int)
    requires Tiled(sz, base, top, end) && p in sz && p != base
    ensures q in sz && q != top && Next(sz, q) == p
  {
    assert ChunkAt(sz, base, top, p);
    q := base;
    while Next(sz, q) < p
      invariant q in sz && q < p
      decreases p - q
    {
      assert ChunkAt(sz, base, top, q);
      q := Next(sz, q);
    }
    assert InOrder(sz, q, p);
  }

  lemma FlagBits(n: int, k: int, r: int)
    requires n == 8 * k && 0 <= r <= 1
    ensures (n + r) % 4 == r && (n + r) % 2 == r
  {
    assert (n + r) / 4 == 2 * k;
    assert (n + r) / 2 == 4 * k;
  }

  lemma DecodeHead(w: int, n: int)
    requires n % 8 == 0 && (w == n || w == n + 1)
    ensures ChunkSize(w) == n
    ensures w % 2 == 1 <==> w == n + 1
  {
    FlagBits(n, n / 8, 0);
    FlagBits(n, n / 8, 1);
  }

  /** The size word decodes to the chunk's size; its low bit tells whether the lower neighbour is free. */
  lemma ReadTag(m: Mem, sz: Chunks, base: int, top: int, end: int, free: set<int>, p: int)
    requires Laid(m, sz, base, top, end, free) && p in sz
    ensures ChunkSize(Head(m, p)) == sz[p]
    ensures PrevInuse(m, p) <==> Head(m, p) == sz[p] + 1
    ensures !PrevInuse(m, p) ==>
              var q := p - Load(m, p);
              q in free && q in sz && Next(sz, q) == p
    ensures PrevInuse(m, p) ==> forall q {:trigger q in free} :: q in free && q in sz ==> Next(sz, q) != p
  {
    assert AlignedAt(sz, p) && TagAt(m, sz, top, free, p);
    DecodeHead(Head(m, p), sz[p]);
    if Head(m, p) == sz[p] {
      var q := LowerNeighbour(sz, base, top, end, p);
      assert TagAt(m, sz, top, free, q);
    } else {
      forall q {:trigger q in free} | q in free && q in sz ensures Next(sz, q) != p {
        assert TagAt(m, sz, top, free, q) && FreeAt(sz, top, free, q);
      }
    }
  }

  /** A free chunk always has an in-use lower neighbour, so its size word carries the PREV_INUSE bit. */
  lemma FreeHead(m: Mem, sz: Chunks, base: int, top: int, end: int, free: set<int>, p: int)
    requires Laid(m, sz, base, top, end, free) && p in free && p in sz
    ensures Head(m, p) == sz[p] + 1 && ChunkSize(Head(m, p)) == sz[p]
  {
    assert AlignedAt(sz, p);
    FlagBits(sz[p], sz[p] / 8, 1);
    if p != base {
      var q := LowerNeighbour(sz, base, top, end, p);
      assert TagAt(m, sz, top, free, q);
      assert q in free ==> FreeAt(sz, top, free, q);
    }
  }

  /** The in-use bit of p is the PREV_INUSE bit of the chunk above it. */
  lemma ReadInuse(m: Mem, sz: Chunks, base: int, top: int, end: int, free: set<int>, p: int)
    requires Laid(m, sz, base, top, end, free) && p in sz && p != top
    ensures Next(sz, p) in sz
    ensures PrevInuse(m, Next(sz, p)) <==> p !in free
  {
    assert ChunkAt(sz, base, top, p) && TagAt(m, sz, top, free, p);
    assert AlignedAt(sz, Next(sz, p));
    DecodeHead(Head(m, Next(sz, p)), sz[Next(sz, p)]);
  }

  // ---------------------------------------------------------------- chunk-map surgery

  lemma Multiples(a: int, b: int)
    requires a % 8 == 0 && b % 8 == 0
    ensures (a + b) % 8 == 0 && (a - b) % 8 == 0
  {
    assert a + b == 8 * (a / 8 + b / 8) && a - b == 8 * (a / 8 - b / 8);
  }

  /** All chunks inside [a, a + n) become one. */
  ghost function Fuse(sz: Chunks, a: int, n: int): Chunks {
    map x | x in sz && (x <= a || x >= a + n) :: if x == a then n else sz[x]
  }

  /** The chunk at a is cut into n bytes and a rest. */
  ghost function Split(sz: Chunks, a: int, n: int): Chunks
    requires a in sz
  {
    sz[a := n][a + n := sz[a] - n]
  }

  lemma FuseTiled(sz: Chunks, base: int, top: int, end: int, a: int, n: int)
    requires Tiled(sz, base, top, end)
    requires a in sz && n >= MINSIZE
    requires a + n in sz || a + n == end
    ensures Tiled(Fuse(sz, a, n), base, if a + n == end then a else top, end)
  {
    var r := Fuse(sz, a, n);
    var t := if a + n == end then a else top;
    assert ChunkAt(sz, base, top, a) && ChunkAt(sz, base, top, top) && ChunkAt(sz, base, top, base);
    if a + n in sz { assert ChunkAt(sz, base, top, a + n); }
    forall p | p in r ensures ChunkAt(r, base, t, p) {
      assert ChunkAt(sz, base, top, p);
      assert InOrder(sz, p, a) && InOrder(sz, p, top);
    }
    forall p, q | p in r && q in r ensures InOrder(r, p, q) {
      assert InOrder(sz, p, q);
    }
  }

  lemma FuseAligned(sz: Chunks, a: int, n: int)
    requires Aligned(sz) && a in sz && n % 8 == 0
    ensures Aligned(Fuse(sz, a, n))
  {
    forall p | p in Fuse(sz, a, n) ensures AlignedAt(Fuse(sz, a, n), p) {
      assert AlignedAt(sz, p);
    }
  }

  lemma SplitAligned(sz: Chunks, a: int, n: int)
    requires Aligned(sz) && a in sz && n % 8 == 0
    ensures Aligned(Split(sz, a, n))
  {
    assert AlignedAt(sz, a);
    Multiples(a, n);
    Multiples(sz[a], n);
    forall p | p in Split(sz, a, n) ensures AlignedAt(Split(sz, a, n), p) {
      if p in sz { assert AlignedAt(sz, p); }
    }
  }

  lemma SplitTiled(sz: Chunks, base: int, top: int, end: int, a: int, n: int)
    requires Tiled(sz, base, top, end)
    requires a in sz && n >= MINSIZE && sz[a] - n >= MINSIZE
    ensures a + n !in sz
    ensures Tiled(Split(sz, a, n), base, if a == top then a + n else top, end)
  {
    var r := Split(sz, a, n);
    var t := if a == top then a + n else top;
    NoStartInside(sz, base, top, end, a, a + n);
    assert ChunkAt(sz, base, top, a) && ChunkAt(sz, base, top, top) && InOrder(sz, a, top);
    forall p | p in r ensures ChunkAt(r, base, t, p) {
      if p in sz { assert ChunkAt(sz, base, top, p); }
    }
    forall p, q | p in r && q in r ensures InOrder(r, p, q) {
      if p in sz && q in sz { assert InOrder(sz, p, q); }
      if p in sz { assert InOrder(sz, p, a) && InOrder(sz, a, p); }
      if q in sz { assert InOrder(sz, a, q); }
    }
  }

  // ---------------------------------------------------------------- taking a chunk

  /** Link words of a chunk that nobody else owns may be overwritten without touching tags or other payloads. */
  lemma LinkWrite(m: Mem, sz: Chunks, base: int, top: int, end: int, free: set<int>, p: int, off: int, v: int)
    requires Laid(m, sz, base, top, end, free) && p in sz && (off == 8 || off == 12)
    ensures Laid(m[p + off := v], sz, base, top, end, free)
    ensures SameBlocks(m, sz, m[p + off := v], sz, sz.Keys - {p})
  {
    var m' := m[p + off := v];
    forall q {:trigger Head(m', q)} | q in sz
      ensures Head(m', q) == Head(m, q) && Load(m', q) == Load(m, q)
    {
      if q != p { Apart(sz, base, top, end, p, q); }
    }
    forall q | q in sz ensures TagAt(m', sz, top, free, q) {
      assert TagAt(m, sz, top, free, q);
      if q != top && Next(sz, q) in sz { assert Head(m', Next(sz, q)) == Head(m, Next(sz, q)); }
    }
    forall q | q in sz && q != p ensures SameBlock(m, sz, m', sz, q) {
      Apart(sz, base, top, end, p, q);
    }
  }

  /** Setting the PREV_INUSE bit above a free chunk. */
  ghost function WithInuseBit(m: Mem, a: int): Mem {
    m[a + 4 := Head(m, a) - Head(m, a) % 2 + 1]
  }

  /** Exhausting a free chunk: its upper neighbour's PREV_INUSE bit is set and nothing else changes. */
  lemma Exhaust(m: Mem, sz: Chunks, base: int, top: int, end: int, free: set<int>, p: int)
    requires Laid(m, sz, base, top, end, free) && p in free && p in sz
    ensures Laid(WithInuseBit(m, Next(sz, p)), sz, base, top, end, free - {p})
    ensures SameBlocks(m, sz, WithInuseBit(m, Next(sz, p)), sz, InUse(sz, top, free))
    ensures InUse(sz, top, free - {p}) == InUse(sz, top, free) + {p}
  {
    var n := Next(sz, p);
    var m' := WithInuseBit(m, n);
    assert FreeAt(sz, top, free, p) && ChunkAt(sz, base, top, p) && TagAt(m, sz, top, free, p);
    assert AlignedAt(sz, n);
    DecodeHead(Head(m, n), sz[n]);
    assert Head(m', n) == sz[n] + 1;
    forall q {:trigger Head(m', q)} | q in sz
      ensures q != n ==> Head(m', q) == Head(m, q)
      ensures Load(m', q) == Load(m, q)
    {
      if q != n { Apart(sz, base, top, end, n, q); }
    }
    forall q | q in sz ensures TagAt(m', sz, top, free - {p}, q) {
      assert TagAt(m, sz, top, free, q);
      if q != top && Next(sz, q) in sz {
        assert Next(sz, q) != n ==> Head(m', Next(sz, q)) == Head(m, Next(sz, q));
        assert Load(m', Next(sz, q)) == Load(m, Next(sz, q)) by { assert Head(m', Next(sz, q)) == Head(m', Next(sz, q)); }
        if Next(sz, q) == n { UpperNeighbourUnique(sz, base, top, end, p, q); }
      }
    }
    forall q | q in free - {p} ensures FreeAt(sz, top, free - {p}, q) {
      assert FreeAt(sz, top, free, q);
    }
    forall q | q in InUse(sz, top, free) ensures SameBlock(m, sz, m', sz, q) {
      Apart(sz, base, top, end, p, q);
      if q != n { Apart(sz, base, top, end, n, q); }
    }
  }

  /** set_head/set_foot of the split code: the low part becomes an in-use chunk, the rest a free one. */
  ghost function CarveFreeMem(m: Mem, p: int, n: int, nb: int): Mem {
    m[p + 4 := nb + 1][p + nb + 4 := n - nb + 1][p + n := n - nb]
  }

  lemma CarveFree(m: Mem, sz: Chunks, base: int, top: int, end: int, free: set<int>, p: int, nb: int)
    requires Laid(m, sz, base, top, end, free) && p in free && p in sz
    requires nb >= MINSIZE && nb % 8 == 0 && sz[p] - nb >= MINSIZE
    ensures p + nb !in sz
    ensures Laid(CarveFreeMem(m, p, sz[p], nb), Split(sz, p, nb), base, top, end, free - {p} + {p + nb})
    ensures SameBlocks(m, sz, CarveFreeMem(m, p, sz[p], nb), Split(sz, p, nb), InUse(sz, top, free))
    ensures InUse(Split(sz, p, nb), top, free - {p} + {p + nb}) == InUse(sz, top, free) + {p}
  {
    var n := sz[p];
    var m', sz', free' := CarveFreeMem(m, p, n, nb), Split(sz, p, nb), free - {p} + {p + nb};
    SplitTiled(sz, base, top, end, p, nb);
    SplitAligned(sz, p, nb);
    assert FreeAt(sz, top, free, p) && ChunkAt(sz, base, top, p) && TagAt(m, sz, top, free, p);
    forall q | q in free' ensures FreeAt(sz', top, free', q) {
      if q != p + nb {
        assert FreeAt(sz, top, free, q);
        Apart(sz, base, top, end, p, q);
      }
    }
    CarveFreeTags(m, sz, base, top, end, free, p, nb);
    forall q | q in InUse(sz, top, free) ensures SameBlock(m, sz, m', sz', q) {
      Apart(sz, base, top, end, p, q);
    }
    assert InUse(sz', top, free') == InUse(sz, top, free) + {p};
  }

  lemma CarveFreeTags(m: Mem, sz: Chunks, base: int, top: int, end: int, free: set<int>, p: int, nb: int)
    requires Laid(m, sz, base, top, end, free) && p in free && p in sz && p + nb !in sz
    requires nb >= MINSIZE && sz[p] - nb >= MINSIZE
    ensures Tagged(CarveFreeMem(m, p, sz[p], nb), Split(sz, p, nb), base, top, free - {p} + {p + nb})
  {
    var n := sz[p];
    var m', sz', free' := CarveFreeMem(m, p, n, nb), Split(sz, p, nb), free - {p} + {p + nb};
    assert FreeAt(sz, top, free, p) && ChunkAt(sz, base, top, p) && TagAt(m, sz, top, free, p);
    forall q {:trigger Head(m', q)} | q in sz && q != p
      ensures Head(m', q) == Head(m, q)
      ensures q != Next(sz, p) ==> Load(m', q) == Load(m, q)
    {
      Apart(sz, base, top, end, p, q);
    }
    forall q | q in sz' ensures TagAt(m', sz', top, free', q) {
      if q != p && q != p + nb {
        assert TagAt(m, sz, top, free, q);
        Apart(sz, base, top, end, p, q);
        if q != top && Next(sz, q) in sz {
          assert Head(m', Next(sz, q)) == if Next(sz, q) == p then nb + 1 else Head(m, Next(sz, q));
          if Next(sz, q) == Next(sz, p) { UpperNeighbourUnique(sz, base, top, end, p, q); }
          if q in free { assert FreeAt(sz, top, free, q); }
        }
      } else if q == p + nb {
        assert Head(m', Next(sz, p)) == Head(m, Next(sz, p));
      }
    }
  }

  ghost function CarveTopMem(m: Mem, top: int, n: int, nb: int): Mem {
    m[top + 4 := nb + 1][top + nb + 4 := n - nb + 1]
  }

  /** use_top: the low part of top is handed out, the rest stays top. */
  lemma CarveTop(m: Mem, sz: Chunks, base: int, top: int, end: int, free: set<int>, nb: int)
    requires Laid(m, sz, base, top, end, free)
    requires nb >= MINSIZE && nb % 8 == 0 && sz[top] - nb >= MINSIZE
    ensures top + nb !in sz
    ensures Laid(CarveTopMem(m, top, sz[top], nb), Split(sz, top, nb), base, top + nb, end, free)
    ensures SameBlocks(m, sz, CarveTopMem(m, top, sz[top], nb), Split(sz, top, nb), InUse(sz, top, free))
    ensures InUse(Split(sz, top, nb), top + nb, free) == InUse(sz, top, free) + {top}
  {
    var m', sz' := CarveTopMem(m, top, sz[top], nb), Split(sz, top, nb);
    SplitTiled(sz, base, top, end, top, nb);
    SplitAligned(sz, top, nb);
    forall q {:trigger Head(m', q)} | q in sz && q != top
      ensures Head(m', q) == Head(m, q) && Load(m', q) == Load(m, q)
    {
      Apart(sz, base, top, end, top, q);
    }
    forall q | q in free ensures FreeAt(sz', top + nb, free, q) {
      assert FreeAt(sz, top, free, q);
      Apart(sz, base, top, end, top, q);
    }
    forall q | q in sz' ensures TagAt(m', sz', top + nb, free, q) {
      if q in sz && q != top {
        assert TagAt(m, sz, top, free, q);
        Apart(sz, base, top, end, top, q);
        if Next(sz, q) in sz {
          assert Head(m', Next(sz, q)) == if Next(sz, q) == top then nb + 1 else Head(m, Next(sz, q));
          if q in free { assert FreeAt(sz, top, free, q); }
        }
      }
    }
    forall q | q in InUse(sz, top, free) ensures SameBlock(m, sz, m', sz', q) {
      Apart(sz, base, top, end, top, q);
    }
    assert InUse(sz', top + nb, free) == InUse(sz, top, free) + {top};
  }

  lemma ExtendTiled(sz: Chunks, base: int, top: int, end: int, k: int)
    requires Tiled(sz, base, top, end) && Aligned(sz) && k >= 0 && k % 8 == 0
    ensures Tiled(sz[top := sz[top] + k], base, top, end + k) && Aligned(sz[top := sz[top] + k])
  {
    var sz' := sz[top := sz[top] + k];
    assert ChunkAt(sz, base, top, top) && AlignedAt(sz, top);
    Multiples(sz[top], k);
    forall q | q in sz' ensures ChunkAt(sz', base, top, q) && AlignedAt(sz', q) {
      assert ChunkAt(sz, base, top, q) && AlignedAt(sz, q);
    }
    forall p, q | p in sz' && q in sz' ensures InOrder(sz', p, q) {
      assert InOrder(sz, p, q) && ChunkAt(sz, base, top, q);
    }
  }

  /** sYSMALLOc with contiguous sbrk: top grows by k bytes. */
  lemma ExtendTop(m: Mem, sz: Chunks, base: int, top: int, end: int, free: set<int>, k: int)
    requires Laid(m, sz, base, top, end, free) && k >= 0 && k % 8 == 0
    ensures Laid(m[top + 4 := sz[top] + k + 1], sz[top := sz[top] + k], base, top, end + k, free)
    ensures SameBlocks(m, sz, m[top + 4 := sz[top] + k + 1], sz[top := sz[top] + k], InUse(sz, top, free))
    ensures InUse(sz[top := sz[top] + k], top, free) == InUse(sz, top, free)
  {
    var m', sz' := m[top + 4 := sz[top] + k + 1], sz[top := sz[top] + k];
    assert ChunkAt(sz, base, top, top);
    ExtendTiled(sz, base, top, end, k);
    forall q {:trigger Head(m', q)} | q in sz && q != top
      ensures Head(m', q) == Head(m, q) && Load(m', q) == Load(m, q)
    {
      Apart(sz, base, top, end, top, q);
    }
    forall q | q in free ensures FreeAt(sz', top, free, q) {
      assert FreeAt(sz, top, free, q);
    }
    forall q | q in sz' ensures TagAt(m', sz', top, free, q) {
      assert TagAt(m, sz, top, free, q);
      if q != top && Next(sz, q) in sz {
        assert Head(m', Next(sz, q)) == if Next(sz, q) == top then sz[top] + k + 1 else Head(m, Next(sz, q));
        if q in free { assert FreeAt(sz, top, free, q); }
      }
    }
    forall q | q in InUse(sz, top, free) ensures SameBlock(m, sz, m', sz', q) {
      Apart(sz, base, top, end, top, q);
    }
    assert sz'.Keys == sz.Keys;
  }

  // ---------------------------------------------------------------- what the layout means for a program

  /** The payloads of distinct chunks in use never overlap and lie inside the heap. */
  lemma BlocksDisjoint(m: Mem, sz: Chunks, base: int, top: int, end: int, free: set<int>, p: int, q: int)
    requires Laid(m, sz, base, top, end, free)
    requires p in InUse(sz, top, free) && q in InUse(sz, top, free) && p != q
    ensures p + sz[p] + 4 <= q + 8 || q + sz[q] + 4 <= p + 8
    ensures base < p + 8 && p + sz[p] + 4 < end
  {
    Apart(sz, base, top, end, p, q);
    assert ChunkAt(sz, base, top, p) && ChunkAt(sz, base, top, Next(sz, p));
    assert ChunkAt(sz, base, top, top) && InOrder(sz, Next(sz, p), top);
  }

  /** The program may write any word of a block it holds, the word shared with the next header included. */
  lemma PayloadWrite(m: Mem, sz: Chunks, base: int, top: int, end: int, free: set<int>, p: int, a: int, v: int)
    requires Laid(m, sz, base, top, end, free) && p in InUse(sz, top, free)
    requires p + 8 <= a < p + sz[p] + 4
    ensures Laid(m[a := v], sz, base, top, end, free)
    ensures SameBlocks(m, sz, m[a := v], sz, InUse(sz, top, free) - {p})
  {
    var m' := m[a := v];
    assert ChunkAt(sz, base, top, p);
    forall q {:trigger Head(m', q)} | q in sz
      ensures Head(m', q) == Head(m, q)
      ensures q != Next(sz, p) ==> Load(m', q) == Load(m, q)
    {
      if q != p { Apart(sz, base, top, end, p, q); }
      if q != Next(sz, p) { Apart(sz, base, top, end, Next(sz, p), q); }
    }
    forall q | q in sz ensures TagAt(m', sz, top, free, q) {
      assert TagAt(m, sz, top, free, q);
      if q != top && Next(sz, q) in sz {
        assert Head(m', Next(sz, q)) == Head(m, Next(sz, q));
        if Next(sz, q) == Next(sz, p) { UpperNeighbourUnique(sz, base, top, end, p, q); }
      }
    }
    forall q | q in InUse(sz, top, free) - {p} ensures SameBlock(m, sz, m', sz, q) {
      Apart(sz, base, top, end, p, q);
    }
  }

  /** Conservation: walking the size words from base visits every chunk once and ends exactly at the break. */
  lemma Walk(sz: Chunks, base: int, top: int, end: int) returns (s: seq<int>)
    requires Tiled(sz, base, top, end)
    ensures |s| >= 1 && s[0] == base && s[|s| - 1] == top
    ensures forall k {:trigger s[k]} :: 0 <= k < |s| ==> s[k] in sz
    ensures forall k {:trigger s[k + 1]} :: 0 <= k < |s| - 1 ==> s[k] in sz && s[k + 1] == s[k] + sz[s[k]]
    ensures forall p {:trigger p in s} :: p in sz ==> p in s
    ensures Total(sz, s) == end - base
  {
    s := [base];
    var p := base;
    forall q {:trigger q in s} | q in sz && q <= p ensures q in s { assert ChunkAt(sz, base, top, q); }
    while p != top
      invariant |s| >= 1 && s[0] == base && s[|s| - 1] == p && p in sz
      invariant forall k {:trigger s[k]} :: 0 <= k < |s| ==> s[k] in sz
      invariant forall k {:trigger s[k + 1]} :: 0 <= k < |s| - 1 ==> s[k] in sz && s[k + 1] == s[k] + sz[s[k]]
      invariant forall q {:trigger q in s} :: q in sz && q <= p ==> q in s
      invariant Total(sz, s) == p + sz[p] - base
      decreases top - p
    {
      assert ChunkAt(sz, base, top, p);
      var n := Next(sz, p);
      assert ChunkAt(sz, base, top, n);
      forall q {:trigger q in s + [n]} | q in sz && q <= n ensures q in s + [n] {
        assert InOrder(sz, p, q);
        assert q <= p ==> q in s;
      }
      TotalAppend(sz, s, n);
      s := s + [n];
      p := n;
    }
    forall q {:trigger q in s} | q in sz ensures q in s { assert ChunkAt(sz, base, top, q); }
  }

  ghost function Total(sz: Chunks, s: seq<int>): int {
    if s == [] then 0 else Total(sz, s[..|s| - 1]) + (if s[|s| - 1] in sz then sz[s[|s| - 1]] else 0)
  }

  lemma TotalAppend(sz: Chunks, s: seq<int>, p: int)
    requires p in sz
    ensures Total(sz, s + [p]) == Total(sz, s) + sz[p]
  {
    assert (s + [p])[..|s|] == s;
  }
}
