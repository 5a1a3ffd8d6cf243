/**
  The dlmalloc allocator of shared/malloc.c.h as this system builds it: no mmap, sbrk over one static
  area, 32-bit sizes. One `Allocator` object is one instance (kernel heap, user-stack heap, user heap).
 */
module Heap {
  import opened Arith
  import opened HeapSizes
  import opened HeapLayout
  import opened HeapRelease
  import opened HeapLists
  import opened HeapLinks
  import opened BinMap
  import opened Sequences

  /** unsorted_chunks: the header of the unsorted queue, which also poses as the first top; it stands for "no chunk" too. */
  const HEADER: int := Bin(1)

  ghost predicate Granted(m0: Mem, sz0: Chunks, used0: set<int>, m1: Mem, sz1: Chunks, used1: set<int>, p: int, nb: int) {
    && p !in used0 && used1 == used0 + {p}
    && p in sz1 && sz1[p] >= nb
    && SameBlocks(m0, sz0, m1, sz1, used0)
  }

  /** What a call of malloc does to the blocks of the program: nothing, or one new block of at least nb bytes. */
  ghost predicate Served(m0: Mem, sz0: Chunks, live0: set<int>, m1: Mem, sz1: Chunks, live1: set<int>, r: int, nb: int) {
    && SameBlocks(m0, sz0, m1, sz1, live0)
    && if r == 0 then live1 == live0
       else
         && r % 8 == 0 && r - 8 !in live0 && live1 == live0 + {r - 8}
         && r - 8 in sz1 && nb <= sz1[r - 8] < nb + MINSIZE
  }

  lemma GrantLive(m0: Mem, sz0: Chunks, used0: set<int>, m1: Mem, sz1: Chunks, used1: set<int>,
                  heads: seq<int>, fast: seq<seq<int>>, p: int, nb: int)
    requires Granted(m0, sz0, used0, m1, sz1, used1, p, nb) && Fast(fast, sz0, used0) && Chains(m0, heads, fast)
    requires Aligned(sz1) && sz1[p] < nb + MINSIZE && p >= 0
    ensures Fast(fast, sz1, used1) && Chains(m1, heads, fast)
    ensures Served(m0, sz0, LiveSet(used0, fast), m1, sz1, LiveSet(used1, fast), p + 8, nb)
  {
    assert AlignedAt(sz1, p);
    Multiples(p, 8);
    LiveGrows(fast, sz0, used0, p);
    forall q {:trigger q in used0} | q in used0 && q in sz0 ensures q in sz1 && sz1[q] == sz0[q] {
      assert SameBlock(m0, sz0, m1, sz1, q);
    }
    FastFrame(fast, sz0, used0, sz1, used1);
    ChainsFrame(m0, sz0, m1, sz1, heads, fast, used0);
  }

  lemma BestFitIsPicked(sz: Chunks, home: Home, v: View, nb: int, p: int)
    requires BestFit(sz, home, nb, p) && v.sz == sz && v.free == home.Keys
    ensures Picked(v, nb, p) && !NoFit(v, nb)
  {
    assert p in v.free;
    forall q {:trigger q in v.free} | q in v.free && q in v.sz && v.sz[q] >= nb ensures v.sz[p] <= v.sz[q] {
      assert q in home;
    }
  }

  lemma ServedCompose(m0: Mem, sz0: Chunks, m1: Mem, sz1: Chunks, live: set<int>,
                      m2: Mem, sz2: Chunks, live2: set<int>, r: int, nb: int)
    requires SameBlocks(m0, sz0, m1, sz1, live) && Served(m1, sz1, live, m2, sz2, live2, r, nb)
    ensures Served(m0, sz0, live, m2, sz2, live2, r, nb)
  {
    SameBlocksCompose(m0, sz0, m1, sz1, m2, sz2, live, live, live);
  }

  // ---------------------------------------------------------------- which chunk malloc takes

  /** The heap as a search sees it: chunk sizes, free chunks, the place top starts or would start, the last remainder. */
  datatype View = View(sz: Chunks, free: set<int>, top: int, remainder: int)

  /** p is a smallest free chunk of at least nb bytes; one of exactly nb bytes is. */
  ghost predicate Smallest(v: View, nb: int, p: int) {
    && p in v.free && p in v.sz && v.sz[p] >= nb
    && forall q {:trigger q in v.free} :: q in v.free && q in v.sz && v.sz[q] >= nb ==> v.sz[p] <= v.sz[q]
  }

  ghost predicate NoFit(v: View, nb: int) {
    forall q {:trigger q in v.free} :: q in v.free && q in v.sz ==> v.sz[q] < nb
  }

  ghost predicate NoExact(v: View, nb: int) {
    forall q {:trigger q in v.free} :: q in v.free && q in v.sz ==> v.sz[q] != nb
  }

  ghost predicate TopTooSmall(v: View, nb: int) {
    v.top in v.sz ==> v.sz[v.top] < nb + MINSIZE
  }

  /**
    The choice in a given heap: a smallest free chunk that fits; or, for a small request without an exact fit, the
    last remainder; or the low end of top, and that only if no free chunk fits.
   */
  ghost predicate Picked(v: View, nb: int, p: int) {
    || Smallest(v, nb, p)
    || (InSmallbinRange(nb) && p == v.remainder && p in v.free && p in v.sz && v.sz[p] > nb + MINSIZE && NoExact(v, nb))
    || (p == v.top && NoFit(v, nb))
  }

  /** The last remainder once p is granted: the rest of it if a small request split a free chunk, else as before. */
  ghost function RemainderAfter(v: View, nb: int, p: int): int {
    if InSmallbinRange(nb) && p in v.free && p in v.sz && v.sz[p] - nb >= MINSIZE then p + nb else v.remainder
  }

  /** The heap once the fastbins have been emptied: the live blocks as they were, and all else free, fused and tiled. */
  ghost predicate Swept(v: View, sz0: Chunks, live: set<int>, start: int, brk: int) {
    && Tiled(v.sz, start, v.top, brk) && Coalesced(v.sz, v.top, v.free) && InUse(v.sz, v.top, v.free) == live
    && forall p {:trigger p in live} :: p in live ==> p in v.sz && p in sz0 && v.sz[p] == sz0[p]
  }

  /**
    The choice of malloc after a miss in the fastbins. With nothing parked there the heap is searched as it is. With
    chunks parked, a large request searches the swept heap; a small one does so only if nothing fits without it.
   */
  ghost predicate Found(v0: View, parked: bool, live: set<int>, start: int, brk: int, nb: int, seen: View, p: int) {
    Picked(seen, nb, p) &&
    if !parked then seen == v0
    else if InSmallbinRange(nb) then
      seen == v0 || (NoFit(v0, nb) && TopTooSmall(v0, nb) && Swept(seen, v0.sz, live, start, brk))
    else Swept(seen, v0.sz, live, start, brk)
  }

  /** Where a released chunk ends once fused: at the break if it borders top. */
  ghost function FusedEnd(sz: Chunks, free: set<int>, top: int, brk: int, p: int): int
    requires p in sz
  {
    if Next(sz, p) == top || Next(sz, p) !in sz then brk else ReleaseEnd(sz, free, p)
  }

  /** Chunk p and its free neighbours have become one chunk, at a: top if p bordered top, a free chunk otherwise. */
  ghost predicate Released(sz0: Chunks, free0: set<int>, top0: int, brk: int, p: int,
                           sz1: Chunks, free1: set<int>, top1: int, a: int)
  {
    && p in sz0 && ReleaseStart(sz0, free0, p, a)
    && sz1 == Fuse(sz0, a, FusedEnd(sz0, free0, top0, brk, p) - a)
    && if Next(sz0, p) == top0 then top1 == a && free1 == free0 - {a}
       else top1 == top0 && free1 == free0 - {Next(sz0, p)} + {a}
  }

  /** The fastbins with p as the first of those of its size. */
  ghost function Parked(fastbins: seq<seq<int>>, p: int, size: int): seq<seq<int>> {
    var i := FastbinIndex(size);
    if 0 <= i < |fastbins| then fastbins[i := [p] + fastbins[i]] else fastbins
  }

  ghost predicate Untouched(m0: Mem, sz0: Chunks, used0: set<int>, m1: Mem, sz1: Chunks, used1: set<int>) {
    used1 == used0 && SameBlocks(m0, sz0, m1, sz1, used0)
  }

  /** Every free chunk is in one bin, the bitmap hides no bin, and the stored links are those of the bins. */
  ghost predicate FreeLists(mem: Mem, bins: seq<seq<int>>, binmap: seq<nat>, home: Home, sz: Chunks) {
    Binned(bins, home, sz) && MapSound(bins, binmap) && Rings(mem, bins)
  }

  lemma SameBlocksCompose(m0: Mem, sz0: Chunks, m1: Mem, sz1: Chunks, m2: Mem, sz2: Chunks,
                          b: set<int>, c: set<int>, d: set<int>)
    requires SameBlocks(m0, sz0, m1, sz1, b) && SameBlocks(m1, sz1, m2, sz2, c) && d <= b && d <= c
    ensures SameBlocks(m0, sz0, m2, sz2, d)
  {
    SameBlocksTransitive(m0, sz0, m1, sz1, m2, sz2, b, c);
    forall p | p in d ensures SameBlock(m0, sz0, m2, sz2, p) {
      assert p in b * c;
    }
  }

  function RoundUpToPage(x: int): (r: int)
    ensures r % PAGE == 0 && x <= r < x + PAGE
  {
    (x + (PAGE - 1)) / PAGE * PAGE
  }

  /** (size + pagemask) & ~pagemask in 32-bit words, read back as a signed long. */
  function PagedRequest(x: int): int {
    var w := RoundUpToPage(x) % WORD;
    if w >= 0x8000_0000 then w - WORD else w
  }

  /** A 32-bit page-rounded request is granted by sbrk exactly when the exact one fits under the limit. */
  lemma PagedRequestExact(x: int, brk: int, limit: int)
    requires 1 <= x < WORD && 0 <= brk <= limit < 0x8000_0000
    ensures PagedRequest(x) > 0 && PagedRequest(x) <= limit - brk <==> RoundUpToPage(x) <= limit - brk
    ensures PagedRequest(x) > 0 ==> PagedRequest(x) == RoundUpToPage(x)
  {
    var r := RoundUpToPage(x);
    if r < WORD {
      assert r % WORD == r;
    } else {
      assert r == WORD by { PageMultiple(x); }
    }
  }

  lemma PageIsAligned(x: int)
    requires x % PAGE == 0
    ensures x % 8 == 0
  {
    assert x == 8 * (512 * (x / PAGE));
  }

  function AlignUp(x: int): (r: int)
    ensures r % 8 == 0 && x <= r < x + 8
  {
    (x + 7) / 8 * 8
  }

  /** Bytes to skip so that the first chunk is aligned, as computed from the misalignment of its payload. */
  lemma FrontCorrection(b: int)
    ensures b + (if (b + 8) % 8 > 0 then 8 - (b + 8) % 8 else 0) == AlignUp(b)
  {
  }

  /** In an area that ends on a page boundary there is always room to reach the next one. */
  lemma PageFits(x: int, limit: int)
    requires x <= limit && limit % PAGE == 0
    ensures RoundUpToPage(AlignUp(x)) <= limit
  {
    PageIsAligned(limit);
    LeastMultiple(x, 8, limit / 8);
    LeastMultiple(AlignUp(x), PAGE, limit / PAGE);
  }

  /** Rounding up to a multiple of d stays below any multiple of d that is not below x. */
  lemma LeastMultiple(x: int, d: int, q: int)
    requires d >= 1 && x <= q * d
    ensures (x + (d - 1)) / d * d <= q * d
  {
    QuotientBracket(x + (d - 1), d);
    MulOrder(q + 1, (x + (d - 1)) / d, d);
    MulOrder((x + (d - 1)) / d, q, d);
  }

  /** Where the first area ends: on the page boundary behind a chunk of the size asked, if the limit allows. */
  function FirstBreak(start: int, end: int, size: int, limit: int): int {
    if RoundUpToPage(start + size) <= limit then RoundUpToPage(start + size) else end
  }

  /** Shifting by whole pages commutes with aligning. */
  lemma AlignShift(b: int, size: int)
    requires size % PAGE == 0
    ensures AlignUp(b + size) == AlignUp(b) + size
  {
    PageIsAligned(size);
    assert size == 8 * (size / 8);
  }

  /** Whichever way the second sbrk goes, the new area is a whole number of aligned units. */
  lemma AreaIsAligned(b: int, size: int, n: int, limit: int)
    requires size % PAGE == 0 && b + size <= limit && (b % 8 == 0 || limit % PAGE == 0)
    requires
      || n == RoundUpToPage(AlignUp(b) + size) - AlignUp(b)
      || (n == b + size - AlignUp(b) && RoundUpToPage(AlignUp(b) + size) > limit)
    ensures n % 8 == 0 && n >= size
  {
    var e := RoundUpToPage(AlignUp(b) + size);
    PageIsAligned(size);
    if n == e - AlignUp(b) {
      PageIsAligned(e);
      Multiples(e, AlignUp(b));
    } else {
      AlignedStart(b, size, limit);
    }
  }

  /** Only an area that starts aligned can be short of the room that the second sbrk asks for. */
  lemma AlignedStart(b: int, size: int, limit: int)
    requires size % PAGE == 0 && b + size <= limit && (b % 8 == 0 || limit % PAGE == 0)
    requires RoundUpToPage(AlignUp(b) + size) > limit
    ensures AlignUp(b) == b
  {
    AlignShift(b, size);
    if limit % PAGE == 0 { PageFits(b + size, limit); }
  }

  lemma FirstLayout(m: Mem, b: int, n: int)
    requires b % 8 == 0 && n % 8 == 0 && n >= MINSIZE && Head(m, b) == n + 1
    ensures Laid(m, map[b := n], b, b, b + n, {})
  {
    var sz := map[b := n];
    forall p | p in sz ensures ChunkAt(sz, b, b, p) && AlignedAt(sz, p) && TagAt(m, sz, b, {}, p) {}
    forall p, q | p in sz && q in sz ensures InOrder(sz, p, q) {}
  }

  lemma PageMultiple(x: int)
    requires x < WORD
    ensures RoundUpToPage(x) <= WORD
  {
    var q := (x + (PAGE - 1)) / PAGE;
    assert q <= WORD / PAGE;
  }

  class Allocator {
    const memHeap: int   // mem_heap
    const start: int     // mem_heap, aligned to 8 bytes: where the first chunk will be
    const limit: int     // mem_heap_end

    var mem: Mem
    var brk: int         // curptr
    var maxFast: int     // max_fast with its two flag bits
    var heads: seq<int>  // fastbins
    var top: int
    var lastRemainder: int
    var binmap: seq<nat>

    ghost var bins: seq<seq<int>>       // the bins as lists; in memory they are rings through their headers
    ghost var fastbins: seq<seq<int>>   // the fastbins as lists; in memory they are chains from their heads
    ghost var sz: Chunks
    ghost var home: Home

    ghost function Used(): set<int>
      reads this
    {
      InUse(sz, top, home.Keys)
    }

    /** Blocks the program holds: in use and not parked in a fastbin. */
    ghost function Live(): set<int>
      reads this
    {
      LiveSet(Used(), fastbins)
    }

    /** Bin headers below the heap, the heap below 2 GB. */
    ghost predicate Sited()
      reads this
    {
      STATIC <= start && brk < 0x8000_0000
    }

    ghost function Seen(): View
      reads this
    {
      View(sz, home.Keys, if sz == map[] then start else top, lastRemainder)
    }

    /** The fastbin of the request holds a chunk. */
    ghost predicate FastHit(nb: int)
      reads this
    {
      nb <= maxFast && 0 <= FastbinIndex(nb) < |fastbins| && fastbins[FastbinIndex(nb)] != []
    }

    ghost predicate Ready()
      reads this
    {
      && Sited() && sz != map[]
      && Laid(mem, sz, start, top, brk, home.Keys)
      && FreeLists(mem, bins, binmap, home, sz)
    }

    /** Makes a and b, chunks or bin headers, neighbours in a list. */
    method Link(a: int, b: int, ghost free: set<int>)
      requires Sited() && Laid(mem, sz, start, top, brk, free)
      requires (a in sz || 0 <= a <= start - 16) && (b in sz || 0 <= b <= start - 16)
      modifies this`mem
      ensures mem == Join(old(mem), a, b) && Touched(old(mem), mem, sz.Keys, start)
      ensures Laid(mem, sz, start, top, brk, free)
      ensures SameBlocks(old(mem), sz, mem, sz, sz.Keys - {a, b})
    {
      JoinLaid(mem, sz, start, top, brk, free, a, b);
      ghost var m0 := mem;
      TouchNothing(m0, sz.Keys, start);
      assert a in sz ==> ChunkAt(sz, start, top, a);
      assert b in sz ==> ChunkAt(sz, start, top, b);
      assert ChunkAt(sz, start, top, top);
      TouchOne(m0, mem, sz.Keys, start, a + 8, b);
      mem := mem[a + 8 := b];
      TouchOne(m0, mem, sz.Keys, start, b + 12, a);
      mem := mem[b + 12 := a];
    }

    /** unlink: the neighbours, read from the chunk itself, are joined; `free` still counts the chunk as free. */
    method Unlink(p: int, ghost free: set<int>)
      requires Sited()
      requires Laid(mem, sz, start, top, brk, free) && home.Keys <= free
      requires FreeLists(mem, bins, binmap, home, sz)
      requires p in home
      modifies this`mem, this`bins, this`home
      ensures Laid(mem, sz, start, top, brk, free)
      ensures FreeLists(mem, bins, binmap, home, sz)
      ensures 1 <= old(home)[p] < NBINS && p in old(bins)[old(home)[p]]
      ensures home == old(home) - {p}
      ensures bins == old(bins)[old(home)[p] := Without(old(bins)[old(home)[p]], p)]
      ensures SameBlocks(old(mem), sz, mem, sz, sz.Keys - free) && Touched(old(mem), mem, sz.Keys, start)
    {
      assert HomeAt(bins, home, sz, p);
      ghost var i := home[p];
      ghost var k := IndexOf(bins[i], p);
      UnlinkRings(mem, bins, home, sz, start, top, brk, p, k);
      NodeOfBin(bins, home, sz, start, top, brk, i, k);
      NodeOfBin(bins, home, sz, start, top, brk, i, k + 2);
      var fd, bk := Fd(mem, p), Bk(mem, p);
      ghost var m0 := mem;
      Link(bk, fd, free);
      NotFree(m0, mem, bk, fd, free);
      UnlinkBinned(bins, home, sz, p, k);
      home := home - {p};
      bins := bins[i := RemoveAt(bins[i], k)];
      forall j {:trigger bins[j]} | 2 <= j < NBINS && !Marked(binmap, j) ensures bins[j] == [] {
        assert old(bins)[j] == [];
      }
    }

    /** Blocks in use keep their contents when only free chunks and headers are linked. */
    lemma NotFree(m0: Mem, m1: Mem, a: int, b: int, free: set<int>)
      requires Laid(m0, sz, start, top, brk, free) && SameBlocks(m0, sz, m1, sz, sz.Keys - {a, b})
      requires (a in free || a + 16 <= start) && (b in free || b + 16 <= start)
      ensures SameBlocks(m0, sz, m1, sz, sz.Keys - free)
    {
      forall p | p in sz.Keys - free ensures SameBlock(m0, sz, m1, sz, p) {
        assert ChunkAt(sz, start, top, p);
        assert p in sz.Keys - {a, b};
      }
    }

    /** Puts a free chunk that is in no list into bin i, between neighbours bck and fwd, at position k. */
    method Thread(i: int, bck: int, fwd: int, victim: int, ghost k: nat, ghost free: set<int>)
      requires Sited()
      requires Laid(mem, sz, start, top, brk, free) && FreeLists(mem, bins, binmap, home, sz)
      requires victim in free && victim in sz && sz[victim] >= MINSIZE && home.Keys == free - {victim}
      requires 1 <= i < NBINS && (i == 1 || (i == BinIndex(sz[victim]) && Marked(binmap, i))) && k <= |bins[i]|
      requires bck == Node(Bin(i), bins[i], k) && fwd == Node(Bin(i), bins[i], k + 1)
      requires i >= NSMALLBINS ==>
        && (forall j {:trigger bins[i][j]} :: 0 <= j < k && bins[i][j] in sz ==> sz[bins[i][j]] >= sz[victim])
        && (forall j {:trigger bins[i][j]} :: k <= j < |bins[i]| && bins[i][j] in sz ==> sz[victim] >= sz[bins[i][j]])
      modifies this`mem, this`bins, this`home
      ensures Laid(mem, sz, start, top, brk, free) && FreeLists(mem, bins, binmap, home, sz)
      ensures home == old(home)[victim := i] && home.Keys == free
      ensures bins == old(bins)[i := InsertAt(old(bins)[i], k, victim)]
      ensures SameBlocks(old(mem), sz, mem, sz, sz.Keys - free) && Touched(old(mem), mem, sz.Keys, start)
    {
      assert AlignedAt(sz, victim) && ChunkAt(sz, start, top, victim);
      NodeOfBin(bins, home, sz, start, top, brk, i, k);
      NodeOfBin(bins, home, sz, start, top, brk, i, k + 1);
      InsertRings(mem, bins, home, sz, start, top, brk, i, k, victim);
      ghost var m0 := mem;
      Link(bck, victim, free);
      ghost var m1 := mem;
      Link(victim, fwd, free);
      TouchTwice(m0, m1, mem, sz.Keys, sz.Keys, start);
      NotFree(m0, m1, bck, victim, free);
      NotFree(m1, mem, victim, fwd, free);
      SameBlocksCompose(m0, sz, m1, sz, mem, sz, sz.Keys - free, sz.Keys - free, sz.Keys - free);
      InsertBinned(bins, home, sz, victim, i, k);
      bins := bins[i := InsertAt(bins[i], k, victim)];
      home := home[victim := i];
      assert home.Keys == free;
      forall j {:trigger bins[j]} | 2 <= j < NBINS && !Marked(binmap, j) ensures bins[j] == [] {
        assert j != i && old(bins)[j] == [];
      }
    }

    /** Puts a free chunk at the front of the unsorted queue. */
    method Enqueue(a: int, ghost free: set<int>)
      requires Sited()
      requires Laid(mem, sz, start, top, brk, free) && FreeLists(mem, bins, binmap, home, sz)
      requires a in free && a in sz && home.Keys == free - {a}
      modifies this`mem, this`bins, this`home
      ensures Ready() && home.Keys == free && bins == old(bins)[1 := [a] + old(bins)[1]]
      ensures SameBlocks(old(mem), sz, mem, sz, sz.Keys - free) && Touched(old(mem), mem, sz.Keys, start)
    {
      assert RingOf(mem, bins, 1) && ChunkAt(sz, start, top, a);
      RingEnds(mem, Bin(1), bins[1]);
      var fwd := Fd(mem, HEADER);
      assert InsertAt(bins[1], 0, a) == [a] + bins[1];
      Thread(1, HEADER, fwd, a, 0, free);
    }

    /** A chunk ends at or below the break. */
    lemma InOrderEnd(p: int)
      requires Sited() && Tiled(sz, start, top, brk) && p in sz
      ensures start <= p < brk && 0 < sz[p] < 0x8000_0000 && p + sz[p] <= brk
    {
      assert ChunkAt(sz, start, top, p) && ChunkAt(sz, start, top, top) && InOrder(sz, p, top);
    }

    /** The tags that the consolidation below top writes. */
    method RetagReleased(p: int, a: int, size: int, next: int, nextsize: int, ghost free: set<int>)
      requires Sited()
      requires Laid(mem, sz, start, top, brk, free) && FreeLists(mem, bins, binmap, home, sz)
      requires p in InUse(sz, top, free) && ReleaseStart(sz, free, p, a)
      requires next == Next(sz, p) && next != top && next in sz && nextsize == sz[next]
      requires home.Keys == free - {a, next} && a + size == ReleaseEnd(sz, free, p)
      modifies this`mem
      ensures mem == ReleaseMem(old(mem), sz, p, a, a + size) && Rings(mem, bins)
      ensures Touched(old(mem), mem, sz.Keys, start)
    {
      ReleaseRange(mem, sz, start, top, brk, free, p, a);
      assert ChunkAt(sz, start, top, a) && ChunkAt(sz, start, top, next) && ChunkAt(sz, start, top, a + size) && ChunkAt(sz, start, top, top);
      ghost var m0 := mem;
      TouchNothing(m0, sz.Keys, start);
      InOrderEnd(next);
      TouchOne(m0, mem, sz.Keys, start, next + 4, nextsize);
      OutsideWrite(mem, bins, home, sz, start, top, brk, p, next + 4, nextsize);
      mem := mem[next + 4 := nextsize];
      TouchOne(m0, mem, sz.Keys, start, a + 4, size + 1);
      OutsideWrite(mem, bins, home, sz, start, top, brk, a, a + 4, size + 1);
      mem := mem[a + 4 := size + 1];
      TouchOne(m0, mem, sz.Keys, start, a + size, size);
      ghost var q := if a + size == next then p else next;
      OutsideWrite(mem, bins, home, sz, start, top, brk, q, a + size, size);
      mem := mem[a + size := size];
    }

    /** The tail of the consolidation below top: write the tags of the fused chunk and queue it. */
    method FinishRelease(p: int, a: int, size: int, next: int, nextsize: int, ghost free: set<int>)
      requires Sited()
      requires Laid(mem, sz, start, top, brk, free) && FreeLists(mem, bins, binmap, home, sz)
      requires p in InUse(sz, top, free) && ReleaseStart(sz, free, p, a)
      requires next == Next(sz, p) && next != top && next in sz && nextsize == sz[next]
      requires home.Keys == free - {a, next} && a + size == ReleaseEnd(sz, free, p)
      modifies this`mem, this`bins, this`home, this`sz
      ensures Ready()
      ensures Used() == InUse(old(sz), top, free) - {p}
      ensures SameBlocks(old(mem), old(sz), mem, sz, InUse(old(sz), top, free) - {p})
      ensures Released(old(sz), free, top, brk, p, sz, home.Keys, top, a)
      ensures sz.Keys <= old(sz).Keys && Touched(old(mem), mem, old(sz).Keys, start)
    {
      ghost var m0, sz0 := mem, sz;
      Release(mem, sz, start, top, brk, free, p, a);
      RetagReleased(p, a, size, next, nextsize, free);
      ghost var free' := free - {next} + {a};
      ghost var sz' := Fuse(sz, a, size);
      forall q {:trigger q in home} | q in home && q in sz ensures q in sz' && sz'[q] == sz[q] {
        assert q in free' && FreeAt(sz', top, free', q);
      }
      BinnedFrame(bins, home, sz, sz');
      sz := sz';
      ghost var m1 := mem;
      Enqueue(a, free');
      TouchTwice(m0, m1, mem, sz0.Keys, sz.Keys, start);
      SameBlocksCompose(m0, sz0, m1, sz, mem, sz, InUse(sz0, top, free) - {p}, sz.Keys - free', InUse(sz0, top, free) - {p});
    }

    /** The other tail: a chunk bordering top becomes part of top. */
    method MergeIntoTop(p: int, a: int, size: int, ghost free: set<int>)
      requires Sited()
      requires Laid(mem, sz, start, top, brk, free) && FreeLists(mem, bins, binmap, home, sz)
      requires p in InUse(sz, top, free) && ReleaseStart(sz, free, p, a) && Next(sz, p) == top
      requires home.Keys == free - {a} && size == brk - a
      modifies this`mem, this`top, this`sz
      ensures Ready()
      ensures Used() == InUse(old(sz), old(top), free) - {p}
      ensures SameBlocks(old(mem), old(sz), mem, sz, InUse(old(sz), old(top), free) - {p})
      ensures Released(old(sz), free, old(top), brk, p, sz, home.Keys, top, a)
      ensures sz.Keys <= old(sz).Keys && Touched(old(mem), mem, old(sz).Keys, start)
    {
      ReleaseIntoTop(mem, sz, start, top, brk, free, p, a);
      assert ChunkAt(sz, start, top, a);
      OutsideWrite(mem, bins, home, sz, start, top, brk, a, a + 4, size + 1);
      InOrderEnd(a);
      TouchNothing(mem, sz.Keys, start);
      TouchOne(mem, mem, sz.Keys, start, a + 4, size + 1);
      ghost var sz' := Fuse(sz, a, size);
      mem := mem[a + 4 := size + 1];
      forall q {:trigger q in home} | q in home && q in sz ensures q in sz' && sz'[q] == sz[q] {
        assert q in free - {a} && FreeAt(sz', a, free - {a}, q);
      }
      BinnedFrame(bins, home, sz, sz');
      sz := sz';
      top := a;
    }

    /**
      The consolidation shared by fREe and malloc_consolidate: p is fused with free neighbours and queued
      as unsorted, or merged into top. Every other chunk in use keeps its extent and its contents.
     */
    method ReleaseChunk(p: int) returns (size: int, ghost at: int)
      requires Ready() && p in Used()
      modifies this`mem, this`bins, this`home, this`top, this`sz
      ensures Ready()
      ensures Used() == old(Used()) - {p}
      ensures Released(old(sz), old(home.Keys), old(top), brk, p, sz, home.Keys, top, at)
      ensures size == FusedEnd(old(sz), old(home.Keys), old(top), brk, p) - at
      ensures SameBlocks(old(mem), old(sz), mem, sz, old(Used()) - {p})
      ensures sz.Keys <= old(sz).Keys && Touched(old(mem), mem, old(sz).Keys, start)
    {
      ghost var free := home.Keys;
      ghost var m0, sz0 := mem, sz;
      ghost var used := Used();
      ReadTag(mem, sz, start, top, brk, free, p);
      size := ChunkSize(Head(mem, p));
      var next := p + size;
      assert next == Next(sz, p);
      ReadInuse(mem, sz, start, top, brk, free, p);
      ReadTag(mem, sz, start, top, brk, free, next);
      var nextsize := ChunkSize(Head(mem, next));
      var a := p;
      TouchNothing(m0, sz.Keys, start);
      if !PrevInuse(mem, p) {
        var prevsize := Load(mem, p);
        size := size + prevsize;
        a := p - prevsize;
        Unlink(a, free);
      }
      assert ReleaseStart(sz, free, p, a);
      assert home.Keys == free - {a};
      at := a;
      assert ChunkAt(sz, start, top, p) && ChunkAt(sz, start, top, a) && a < next;
      ghost var m1 := mem;
      if next != top {
        ReadInuse(mem, sz, start, top, brk, free, next);
        var nextinuse := PrevInuse(mem, next + nextsize);
        if !nextinuse {
          Unlink(next, free);
          size := size + nextsize;
        }
        ghost var m2 := mem;
        SameBlocksCompose(m0, sz0, m1, sz0, m2, sz0, sz.Keys - free, sz.Keys - free, sz.Keys - free);
        if m2 != m1 { TouchTwice(m0, m1, m2, sz0.Keys, sz0.Keys, start); }
        FinishRelease(p, a, size, next, nextsize, free);
        TouchTwice(m0, m2, mem, sz0.Keys, sz0.Keys, start);
        SameBlocksCompose(m0, sz0, m2, sz0, mem, sz, sz0.Keys - free, used - {p}, used - {p});
      } else {
        size := size + nextsize;
        MergeIntoTop(p, a, size, free);
        TouchTwice(m0, m1, mem, sz0.Keys, sz0.Keys, start);
        SameBlocksCompose(m0, sz0, m1, sz0, mem, sz, sz0.Keys - free, used - {p}, used - {p});
      }
    }

    // -------------------------------------------------------------- taking chunks

    /**
      Hands out nb bytes of a free chunk that has just been unlinked: the whole chunk if the rest would be
      too small to stand alone, otherwise its low part, the rest becoming the only unsorted chunk.
     */
    method Carve(victim: int, size: int, nb: int, remember: bool, ghost free: set<int>)
      requires Sited()
      requires Laid(mem, sz, start, top, brk, free) && FreeLists(mem, bins, binmap, home, sz)
      requires victim in free && victim in sz && home.Keys == free - {victim}
      requires size == sz[victim] && MINSIZE <= nb <= size && nb % 8 == 0
      requires size - nb >= MINSIZE ==> bins[1] == []
      modifies this`mem, this`bins, this`home, this`sz, this`lastRemainder
      ensures Ready()
      ensures Granted(old(mem), old(sz), InUse(old(sz), top, free), mem, sz, Used(), victim, nb)
      ensures sz[victim] < nb + MINSIZE
      ensures lastRemainder == if remember && size - nb >= MINSIZE then victim + nb else old(lastRemainder)
    {
      if size - nb < MINSIZE {
        Exhaust(mem, sz, start, top, brk, free, victim);
        var w := Head(mem, victim + size);
        OutsideWrite(mem, bins, home, sz, start, top, brk, victim, victim + size + 4, w - w % 2 + 1);
        mem := mem[victim + size + 4 := w - w % 2 + 1];
      } else {
        SplitVictim(victim, size, nb, free);
        if remember { lastRemainder := victim + nb; }
      }
    }

    method SplitVictim(victim: int, size: int, nb: int, ghost free: set<int>)
      requires Sited()
      requires Laid(mem, sz, start, top, brk, free) && FreeLists(mem, bins, binmap, home, sz)
      requires victim in free && victim in sz && home.Keys == free - {victim}
      requires size == sz[victim] && MINSIZE <= nb && nb % 8 == 0 && size - nb >= MINSIZE
      requires bins[1] == []
      modifies this`mem, this`bins, this`home, this`sz
      ensures Ready()
      ensures Granted(old(mem), old(sz), InUse(old(sz), top, free), mem, sz, Used(), victim, nb)
      ensures sz[victim] == nb
    {
      ghost var m0, sz0 := mem, sz;
      ghost var used := InUse(sz, top, free);
      CarveFree(mem, sz, start, top, brk, free, victim, nb);
      assert ChunkAt(sz, start, top, victim);
      var remainder := victim + nb;
      OutsideWrite(mem, bins, home, sz, start, top, brk, victim, victim + 4, nb + 1);
      mem := mem[victim + 4 := nb + 1];
      OutsideWrite(mem, bins, home, sz, start, top, brk, victim, remainder + 4, size - nb + 1);
      mem := mem[remainder + 4 := size - nb + 1];
      OutsideWrite(mem, bins, home, sz, start, top, brk, victim, victim + size, size - nb);
      mem := mem[victim + size := size - nb];
      assert mem == CarveFreeMem(m0, victim, size, nb);
      ghost var free' := free - {victim} + {remainder};
      assert remainder !in free by {
        assert remainder in free ==> FreeAt(sz, top, free, remainder);
      }
      BinnedFrame(bins, home, sz, Split(sz, victim, nb));
      sz := Split(sz, victim, nb);
      ghost var m1 := mem;
      Enqueue(remainder, free');
      SameBlocksCompose(m0, sz0, m1, sz, mem, sz, used, sz.Keys - free', used);
    }

    /** use_top: splits nb bytes off the low end of top. */
    method CarveFromTop(nb: int) returns (p: int)
      requires Ready() && MINSIZE <= nb && nb % 8 == 0 && sz[top] >= nb + MINSIZE
      modifies this`mem, this`top, this`sz
      ensures Ready()
      ensures p != HEADER && Granted(old(mem), old(sz), old(Used()), mem, sz, Used(), p, nb)
      ensures sz[p] == nb && brk == old(brk) && p == old(top)
    {
      p := top;
      ReadTag(mem, sz, start, top, brk, home.Keys, top);
      assert ChunkAt(sz, start, top, top);
      var size := ChunkSize(Head(mem, p));
      CarveTop(mem, sz, start, top, brk, home.Keys, nb);
      ghost var m0 := mem;
      assert top in home ==> FreeAt(sz, top, home.Keys, top);
      OutsideWrite(mem, bins, home, sz, start, top, brk, top, p + 4, nb + 1);
      mem := mem[p + 4 := nb + 1];
      OutsideWrite(mem, bins, home, sz, start, top, brk, top, p + nb + 4, size - nb + 1);
      mem := mem[p + nb + 4 := size - nb + 1];
      assert mem == CarveTopMem(m0, p, size, nb);
      forall q {:trigger q in home} | q in home && q in sz ensures q in Split(sz, top, nb) && Split(sz, top, nb)[q] == sz[q] {
        assert FreeAt(sz, top, home.Keys, q);
      }
      BinnedFrame(bins, home, sz, Split(sz, top, nb));
      sz := Split(sz, top, nb);
      top := top + nb;
    }

    // -------------------------------------------------------------- binning and searching

    /** The chunks of a bin, and where their links lead. */
    lemma BinFacts(i: int, free: set<int>, k: nat)
      requires Sited() && Laid(mem, sz, start, top, brk, free) && home.Keys <= free
      requires FreeLists(mem, bins, binmap, home, sz) && 1 <= i < NBINS
      ensures Fd(mem, Bin(i)) == Node(Bin(i), bins[i], 1) && Bk(mem, Bin(i)) == Node(Bin(i), bins[i], |bins[i]|)
      ensures bins[i] != [] ==> bins[i][0] != Bin(i) && bins[i][|bins[i]| - 1] != Bin(i)
      ensures k < |bins[i]| ==>
        && bins[i][k] in home && home[bins[i][k]] == i && bins[i][k] in sz && bins[i][k] >= start
        && Head(mem, bins[i][k]) == sz[bins[i][k]] + 1 && ChunkSize(Head(mem, bins[i][k])) == sz[bins[i][k]] >= MINSIZE
        && Fd(mem, bins[i][k]) == Node(Bin(i), bins[i], k + 2) && Bk(mem, bins[i][k]) == Node(Bin(i), bins[i], k)
    {
      var s := bins[i];
      assert RingOf(mem, bins, i) && BinAt(bins, home, sz, i);
      RingEnds(mem, Bin(i), s);
      BinProper(bins, home, sz, start, top, brk, i);
      assert s != [] ==> s[0] in s && s[|s| - 1] in s;
      if k < |s| {
        assert s[k] in bins[i] && HomeAt(bins, home, sz, s[k]) && ChunkAt(sz, start, top, s[k]);
        FreeHead(mem, sz, start, top, brk, free, s[k]);
        RingNeighbours(mem, Bin(i), s, k);
      }
    }

    /** The neighbours of a place in a large bin that keeps it sorted, largest first; raw size words are compared. */
    method SortedPosition(i: int, size: int, ghost free: set<int>) returns (bck: int, fwd: int, ghost k: nat)
      requires Sited() && Laid(mem, sz, start, top, brk, free) && home.Keys <= free
      requires FreeLists(mem, bins, binmap, home, sz) && NSMALLBINS <= i < NBINS
      ensures Fd(mem, bck) == fwd && Bk(mem, fwd) == bck
      ensures k <= |bins[i]| && bck == Node(Bin(i), bins[i], k) && fwd == Node(Bin(i), bins[i], k + 1)
      ensures forall j {:trigger bins[i][j]} :: 0 <= j < k && bins[i][j] in sz ==>
        sz[bins[i][j]] > size || (k == |bins[i]| && sz[bins[i][j]] == size)
      ensures forall j {:trigger bins[i][j]} :: k <= j < |bins[i]| && bins[i][j] in sz ==> size >= sz[bins[i][j]]
      ensures bins[i] != [] && bins[i][|bins[i]| - 1] in sz && sz[bins[i][|bins[i]| - 1]] >= size ==> k == |bins[i]|
    {
      ghost var s := bins[i];
      assert BinAt(bins, home, sz, i);
      BinFacts(i, free, |s|);
      bck, k := Bin(i), 0;
      fwd := Fd(mem, bck);
      if fwd != bck {
        BinFacts(i, free, |s| - 1);
        if size < Head(mem, Bk(mem, bck)) {
          fwd, bck, k := bck, Bk(mem, bck), |s|;
        } else {
          assert s[|s| - 1] in sz && sz[s[|s| - 1]] < size;
          BinFacts(i, free, 0);
          while size + 1 < Head(mem, fwd)
            invariant k < |s| && fwd == s[k] && s[k] in sz && Head(mem, fwd) == sz[fwd] + 1
            invariant forall j {:trigger s[j]} :: 0 <= j < k && s[j] in sz ==> sz[s[j]] > size
            decreases |s| - k
          {
            BinFacts(i, free, k);
            assert k < |s| - 1;
            BinFacts(i, free, k + 1);
            fwd, k := Fd(mem, fwd), k + 1;
          }
          BinFacts(i, free, k);
          bck := Bk(mem, fwd);
        }
      }
      assert RingOf(mem, bins, i) && RingAt(mem, Bin(i), s, k);
    }

    /** Places an unlinked free chunk in the bin of its size. */
    method Place(victim: int, size: int, ghost free: set<int>) returns (ghost at: nat)
      requires Sited() && size >= MINSIZE
      requires Laid(mem, sz, start, top, brk, free) && FreeLists(mem, bins, binmap, home, sz)
      requires victim in free && victim in sz && home.Keys == free - {victim} && size == sz[victim]
      modifies this`mem, this`bins, this`binmap, this`home
      ensures Laid(mem, sz, start, top, brk, free) && FreeLists(mem, bins, binmap, home, sz) && home.Keys == free
      ensures 2 <= BinIndex(size) < NBINS && at <= |old(bins)[BinIndex(size)]|
      ensures bins == old(bins)[BinIndex(size) := InsertAt(old(bins)[BinIndex(size)], at, victim)]
      ensures InSmallbinRange(size) ==> at == 0
      ensures SameBlocks(old(mem), sz, mem, sz, sz.Keys - free)
    {
      BinIndexMonotone(size, size);
      var i := BinIndex(size);
      ghost var k := 0;
      var bck := Bin(i);
      BinFacts(i, free, 0);
      var fwd := Fd(mem, bck);
      if !InSmallbinRange(size) {
        bck, fwd, k := SortedPosition(i, size, free);
      }
      MarkCorrect(binmap, i);
      binmap := Mark(binmap, i);
      Thread(i, bck, fwd, victim, k, free);
      at := k;
    }

    /**
      Processes the unsorted queue, oldest chunk first: takes an exact fit, or splits the last remainder
      for a small request when it is alone in the queue; everything else goes to its bin.
     */
    method DrainUnsorted(nb: int) returns (p: int)
      requires Ready() && MINSIZE <= nb && nb % 8 == 0
      requires InSmallbinRange(nb) ==> bins[BinIndex(nb)] == []
      modifies this`mem, this`bins, this`binmap, this`home, this`sz, this`lastRemainder
      ensures Ready()
      ensures p != HEADER ==> Granted(old(mem), old(sz), old(Used()), mem, sz, Used(), p, nb) && sz[p] < nb + MINSIZE
      ensures p != HEADER ==> Picked(old(Seen()), nb, p) && !NoFit(old(Seen()), nb)
      ensures p != HEADER ==> lastRemainder == RemainderAfter(old(Seen()), nb, p)
      ensures p == HEADER ==>
        && bins[1] == [] && sz == old(sz) && home.Keys == old(home.Keys) && lastRemainder == old(lastRemainder)
        && (InSmallbinRange(nb) ==> bins[BinIndex(nb)] == [])
        && Untouched(old(mem), old(sz), old(Used()), mem, sz, Used())
    {
      ghost var free, used := home.Keys, Used();
      ghost var m0, sz0 := mem, sz;
      p := HEADER;
      forall q | q in used ensures SameBlock(m0, sz0, mem, sz, q) {}
      BinFacts(1, free, 0);
      var victim := Bk(mem, HEADER);
      while victim != HEADER
        invariant Ready() && sz == sz0 && home.Keys == free && lastRemainder == old(lastRemainder)
        invariant victim == Node(HEADER, bins[1], |bins[1]|) && (victim == HEADER <==> bins[1] == [])
        invariant InSmallbinRange(nb) ==> bins[BinIndex(nb)] == []
        invariant SameBlocks(m0, sz0, mem, sz, used)
        decreases |bins[1]|
      {
        ghost var m1 := mem;
        var taken := DrainOne(victim, nb);
        SameBlocksCompose(m0, sz0, m1, sz0, mem, sz, used, used, used);
        if taken { return victim; }
        BinFacts(1, free, 0);
        victim := Bk(mem, HEADER);
      }
    }

    /** An exact fit is a smallest one; and when the last remainder is alone in the queue, there is no exact fit. */
    lemma PickedFromQueue(victim: int, size: int, nb: int)
      requires Ready() && MINSIZE <= nb && bins[1] != [] && victim == bins[1][|bins[1]| - 1] && victim in sz && sz[victim] == size
      requires victim in home && (InSmallbinRange(nb) ==> bins[BinIndex(nb)] == [])
      requires size == nb || (InSmallbinRange(nb) && |bins[1]| == 1 && victim == lastRemainder && size > nb + MINSIZE)
      ensures Picked(Seen(), nb, victim) && !NoFit(Seen(), nb)
    {
      var v := Seen();
      assert victim in v.free && v.sz[victim] >= nb;
      if size != nb {
        forall q {:trigger q in v.free} | q in v.free && q in v.sz ensures v.sz[q] != nb {
          assert q in home && HomeAt(bins, home, sz, q);
          assert home[q] == 1 ==> q == victim;
        }
      }
    }

    /** One turn: the oldest chunk of the queue is taken for the request or put in its bin. */
    method DrainOne(victim: int, nb: int) returns (taken: bool)
      requires Ready() && MINSIZE <= nb && nb % 8 == 0 && bins[1] != [] && victim == bins[1][|bins[1]| - 1]
      requires InSmallbinRange(nb) ==> bins[BinIndex(nb)] == []
      modifies this`mem, this`bins, this`binmap, this`home, this`sz, this`lastRemainder
      ensures Ready()
      ensures taken ==>
        && Granted(old(mem), old(sz), old(Used()), mem, sz, Used(), victim, nb) && sz[victim] < nb + MINSIZE
        && Picked(old(Seen()), nb, victim) && !NoFit(old(Seen()), nb)
        && lastRemainder == RemainderAfter(old(Seen()), nb, victim)
      ensures !taken ==>
        && sz == old(sz) && home.Keys == old(home.Keys) && lastRemainder == old(lastRemainder)
        && bins[1] == old(bins)[1][..|old(bins)[1]| - 1] && (InSmallbinRange(nb) ==> bins[BinIndex(nb)] == [])
        && Untouched(old(mem), old(sz), old(Used()), mem, sz, Used())
    {
      ghost var free, used, s := home.Keys, Used(), bins[1];
      ghost var m0, sz0 := mem, sz;
      BinFacts(1, free, |s| - 1);
      assert BinAt(bins, home, sz, 1) && AlignedAt(sz, victim);
      var bck := Bk(mem, victim);
      assert bck == HEADER <==> |s| == 1 by { assert |s| > 1 ==> s[|s| - 2] in s; BinProper(bins, home, sz, start, top, brk, 1); }
      var size := ChunkSize(Head(mem, victim));
      taken := size == nb || (InSmallbinRange(nb) && bck == HEADER && victim == lastRemainder && size > nb + MINSIZE);
      if taken { PickedFromQueue(victim, size, nb); }
      LastOut(s, victim);
      Unlink(victim, free);
      ghost var m1 := mem;
      if taken {
        Carve(victim, size, nb, true, free);
      } else {
        var _ := Place(victim, size, free);
        if InSmallbinRange(nb) && BinIndex(size) == BinIndex(nb) {
          SmallBinHoldsOneSize(size, nb);
        }
      }
      SameBlocksCompose(m0, sz0, m1, sz0, mem, sz, sz0.Keys - free, used, used);
    }

    /** A large request scans its own bin from the back; the first chunk that fits is the best one anywhere. */
    method SearchOwnBin(nb: int) returns (p: int)
      requires Ready() && nb >= MIN_LARGE_SIZE && nb % 8 == 0 && bins[1] == []
      modifies this`mem, this`bins, this`home, this`sz, this`lastRemainder
      ensures Ready()
      ensures p != HEADER ==>
        && BestFit(old(sz), old(home), nb, p)
        && Granted(old(mem), old(sz), old(Used()), mem, sz, Used(), p, nb) && sz[p] < nb + MINSIZE
      ensures lastRemainder == old(lastRemainder)
      ensures p == HEADER ==> unchanged(this) && OwnBinTooSmall(bins, sz, nb)
    {
      ghost var free := home.Keys;
      BinIndexMonotone(nb, nb);
      var i := BinIndex(nb);
      BinFacts(i, free, 0);
      var victim := Bk(mem, Bin(i));
      ghost var k := |bins[i]|;
      while victim != Bin(i)
        invariant unchanged(this) && 0 <= k <= |bins[i]| && victim == Node(Bin(i), bins[i], k) && (victim == Bin(i) <==> k == 0)
        invariant forall j {:trigger bins[i][j]} :: k <= j < |bins[i]| && bins[i][j] in sz ==> sz[bins[i][j]] < nb
        decreases k
      {
        BinFacts(i, free, k - 1);
        var size := ChunkSize(Head(mem, victim));
        if size >= nb {
          OwnBinBestFit(bins, home, sz, nb, k - 1);
          p := TakeFrom(i, victim, size, nb, false);
          return;
        }
        assert k >= 2 ==> bins[i][k - 2] in bins[i];
        BinProper(bins, home, sz, start, top, brk, i);
        victim, k := Bk(mem, victim), k - 1;
      }
      assert OwnBinTooSmall(bins, sz, nb) by {
        forall q {:trigger q in bins[i]} | q in bins[i] && q in sz ensures sz[q] < nb { var j := IndexOf(bins[i], q); }
      }
      p := HEADER;
    }

    /** Unlinks a chunk of bin i that fits and carves the request out of it. */
    method TakeFrom(ghost i: int, victim: int, size: int, nb: int, remember: bool) returns (p: int)
      requires Ready() && 2 <= i < NBINS && bins[1] == [] && nb >= MINSIZE && nb % 8 == 0
      requires victim in home && home[victim] == i && victim in sz && size == sz[victim] >= nb
      modifies this`mem, this`bins, this`home, this`sz, this`lastRemainder
      ensures Ready() && p == victim && p != HEADER
      ensures Granted(old(mem), old(sz), old(Used()), mem, sz, Used(), p, nb) && sz[p] < nb + MINSIZE
      ensures lastRemainder == if remember && size - nb >= MINSIZE then victim + nb else old(lastRemainder)
    {
      ghost var m0, sz0 := mem, sz;
      ghost var free, used := home.Keys, Used();
      assert ChunkAt(sz, start, top, victim);
      Unlink(victim, free);
      ghost var m1 := mem;
      Carve(victim, size, nb, remember, free);
      SameBlocksCompose(m0, sz0, m1, sz0, mem, sz, sz0.Keys - free, used, used);
      p := victim;
    }

    /**
      The bitmap-guided search over the bins above the request's own: it finds a best fit exactly when a
      linear scan would, skipping whole words of empty bins and clearing bits of bins it finds empty.
     */
    method SearchBitmap(nb: int) returns (p: int)
      requires Ready() && nb >= MINSIZE && nb % 8 == 0 && bins[1] == [] && OwnBinTooSmall(bins, sz, nb)
      modifies this`mem, this`bins, this`binmap, this`home, this`sz, this`lastRemainder
      ensures Ready()
      ensures p != HEADER ==>
        && BestFit(old(sz), old(home), nb, p)
        && Granted(old(mem), old(sz), old(Used()), mem, sz, Used(), p, nb) && sz[p] < nb + MINSIZE
      ensures p != HEADER ==> lastRemainder == RemainderAfter(old(Seen()), nb, p)
      ensures p == HEADER ==> NoneFits(sz, home, nb)
      ensures p == HEADER ==>
        mem == old(mem) && sz == old(sz) && home == old(home) && bins == old(bins) && lastRemainder == old(lastRemainder)
    {
      BinIndexMonotone(nb, nb);
      var i := FirstNonEmpty(BinIndex(nb) + 1);
      if i == NBINS {
        NoBinLeft(bins, home, sz, nb);
        p := HEADER;
      } else {
        FirstBinIsBestFit(bins, home, sz, nb, i);
        p := TakeLast(i, nb);
      }
    }

    /** Unlinks the last chunk of bin i and carves the request out of it. */
    method TakeLast(i: int, nb: int) returns (p: int)
      requires Ready() && 2 <= i < NBINS && bins[i] != [] && bins[1] == [] && nb >= MINSIZE && nb % 8 == 0
      requires BestFit(sz, home, nb, bins[i][|bins[i]| - 1])
      modifies this`mem, this`bins, this`home, this`sz, this`lastRemainder
      ensures Ready()
      ensures p == old(bins[i][|bins[i]| - 1]) != HEADER
      ensures Granted(old(mem), old(sz), old(Used()), mem, sz, Used(), p, nb) && sz[p] < nb + MINSIZE
      ensures lastRemainder == old(RemainderAfter(Seen(), nb, bins[i][|bins[i]| - 1]))
    {
      BinFacts(i, home.Keys, |bins[i]| - 1);
      var victim := Bk(mem, Bin(i));
      p := TakeFrom(i, victim, ChunkSize(Head(mem, victim)), nb, InSmallbinRange(nb));
    }

    /** last(b) == b: the bin is empty. */
    method IsEmpty(i: int) returns (b: bool)
      requires Ready() && 1 <= i < NBINS
      ensures b <==> bins[i] == []
    {
      BinFacts(i, home.Keys, 0);
      b := Bk(mem, Bin(i)) == Bin(i);
    }

    /**
      The first non-empty bin from index `from` on, or NBINS. `block` is the bitmap word, `k` the position
      of the single bit the C code keeps in `bit` (k == 32 stands for the bit shifted out, bit == 0).
     */
    method FirstNonEmpty(from: nat) returns (i: nat)
      requires Ready() && 2 < from <= NBINS
      modifies this`binmap
      ensures Ready()
      ensures from <= i <= NBINS && (i < NBINS ==> bins[i] != [])
      ensures forall j {:trigger bins[j]} :: from <= j < i ==> bins[j] == []
    {
      i := from;
      var block := i / 32;
      var k := i % 32;
      while true
        invariant Ready()
        invariant 0 <= block <= BINMAPSIZE && 0 <= k <= 32 && i == 32 * block + k && from <= i
        invariant block == BINMAPSIZE ==> k == 0
        invariant forall j {:trigger bins[j]} :: from <= j < i ==> bins[j] == []
        decreases BINMAPSIZE - block, 32 - k
      {
        block, k := NextMarked(i, block, k);
        i := 32 * block + k;
        if block == BINMAPSIZE { return; }
        var empty := IsEmpty(i);
        if !empty { return; }
        UnmarkCorrect(binmap, i);
        binmap := Unmark(binmap, i);
        i, k := i + 1, k + 1;
      }
    }

    /** The next marked bin, or the end of the map: bins passed over are empty. */
    method NextMarked(i: nat, block: nat, k: nat) returns (block': nat, k': nat)
      requires MapSound(bins, binmap) && 2 < i
      requires block <= BINMAPSIZE && k <= 32 && i == 32 * block + k && (block == BINMAPSIZE ==> k == 0)
      ensures block <= block' <= BINMAPSIZE && (block' == BINMAPSIZE ==> k' == 0) && k' < 32 && i <= 32 * block' + k'
      ensures forall j {:trigger bins[j]} :: i <= j < 32 * block' + k' ==> bins[j] == []
    {
      block', k' := block, k;
      Pow2Word();
      if k == 32 || Pow2(k) > binmap[block] {
        block' := SkipWords(binmap, block, k);
        k' := 0;
        forall j {:trigger bins[j]} | i <= j < 32 * block' && j < NBINS ensures bins[j] == [] {
          assert !Marked(binmap, j);
        }
        if block' == BINMAPSIZE { return; }
      }
      ghost var from, k0 := 32 * block' + k', k';
      k' := AdvanceToBit(binmap[block'], k');
      forall j {:trigger bins[j]} | from <= j < 32 * block' + k' ensures bins[j] == [] {
        WordAndBit(block', j - 32 * block');
        assert !Marked(binmap, j);
      }
    }

    // -------------------------------------------------------------- the allocator's invariant

    /**
      do_check_malloc_state, and more: the heap is laid out, the free lists and fastbins are sound, and the
      flag bits of max_fast never hide a chunk. Before the first extension there is no chunk at all.
     */
    ghost predicate Valid()
      reads this
    {
      && STATIC <= memHeap <= brk <= limit < 0x8000_0000 && start == AlignUp(memHeap)
      && (memHeap % 8 == 0 || limit % PAGE == 0)
      && maxFast in {0, 72, 73, 75}
      && Binned(bins, home, sz) && MapSound(bins, binmap) && Fast(fastbins, sz, Used()) && Chains(mem, heads, fastbins)
      && (maxFast == 0 ==> forall i {:trigger bins[i]} :: 0 <= i < NBINS ==> bins[i] == [])
      && (maxFast != 0 ==> Rings(mem, bins))
      && fastbins[8] == [] && fastbins[9] == []
      && (maxFast != 75 ==> FastEmpty(fastbins))
      && (maxFast % 2 == 0 ==> home == map[])
      && (if sz == map[] then
            && home == map[] && brk == memHeap && maxFast % 2 == 0
            && (maxFast != 0 ==> top == HEADER) && Head(mem, HEADER) == 0
          else maxFast != 0 && Laid(mem, sz, start, top, brk, home.Keys))
    }

    /** The zero-filled state. A start that is not aligned needs an area that ends on a page boundary. */
    constructor (memHeap: int, memHeapEnd: int)
      requires STATIC <= memHeap <= memHeapEnd < 0x8000_0000 && (memHeap % 8 == 0 || memHeapEnd % PAGE == 0)
      ensures Valid() && Live() == {} && this.memHeap == memHeap && limit == memHeapEnd
      ensures sz == map[] && mem == map[] && lastRemainder == 0
    {
      this.memHeap, start, limit, brk := memHeap, AlignUp(memHeap), memHeapEnd, memHeap;
      mem, maxFast, top, lastRemainder := map[], 0, 0, 0;
      heads := seq(NFASTBINS, _ => 0);
      fastbins := seq(NFASTBINS, _ => []);
      bins := seq(NBINS, _ => []);
      binmap := [0, 0, 0, 0];
      sz, home := map[], map[];
      new;
      EmptyFast(fastbins, sz, Used());
      forall i | 0 <= i < NBINS ensures BinAt(bins, home, sz, i) {}
      forall i | 0 <= i < NFASTBINS ensures ChainOf(mem, heads, fastbins, i) {}
    }

    /** malloc_init_state: every bin header points to itself, and top to the unsorted header. */
    method InitState()
      requires Valid() && maxFast == 0
      modifies this`mem, this`top, this`maxFast
      ensures Valid() && maxFast == 72 && FastEmpty(fastbins) && Touched(old(mem), mem, sz.Keys, start)
    {
      ghost var m0 := mem;
      TouchNothing(m0, sz.Keys, start);
      var i := 1;
      while i < NBINS
        invariant 1 <= i <= NBINS && Head(mem, HEADER) == 0 && Touched(m0, mem, sz.Keys, start)
        invariant forall j {:trigger Bin(j)} :: 1 <= j < i ==> Fd(mem, Bin(j)) == Bin(j) && Bk(mem, Bin(j)) == Bin(j)
      {
        TouchOne(m0, mem, sz.Keys, start, Bin(i) + 8, Bin(i));
        mem := mem[Bin(i) + 8 := Bin(i)];
        TouchOne(m0, mem, sz.Keys, start, Bin(i) + 12, Bin(i));
        mem := mem[Bin(i) + 12 := Bin(i)];
        i := i + 1;
      }
      EmptyRings(mem, bins);
      EmptyChains(m0, mem, heads, fastbins);
      top := HEADER;
      maxFast := Request2Size(64);
    }

    /** The bins and fastbins as the stored words give them: following the links visits exactly the lists. */
    lemma ListsInMemory(i: int, k: nat)
      requires Valid() && maxFast != 0
      ensures 1 <= i < NBINS && k <= |bins[i]| + 1 ==>
        && Forward(mem, Bin(i), k) == Node(Bin(i), bins[i], k)
        && Backward(mem, Bin(i), k) == Node(Bin(i), bins[i], |bins[i]| + 1 - k)
      ensures 0 <= i < NFASTBINS && k <= |fastbins[i]| ==>
        Forward(mem, heads[i], k) == if k < |fastbins[i]| then fastbins[i][k] else 0
    {
      if 1 <= i < NBINS && k <= |bins[i]| + 1 {
        assert RingOf(mem, bins, i);
        RingWalk(mem, Bin(i), bins[i], k);
      }
      if 0 <= i < NFASTBINS && k <= |fastbins[i]| {
        assert ChainOf(mem, heads, fastbins, i);
        ChainWalk(mem, heads[i], fastbins[i], k);
      }
    }

    /** sbrk of this system: moves the break up within the area, refuses everything else. */
    method Sbrk(diff: int) returns (s: int)
      requires brk <= limit
      modifies this`brk
      ensures brk <= limit
      ensures if 0 <= diff <= limit - old(brk) then s == old(brk) && brk == old(brk) + diff
              else s == -1 && brk == old(brk)
    {
      var c := brk + diff;
      if c < brk || c > limit { return -1; }
      s := brk;
      brk := c;
    }

    /** sYSTRIm: since sbrk refuses negative amounts, trimming never gives memory back. */
    method Trim() returns (released: int)
      requires Valid() && sz != map[]
      modifies this`brk
      ensures released == 0 && brk == old(brk)
    {
      released := 0;
      ReadTag(mem, sz, start, top, brk, home.Keys, top);
      var topSize := ChunkSize(Head(mem, top));
      var extra := ((topSize - MINSIZE + (PAGE - 1)) / PAGE - 1) * PAGE;
      if extra > 0 {
        var currentBrk := Sbrk(0);
        if currentBrk == top + topSize {
          var _ := Sbrk(-extra);
          var newBrk := Sbrk(0);
          released := currentBrk - newBrk;
        }
      }
    }

    /** One fastbin of malloc_consolidate: detaches the list, then releases its chunks one after another. */
    method ConsolidateBin(i: int)
      requires Ready() && Fast(fastbins, sz, Used()) && Chains(mem, heads, fastbins) && 0 <= i < NFASTBINS
      modifies this`mem, this`bins, this`home, this`top, this`sz, this`fastbins, this`heads
      ensures Ready() && Fast(fastbins, sz, Used()) && Chains(mem, heads, fastbins)
      ensures fastbins == old(fastbins)[i := []]
      ensures Live() == old(Live())
      ensures SameBlocks(old(mem), old(sz), mem, sz, old(Live()))
      ensures sz.Keys <= old(sz).Keys && Touched(old(mem), mem, old(sz).Keys, start)
    {
      ghost var m0, sz0, live0 := mem, sz, Live();
      TouchNothing(m0, sz.Keys, start);
      HeadIsChunk(i);
      var p := heads[i];
      ghost var chain := fastbins[i];
      ghost var fast0, heads0 := fastbins, heads;
      heads := heads[i := 0];
      fastbins := fastbins[i := []];
      assert fastbins[i := chain] == fast0 && heads[i := p] == heads0;
      assert ChainOf(mem, heads0, fast0, i) && FastAt(fast0, sz, Used(), i);
      forall q | q in live0 ensures SameBlock(m0, sz0, mem, sz, q) {}
      while p != 0
        invariant Ready() && fastbins == fast0[i := []] && heads == heads0[i := 0]
        invariant Fast(fastbins[i := chain], sz, Used()) && Chains(mem, heads[i := p], fastbins[i := chain])
        invariant p == 0 <==> chain == []
        invariant LiveSet(Used(), fastbins[i := chain]) == live0
        invariant SameBlocks(m0, sz0, mem, sz, live0)
        invariant sz.Keys <= sz0.Keys && Touched(m0, mem, sz0.Keys, start)
        decreases |chain|
      {
        ghost var m1, sz1, used1 := mem, sz, Used();
        ghost var rest := fastbins[i := chain[1..]];
        var nextp := Fd(mem, p);
        NextInChain(i, p, nextp, chain);
        assert fastbins[i := chain][i := chain[1..]] == rest;
        FastPop(fastbins[i := chain], sz, used1, i);
        var _, _ := ReleaseChunk(p);
        TouchTwice(m0, m1, mem, sz0.Keys, sz1.Keys, start);
        ChainsFrame(m1, sz1, mem, sz, heads[i := nextp], rest, used1 - {p});
        assert forall q {:trigger q in used1 - {p}} :: q in used1 - {p} ==> SameBlock(m1, sz1, mem, sz, q);
        FastFrame(rest, sz1, used1 - {p}, sz, Used());
        SameBlocksCompose(m0, sz0, m1, sz1, mem, sz, live0, used1 - {p}, live0);
        chain := chain[1..];
        p := nextp;
      }
      assert fastbins[i := []] == fastbins && heads[i := 0] == heads;
    }

    /** The head of the chain is its first chunk, and the word it stores leads to the rest. */
    lemma NextInChain(i: int, p: int, nextp: int, chain: seq<int>)
      requires Ready() && 0 <= i < NFASTBINS && |heads| == |fastbins| == NFASTBINS && chain != []
      requires Fast(fastbins[i := chain], sz, Used()) && Chains(mem, heads[i := p], fastbins[i := chain]) && nextp == Fd(mem, p)
      ensures p == chain[0] && p >= STATIC && Chains(mem, heads[i := nextp], fastbins[i := chain[1..]])
      ensures nextp == 0 <==> chain[1..] == []
    {
      var hs, fs := heads[i := p], fastbins[i := chain];
      assert ChainOf(mem, hs, fs, i) && FastAt(fs, sz, Used(), i);
      ChainPop(mem, p, chain);
      assert chain[0] in chain && ChunkAt(sz, start, top, chain[0]);
      if |chain| > 1 { assert chain[1] in chain && ChunkAt(sz, start, top, chain[1]); }
      forall j {:trigger ChainOf(mem, hs, fs, j)} | 0 <= j < NFASTBINS && j != i ensures ChainOf(mem, hs, fs, j) {}
      ChainsUpdate(mem, hs, fs, i, nextp, chain[1..]);
      assert hs[i := nextp] == heads[i := nextp] && fs[i := chain[1..]] == fastbins[i := chain[1..]];
    }

    /**
      malloc_consolidate: on first use sets the parameters; afterwards empties every fastbin into the
      unsorted queue or top. Blocks of the program keep their place and contents.
     */
    method Consolidate()
      requires Valid()
      modifies this`mem, this`bins, this`home, this`top, this`sz, this`fastbins, this`heads, this`maxFast
      ensures Valid() && FastEmpty(fastbins)
      ensures maxFast == (if old(maxFast) == 0 then 72 else if old(maxFast) == 75 then 73 else old(maxFast))
      ensures Live() == Used() == old(Live())
      ensures SameBlocks(old(mem), old(sz), mem, sz, old(Live()))
      ensures sz == map[] <==> old(sz) == map[]
      ensures sz.Keys <= old(sz).Keys && Touched(old(mem), mem, old(sz).Keys, start)
    {
      ghost var m0, sz0, live0 := mem, sz, Live();
      assert SameBlocks(m0, sz0, mem, sz, live0) by {
        forall p | p in live0 ensures SameBlock(m0, sz0, mem, sz, p) {}
      }
      if maxFast == 0 {
        InitState();
        EmptyFast(fastbins, sz, Used());
        assert live0 == {};
      } else {
        EmptyFastbins();
      }
    }

    /** The loop over the fastbins; before the first extension they are all empty. */
    method EmptyFastbins()
      requires Valid() && maxFast != 0
      modifies this`mem, this`bins, this`home, this`top, this`sz, this`fastbins, this`heads, this`maxFast
      ensures Valid() && FastEmpty(fastbins) && (sz == map[] <==> old(sz) == map[])
      ensures maxFast == if old(maxFast) == 75 then 73 else old(maxFast)
      ensures Live() == Used() == old(Live())
      ensures SameBlocks(old(mem), old(sz), mem, sz, old(Live()))
      ensures sz.Keys <= old(sz).Keys && Touched(old(mem), mem, old(sz).Keys, start)
    {
      ghost var m0, sz0, live0 := mem, sz, Live();
      TouchNothing(m0, sz.Keys, start);
      forall p | p in live0 ensures SameBlock(m0, sz0, mem, sz, p) {}
      maxFast := maxFast - 2 * (maxFast / 2 % 2);
      var last := FastbinIndex(maxFast);
      var i := 0;
      while i <= last
        invariant 0 <= i <= last + 1 && last == 7 && maxFast == (if old(maxFast) == 75 then 73 else old(maxFast))
        invariant sz0 == map[] ==> unchanged(`mem) && unchanged(`bins) && unchanged(`home) && unchanged(`top) && sz == map[]
        invariant sz0 != map[] ==> Ready()
        invariant Fast(fastbins, sz, Used()) && Chains(mem, heads, fastbins) && Live() == live0
        invariant forall j {:trigger fastbins[j]} :: 0 <= j < i ==> fastbins[j] == []
        invariant fastbins[8] == [] && fastbins[9] == []
        invariant old(maxFast) != 75 ==> FastEmpty(fastbins) && unchanged(`home)
        invariant SameBlocks(m0, sz0, mem, sz, live0)
        invariant sz.Keys <= sz0.Keys && Touched(m0, mem, sz0.Keys, start)
      {
        assert ChainOf(mem, heads, fastbins, i) && FastAt(fastbins, sz, Used(), i);
        if heads[i] != 0 {
          assert fastbins[i] != [];
          ghost var m1, sz1 := mem, sz;
          ConsolidateBin(i);
          TouchTwice(m0, m1, mem, sz0.Keys, sz1.Keys, start);
          SameBlocksCompose(m0, sz0, m1, sz1, mem, sz, live0, live0, live0);
        } else if sz != map[] {
          HeadIsChunk(i);
        }
        i := i + 1;
      }
      assert FastEmpty(fastbins);
      EmptyFast(fastbins, sz, Used());
    }

    /** A head is 0 exactly for an empty fastbin. */
    lemma HeadIsChunk(i: int)
      requires Ready() && Fast(fastbins, sz, Used()) && Chains(mem, heads, fastbins) && 0 <= i < NFASTBINS
      ensures heads[i] == 0 <==> fastbins[i] == []
      ensures heads[i] != 0 ==> heads[i] == fastbins[i][0]
    {
      assert ChainOf(mem, heads, fastbins, i) && FastAt(fastbins, sz, Used(), i);
      if fastbins[i] != [] { assert fastbins[i][0] in fastbins[i] && ChunkAt(sz, start, top, fastbins[i][0]); }
    }

    // -------------------------------------------------------------- growing the heap

    /** The first extension: the first chunk is aligned and, if sbrk allows, the area ends on a page boundary. */
    method FirstExtension(b: int, size: int)
      requires STATIC <= memHeap == b <= brk <= limit < 0x8000_0000 && start == AlignUp(b) && (b % 8 == 0 || limit % PAGE == 0)
      requires sz == map[] && home == map[] && FreeLists(mem, bins, binmap, home, sz)
      requires brk == b + size && size % PAGE == 0 && size >= MINSIZE
      modifies this`mem, this`brk, this`top, this`sz
      ensures Ready() && Used() == {} && top == start && sz[top] >= size && b <= brk <= limit
      ensures brk == FirstBreak(start, b + size, size, limit)
    {
      var aligned, correction := FrontPadding(b, size);
      var sndBrk := Sbrk(correction);
      if sndBrk == -1 {
        correction := 0;
        sndBrk := Sbrk(0);
      }
      top := aligned;
      var n := sndBrk - aligned + correction;
      AreaIsAligned(b, size, brk - start, limit);
      FirstLayoutAt(n);
      mem := mem[top + 4 := n + 1];
      sz := map[aligned := n];
    }

    /** Where the first chunk starts, and how much more memory would make the area end on a page boundary. */
    method FrontPadding(b: int, size: int) returns (aligned: int, correction: int)
      requires size % PAGE == 0
      ensures aligned == AlignUp(b) && correction == RoundUpToPage(AlignUp(b) + size) - (b + size)
    {
      correction := 0;
      var misalign := (b + 8) % 8;
      if misalign > 0 {
        correction := 8 - misalign;
      }
      FrontCorrection(b);
      aligned := b + correction;
      correction := correction + (RoundUpToPage(b + size + correction) - (b + size + correction));
    }

    /** The single top chunk of a new heap. */
    lemma FirstLayoutAt(n: int)
      requires STATIC <= start && top == start && start % 8 == 0 && n % 8 == 0 && n >= MINSIZE
      requires home == map[] && FreeLists(mem, bins, binmap, home, map[])
      ensures var m', sz' := mem[top + 4 := n + 1], map[top := n];
        Laid(m', sz', start, top, start + n, {}) && FreeLists(m', bins, binmap, home, sz')
    {
      var m', sz' := mem[top + 4 := n + 1], map[top := n];
      FirstLayout(m', top, n);
      BinnedFrame(bins, home, map[], sz');
      OutsideWrite(mem, bins, home, sz', start, top, start + n, top, top + 4, n + 1);
    }

    /** The extension step of sYSMALLOc. After the first one, sbrk always continues the heap at its end. */
    method Extend(nb: int) returns (ok: bool)
      requires Valid() && maxFast != 0 && FastEmpty(fastbins)
      requires MINSIZE <= nb < WORD - MINSIZE && nb % 8 == 0
      requires sz != map[] ==> sz[top] < nb + MINSIZE
      modifies this`mem, this`brk, this`top, this`sz
      ensures Valid() && home == old(home)
      ensures ok <==> old(brk) + RoundUpToPage(nb + MINSIZE - (if old(sz) == map[] then 0 else old(sz[top]))) <= limit
      ensures ok ==> sz != map[] && sz[top] >= nb + MINSIZE && top == if old(sz) == map[] then start else old(top)
      ensures ok ==>
        var size := RoundUpToPage(nb + MINSIZE - (if old(sz) == map[] then 0 else old(sz[top])));
        brk == if old(sz) == map[] then FirstBreak(start, old(brk) + size, size, limit) else old(brk) + size
      ensures !ok ==> unchanged(this)
      ensures Untouched(old(mem), old(sz), old(Used()), mem, sz, Used())
    {
      var oldTop := top;
      if sz != map[] { ReadTag(mem, sz, start, top, brk, home.Keys, top); }
      var oldSize := ChunkSize(Head(mem, oldTop));
      var oldEnd := oldTop + oldSize;
      assert sz != map[] ==> ChunkAt(sz, start, top, top);
      PagedRequestExact(nb + MINSIZE - oldSize, brk, limit);
      var size := PagedRequest(nb + MINSIZE - oldSize);
      var b := -1;
      if size > 0 { b := Sbrk(size); }
      ok := b != -1;
      if !ok {
        EmptyFast(fastbins, sz, Used());
        return;
      }
      if b == oldEnd {
        GrowTop(size, oldSize);
      } else {
        // sbrk continued elsewhere: only possible while the heap does not exist yet, so no fencepost is needed
        assert oldSize == 0 && sz == map[];
        FirstExtension(b, size);
      }
      EmptyFast(fastbins, sz, Used());
      EmptyChains(old(mem), mem, heads, fastbins);
    }

    /** Memory that continues the heap becomes part of top. */
    method GrowTop(size: int, oldSize: int)
      requires sz != map[] && Sited() && Laid(mem, sz, start, top, brk - size, home.Keys)
      requires FreeLists(mem, bins, binmap, home, sz) && size % PAGE == 0 && size > 0 && oldSize == sz[top]
      modifies this`mem, this`sz
      ensures Ready() && sz == old(sz)[top := old(sz)[top] + size]
      ensures Untouched(old(mem), old(sz), old(Used()), mem, sz, Used())
    {
      PageIsAligned(size);
      ExtendTop(mem, sz, start, top, brk - size, home.Keys, size);
      forall q {:trigger q in home} | q in home && q in sz ensures sz[top := sz[top] + size][q] == sz[q] {
        assert FreeAt(sz, top, home.Keys, q);
      }
      assert top in home ==> FreeAt(sz, top, home.Keys, top);
      assert ChunkAt(sz, start, top, top);
      OutsideWrite(mem, bins, home, sz, start, top, brk - size, top, top + 4, size + oldSize + 1);
      BinnedFrame(bins, home, sz, sz[top := sz[top] + size]);
      mem := mem[top + 4 := size + oldSize + 1];
      sz := sz[top := sz[top] + size];
    }

    /** Why malloc may fail: no free chunk fits, nothing is parked in a fastbin, and sbrk cannot grow top enough. */
    ghost predicate OutOfMemory(nb: int)
      reads this
    {
      && NoneFits(sz, home, nb) && FastEmpty(fastbins)
      && (sz != map[] ==> top in sz && sz[top] < nb + MINSIZE)
      && brk + RoundUpToPage(nb + MINSIZE - (if sz == map[] || top !in sz then 0 else sz[top])) > limit
    }

    ghost function Pending(): nat
      reads this
    {
      if maxFast == 75 then 1 else 0
    }

    // -------------------------------------------------------------- malloc and free

    /** sYSMALLOc: retries after emptying the fastbins once, otherwise extends top. */
    method SysMalloc(nb: int) returns (r: int, ghost seen: View)
      requires Valid() && maxFast != 0 && NoneFits(sz, home, nb)
      requires MINSIZE <= nb < WORD - MINSIZE && nb % 8 == 0
      requires maxFast == 75 ==> InSmallbinRange(nb)
      requires sz != map[] ==> sz[top] < nb + MINSIZE
      modifies this
      ensures Valid() && Served(old(mem), old(sz), old(Live()), mem, sz, Live(), r, nb)
      ensures r == 0 ==> OutOfMemory(nb)
      ensures r != 0 ==> Found(old(Seen()), old(maxFast) == 75, old(Live()), start, old(brk), nb, seen, r - 8)
      ensures seen.remainder == old(lastRemainder)
      ensures lastRemainder == if r == 0 then seen.remainder else RemainderAfter(seen, nb, r - 8)
      decreases Pending(), 0
    {
      ghost var m0, sz0, live0 := mem, sz, Live();
      FromTop(nb);
      seen := Seen();
      if maxFast / 2 % 2 == 1 {
        Consolidate();
        SweptNow(m0, sz0, live0);
        ghost var m1, sz1 := mem, sz;
        RetrySameSize(nb);
        r, seen := Malloc(nb - 7);
        ServedCompose(m0, sz0, m1, sz1, live0, mem, sz, Live(), r, nb);
        return;
      }
      r := ExtendAndServe(nb);
    }

    /** Extends top, which is too small, and serves the request from it. */
    method ExtendAndServe(nb: int) returns (r: int)
      requires Valid() && maxFast != 0 && maxFast != 75 && NoneFits(sz, home, nb)
      requires MINSIZE <= nb < WORD - MINSIZE && nb % 8 == 0
      requires sz != map[] ==> sz[top] < nb + MINSIZE
      modifies this
      ensures Valid() && Served(old(mem), old(sz), old(Live()), mem, sz, Live(), r, nb)
      ensures r == 0 ==> OutOfMemory(nb)
      ensures r != 0 ==> r == old(Seen()).top + 8
      ensures lastRemainder == old(lastRemainder)
    {
      ghost var m0, sz0 := mem, sz;
      EmptyFast(fastbins, sz, Used());
      var ok := Extend(nb);
      if !ok {
        EmptyFast(fastbins, sz, Used());
        r := 0;
        return;
      }
      r := ServeFromTop(nb, m0, sz0);
    }

    method ServeFromTop(nb: int, ghost m0: Mem, ghost sz0: Chunks) returns (r: int)
      requires Valid() && sz != map[] && sz[top] >= nb + MINSIZE
      requires MINSIZE <= nb && nb % 8 == 0 && SameBlocks(m0, sz0, mem, sz, Live())
      modifies this`mem, this`top, this`sz
      ensures Valid() && r == old(top) + 8 != 0 && Served(m0, sz0, old(Live()), mem, sz, Live(), r, nb)
    {
      ghost var m1, sz1, used1 := mem, sz, Used();
      var p := CarveFromTop(nb);
      assert ChunkAt(sz, start, top, p);
      GrantLive(m1, sz1, used1, mem, sz, Used(), heads, fastbins, p, nb);
      ServedCompose(m0, sz0, m1, sz1, old(Live()), mem, sz, Live(), p + 8, nb);
      r := p + 8;
    }

    /** After consolidation the heap is swept. */
    lemma SweptNow(m0: Mem, sz0: Chunks, live: set<int>)
      requires Valid() && sz != map[] && Used() == live && SameBlocks(m0, sz0, mem, sz, live)
      ensures Swept(Seen(), sz0, live, start, brk)
    {
      forall p {:trigger p in live} | p in live ensures p in sz && p in sz0 && sz[p] == sz0[p] {
        assert SameBlock(m0, sz0, mem, sz, p);
      }
    }

    lemma FromTop(nb: int)
      requires Valid() && NoneFits(sz, home, nb)
      ensures NoFit(Seen(), nb) && Picked(Seen(), nb, Seen().top) && RemainderAfter(Seen(), nb, Seen().top) == lastRemainder
    {
      var v := Seen();
      assert v.top in v.free ==> FreeAt(sz, top, v.free, v.top);
      forall q {:trigger q in v.free} | q in v.free && q in v.sz ensures v.sz[q] < nb { assert q in home; }
    }

    /** use_top: split off top if it is large enough, else ask the system. */
    method UseTop(nb: int) returns (r: int, ghost seen: View)
      requires Valid() && maxFast != 0 && NoneFits(sz, home, nb)
      requires MINSIZE <= nb < WORD - MINSIZE && nb % 8 == 0
      requires maxFast == 75 ==> InSmallbinRange(nb)
      modifies this
      ensures Valid() && Served(old(mem), old(sz), old(Live()), mem, sz, Live(), r, nb)
      ensures r == 0 ==> OutOfMemory(nb)
      ensures r != 0 ==> Found(old(Seen()), old(maxFast) == 75, old(Live()), start, old(brk), nb, seen, r - 8)
      ensures seen.remainder == old(lastRemainder)
      ensures lastRemainder == if r == 0 then seen.remainder else RemainderAfter(seen, nb, r - 8)
      decreases Pending(), 1
    {
      if sz != map[] { ReadTag(mem, sz, start, top, brk, home.Keys, top); }
      if ChunkSize(Head(mem, top)) >= nb + MINSIZE {
        forall p | p in Live() ensures SameBlock(mem, sz, mem, sz, p) {}
        seen := Seen();
        FromTop(nb);
        r := ServeFromTop(nb, mem, sz);
      } else {
        r, seen := SysMalloc(nb);
      }
    }

    /** The request's own bin, if it is large, and then the bitmap search: a best fit or nothing. */
    method SearchBins(nb: int) returns (p: int)
      requires Ready() && MINSIZE <= nb && nb % 8 == 0 && bins[1] == []
      requires InSmallbinRange(nb) ==> bins[BinIndex(nb)] == []
      modifies this`mem, this`bins, this`binmap, this`home, this`sz, this`lastRemainder
      ensures Ready()
      ensures p != HEADER ==>
        && p >= 0 && BestFit(old(sz), old(home), nb, p)
        && Granted(old(mem), old(sz), old(Used()), mem, sz, Used(), p, nb) && sz[p] < nb + MINSIZE
      ensures p != HEADER ==> lastRemainder == RemainderAfter(old(Seen()), nb, p)
      ensures p == HEADER ==>
        NoneFits(sz, home, nb) && mem == old(mem) && sz == old(sz) && home == old(home) && lastRemainder == old(lastRemainder)
    {
      p := HEADER;
      if !InSmallbinRange(nb) {
        p := SearchOwnBin(nb);
      }
      if p == HEADER {
        BinIndexMonotone(nb, nb);
        p := SearchBitmap(nb);
      }
      assert p != HEADER ==> ChunkAt(sz, start, top, p);
    }

    /** The unsorted queue and then the bins. */
    method Search(nb: int) returns (r: int)
      requires Valid() && maxFast % 2 == 1 && MINSIZE <= nb && nb % 8 == 0
      requires InSmallbinRange(nb) ==> bins[BinIndex(nb)] == []
      modifies this`mem, this`bins, this`binmap, this`home, this`sz, this`lastRemainder
      ensures Valid() && Served(old(mem), old(sz), old(Live()), mem, sz, Live(), r, nb)
      ensures r == 0 ==> NoneFits(sz, home, nb) && Seen() == old(Seen())
      ensures r != 0 ==> Picked(old(Seen()), nb, r - 8) && !NoFit(old(Seen()), nb)
      ensures r != 0 ==> lastRemainder == RemainderAfter(old(Seen()), nb, r - 8)
    {
      ghost var m0, sz0, used0, home0 := mem, sz, Used(), home;
      var p := DrainUnsorted(nb);
      if p == HEADER {
        ghost var m1, home1 := mem, home;
        p := SearchBins(nb);
        SameBlocksCompose(m0, sz0, m1, sz0, mem, sz, used0, used0, used0);
        if p == HEADER {
          ChainsFrame(m0, sz0, mem, sz, heads, fastbins, used0);
          return 0;
        }
        BestFitSameKeys(sz0, home0, home1, nb, p);
        BestFitIsPicked(sz0, home0, old(Seen()), nb, p);
      }
      assert ChunkAt(sz, start, top, p);
      GrantLive(m0, sz0, used0, mem, sz, Used(), heads, fastbins, p, nb);
      return p + 8;
    }

    /** An exact hit in the fastbin of the request, or HEADER. */
    method TakeFast(nb: int) returns (p: int)
      requires Valid() && sz != map[] && MINSIZE <= nb && nb % 8 == 0
      modifies this`fastbins, this`heads
      ensures Valid()
      ensures p == HEADER ==> unchanged(this)
      ensures p != HEADER <==> old(FastHit(nb))
      ensures p != HEADER ==> p == old(fastbins)[FastbinIndex(nb)][0]
      ensures p != HEADER ==> p !in old(Live()) && Live() == old(Live()) + {p} && p in sz && sz[p] == nb
    {
      p := HEADER;
      if nb <= maxFast {
        var i := FastbinIndex(nb);
        HeadIsChunk(i);
        if heads[i] != 0 {
          p := heads[i];
          ghost var s := fastbins[i];
          assert heads[i := p] == heads && fastbins[i := s] == fastbins;
          NextInChain(i, p, Fd(mem, p), s);
          FastPop(fastbins, sz, Used(), i);
          assert AlignedAt(sz, p) && ChunkAt(sz, start, top, p);
          FastFrame(fastbins[i := s[1..]], sz, Used() - {p}, sz, Used());
          heads := heads[i := Fd(mem, p)];
          fastbins := fastbins[i := s[1..]];
        }
      }
    }

    /** An exact hit in a small bin: its oldest chunk. */
    method TakeSmall(nb: int) returns (p: int)
      requires Valid() && maxFast % 2 == 1 && MINSIZE <= nb < MIN_LARGE_SIZE && nb % 8 == 0 && bins[nb / 8] != []
      modifies this`mem, this`bins, this`home, this`sz, this`lastRemainder
      ensures Valid() && p > 0 && Served(old(mem), old(sz), old(Live()), mem, sz, Live(), p + 8, nb)
      ensures Picked(old(Seen()), nb, p) && p == old(bins[nb / 8][|bins[nb / 8]| - 1])
      ensures lastRemainder == old(lastRemainder) == RemainderAfter(old(Seen()), nb, p)
    {
      ghost var m0, sz0 := mem, sz;
      ghost var used := Used();
      var i := nb / 8;
      BinFacts(i, home.Keys, |bins[i]| - 1);
      p := Bk(mem, Bin(i));
      assert AlignedAt(sz, p) && ChunkAt(sz, start, top, p) && HomeAt(bins, home, sz, p);
      SmallBinHoldsOneSize(sz[p], nb);
      p := TakeExact(p, nb);
      assert ChunkAt(sz, start, top, p);
      GrantLive(m0, sz0, used, mem, sz, Used(), heads, fastbins, p, nb);
    }

    /** Unlinks a chunk of exactly the right size. */
    method TakeExact(victim: int, nb: int) returns (p: int)
      requires Ready() && victim in home && victim in sz && sz[victim] == nb && nb % 8 == 0
      modifies this`mem, this`bins, this`home, this`sz, this`lastRemainder
      ensures Ready() && p == victim
      ensures Granted(old(mem), old(sz), old(Used()), mem, sz, Used(), p, nb) && sz[p] < nb + MINSIZE
      ensures lastRemainder == old(lastRemainder)
    {
      ghost var m0, sz0 := mem, sz;
      ghost var free, used := home.Keys, Used();
      assert HomeAt(bins, home, sz, victim);
      Unlink(victim, free);
      ghost var m1 := mem;
      Carve(victim, nb, nb, false, free);
      SameBlocksCompose(m0, sz0, m1, sz0, mem, sz, sz0.Keys - free, used, used);
      p := victim;
    }

    /**
      mALLOc. A block returned is 8-aligned, new, holds the requested bytes with less than MINSIZE to spare;
      every block the program already held keeps its extent and contents. Zero is returned only for an
      out-of-range request or when memory is really exhausted.
     */
    method Malloc(bytes: nat) returns (r: int, ghost seen: View)
      requires Valid() && bytes < WORD
      modifies this
      ensures Valid() && Served(old(mem), old(sz), old(Live()), mem, sz, Live(), r, Request2Size(bytes))
      ensures r != 0 ==> sz[r - 8] - 4 >= bytes
      ensures r == 0 ==> OutOfRange(bytes) || OutOfMemory(Request2Size(bytes))
      ensures r != 0 ==>
        var nb := Request2Size(bytes);
        if old(FastHit(nb)) then r - 8 == old(fastbins)[FastbinIndex(nb)][0]
        else Found(old(Seen()), old(maxFast) == 75, old(Live()), start, old(brk), nb, seen, r - 8)
      ensures seen.remainder == old(lastRemainder)
      ensures lastRemainder == if r == 0 || old(FastHit(Request2Size(bytes))) then old(lastRemainder)
                               else RemainderAfter(seen, Request2Size(bytes), r - 8)
      decreases Pending(), 4
    {
      ghost var m0, sz0, live0 := mem, sz, Live();
      forall p | p in live0 ensures SameBlock(m0, sz0, mem, sz, p) {}
      seen := Seen();
      if OutOfRange(bytes) { return 0, seen; }
      var nb := Request2Size(bytes);
      if maxFast % 2 == 0 {
        if maxFast == 0 { Consolidate(); }
        ghost var m1, sz1 := mem, sz;
        r, seen := UseTop(nb);
        ServedCompose(m0, sz0, m1, sz1, live0, mem, sz, Live(), r, nb);
        return;
      }
      var p := TakeFast(nb);
      if p != HEADER {
        assert AlignedAt(sz, p);
        Multiples(p, 8);
        assert ChunkAt(sz, start, top, p);
        return p + 8, seen;
      }
      r, seen := MallocFromBins(nb);
    }

    /** malloc once the fastbins have been tried: small bins, the other bins, top. */
    method MallocFromBins(nb: int) returns (r: int, ghost seen: View)
      requires Valid() && maxFast % 2 == 1 && MINSIZE <= nb < WORD - MINSIZE && nb % 8 == 0
      modifies this
      ensures Valid() && Served(old(mem), old(sz), old(Live()), mem, sz, Live(), r, nb)
      ensures r == 0 ==> OutOfMemory(nb)
      ensures r != 0 ==> Found(old(Seen()), old(maxFast) == 75, old(Live()), start, old(brk), nb, seen, r - 8)
      ensures seen.remainder == old(lastRemainder)
      ensures lastRemainder == if r == 0 then seen.remainder else RemainderAfter(seen, nb, r - 8)
      decreases Pending(), 3
    {
      ghost var m0, sz0, live0 := mem, sz, Live();
      forall p | p in live0 ensures SameBlock(m0, sz0, mem, sz, p) {}
      seen := Seen();
      if InSmallbinRange(nb) {
        var empty := IsEmpty(nb / 8);
        if !empty {
          var p := TakeSmall(nb);
          return p + 8, seen;
        }
      } else if maxFast / 2 % 2 == 1 {
        Consolidate();
        SweptNow(m0, sz0, live0);
        seen := Seen();
      }
      ghost var m1, sz1 := mem, sz;
      r, seen := SearchThenTop(nb);
      ServedCompose(m0, sz0, m1, sz1, live0, mem, sz, Live(), r, nb);
    }

    /** The unsorted queue, the bins, and only then top. */
    method SearchThenTop(nb: int) returns (r: int, ghost seen: View)
      requires Valid() && maxFast % 2 == 1 && MINSIZE <= nb < WORD - MINSIZE && nb % 8 == 0
      requires if InSmallbinRange(nb) then bins[BinIndex(nb)] == [] else maxFast != 75
      modifies this
      ensures Valid() && Served(old(mem), old(sz), old(Live()), mem, sz, Live(), r, nb)
      ensures r == 0 ==> OutOfMemory(nb)
      ensures r != 0 ==> Found(old(Seen()), old(maxFast) == 75, old(Live()), start, old(brk), nb, seen, r - 8)
      ensures seen.remainder == old(lastRemainder)
      ensures lastRemainder == if r == 0 then seen.remainder else RemainderAfter(seen, nb, r - 8)
      decreases Pending(), 2
    {
      ghost var m0, sz0, live0 := mem, sz, Live();
      seen := Seen();
      r := Search(nb);
      if r == 0 {
        ghost var m2, sz2 := mem, sz;
        r, seen := UseTop(nb);
        ServedCompose(m0, sz0, m2, sz2, live0, mem, sz, Live(), r, nb);
      }
    }

    /** Parks a small block in the fastbin of its size; its in-use bit stays set. */
    method FreeFast(p: int, size: int)
      requires Valid() && p in Live() && size == sz[p] && size <= maxFast
      modifies this`mem, this`fastbins, this`heads, this`maxFast
      ensures Valid() && Live() == old(Live()) - {p}
      ensures fastbins == Parked(old(fastbins), p, size) && maxFast == 75
      ensures SameBlocks(old(mem), old(sz), mem, sz, old(Live()) - {p})
      ensures Touched(old(mem), mem, sz.Keys, start)
    {
      assert AlignedAt(sz, p) && ChunkAt(sz, start, top, p);
      var i := FastbinIndex(size);
      HeadIsChunk(i);
      HeadBelow(i);
      TouchNothing(mem, sz.Keys, start);
      TouchOne(mem, mem, sz.Keys, start, p + 8, heads[i]);
      assert size / 8 <= 9;
      FastPush(fastbins, sz, Used(), i, p);
      ParkedChains(i, p);
      LinkWrite(mem, sz, start, top, brk, home.Keys, p, 8, heads[i]);
      OutsideWrite(mem, bins, home, sz, start, top, brk, p, p + 8, heads[i]);
      ghost var m0 := mem;
      mem := mem[p + 8 := heads[i]];
      forall q | q in Live() - {p} ensures SameBlock(m0, sz, mem, sz, q) {
        assert q in sz.Keys - {p};
      }
      maxFast := maxFast - maxFast % 4 + 3;
      heads := heads[i := p];
      fastbins := fastbins[i := [p] + fastbins[i]];
    }

    lemma HeadBelow(i: int)
      requires Ready() && Fast(fastbins, sz, Used()) && Chains(mem, heads, fastbins) && 0 <= i < NFASTBINS
      ensures 0 <= heads[i] < 0x8000_0000
    {
      HeadIsChunk(i);
      if heads[i] != 0 {
        assert FastAt(fastbins, sz, Used(), i) && fastbins[i][0] in fastbins[i];
        InOrderEnd(heads[i]);
      }
    }

    /** Storing the old head in the block makes it the first of its chain. */
    lemma ParkedChains(i: int, p: int)
      requires Valid() && p in Live() && 0 <= i < NFASTBINS
      ensures Chains(mem[p + 8 := heads[i]], heads[i := p], fastbins[i := [p] + fastbins[i]])
    {
      var m' := mem[p + 8 := heads[i]];
      forall j {:trigger ChainOf(m', heads, fastbins, j)} | 0 <= j < NFASTBINS && j != i ensures ChainOf(m', heads, fastbins, j) {
        assert ChainOf(mem, heads, fastbins, j);
        assert p in fastbins[j] ==> InFast(fastbins, p);
        ChainFrame(mem, m', heads[j], fastbins[j]);
      }
      assert ChainOf(mem, heads, fastbins, i);
      assert p in fastbins[i] ==> InFast(fastbins, p);
      ChainPush(mem, heads[i], fastbins[i], p);
      ChainsUpdate(m', heads, fastbins, i, p, [p] + fastbins[i]);
    }

    method ReleaseLive(p: int) returns (size: int, ghost at: int)
      requires Valid() && p in Live() && maxFast % 2 == 1
      modifies this`mem, this`bins, this`home, this`top, this`sz
      ensures Valid() && Live() == old(Live()) - {p}
      ensures Released(old(sz), old(home.Keys), old(top), brk, p, sz, home.Keys, top, at)
      ensures size == FusedEnd(old(sz), old(home.Keys), old(top), brk, p) - at
      ensures SameBlocks(old(mem), old(sz), mem, sz, old(Live()) - {p})
      ensures sz.Keys <= old(sz).Keys && Touched(old(mem), mem, old(sz).Keys, start)
    {
      ghost var m0, sz0, used0 := mem, sz, Used();
      size, at := ReleaseChunk(p);
      ChainsSpared(m0, sz0, mem, sz, heads, fastbins, used0, p);
      forall q {:trigger q in used0 - {p}} | q in used0 - {p} && q in sz0 ensures q in sz && sz[q] == sz0[q] {
        assert SameBlock(m0, sz0, mem, sz, q);
      }
      FastFrame(fastbins, sz0, used0 - {p}, sz, Used());
    }

    /** The part of fREe for a block too large for the fastbins: a large fused chunk makes it empty them. */
    method FreeLarge(p: int) returns (ghost at: int)
      requires Valid() && p in Live() && sz[p] > maxFast
      modifies this
      ensures Valid() && Live() == old(Live()) - {p}
      ensures SameBlocks(old(mem), old(sz), mem, sz, Live())
      ensures Touched(old(mem), mem, old(sz).Keys, start)
      ensures ReleaseStart(old(sz), old(home.Keys), p, at)
      ensures
        if FusedEnd(old(sz), old(home.Keys), old(top), brk, p) - at >= FASTBIN_CONSOLIDATION_THRESHOLD then
          FastEmpty(fastbins)
        else
          && Released(old(sz), old(home.Keys), old(top), brk, p, sz, home.Keys, top, at)
          && fastbins == old(fastbins)
    {
      ghost var m0, sz0, live0 := mem, sz, Live();
      maxFast := maxFast - maxFast % 2 + 1;
      var size;
      size, at := ReleaseLive(p);
      if size >= FASTBIN_CONSOLIDATION_THRESHOLD {
        ghost var m1, sz1, live1 := mem, sz, Live();
        AfterLarge();
        TouchTwice(m0, m1, mem, sz0.Keys, sz1.Keys, start);
        SameBlocksCompose(m0, sz0, m1, sz1, mem, sz, live1, live1, live1);
      }
    }

    /** What fREe does about a large fused chunk: it empties the fastbins and tries, in vain, to trim. */
    method AfterLarge()
      requires Valid() && sz != map[]
      modifies this
      ensures Valid() && FastEmpty(fastbins) && Live() == old(Live()) && brk == old(brk)
      ensures SameBlocks(old(mem), old(sz), mem, sz, Live())
      ensures Touched(old(mem), mem, old(sz).Keys, start)
    {
      ghost var m0, sz0, live0 := mem, sz, Live();
      TouchNothing(m0, sz.Keys, start);
      forall q | q in live0 ensures SameBlock(m0, sz0, mem, sz, q) {}
      if maxFast / 2 % 2 == 1 {
        Consolidate();
      }
      if ChunkSize(Head(mem, top)) >= 0x40000 { var _ := Trim(); }
    }

    /** fREe: the block leaves the program, every other block keeps its extent and contents. */
    method Free(ptr: int) returns (ghost at: int)
      requires Valid() && (ptr != 0 ==> ptr - 8 in Live())
      modifies this
      ensures Valid() && Live() == old(Live()) - {ptr - 8}
      ensures ptr == 0 ==> unchanged(this)
      ensures ptr != 0 && old(sz)[ptr - 8] <= old(maxFast) ==>
        && sz == old(sz) && home == old(home) && top == old(top)
        && fastbins == Parked(old(fastbins), ptr - 8, old(sz)[ptr - 8])
      ensures ptr != 0 && old(sz)[ptr - 8] > old(maxFast) ==>
        && ReleaseStart(old(sz), old(home.Keys), ptr - 8, at)
        && if FusedEnd(old(sz), old(home.Keys), old(top), brk, ptr - 8) - at >= FASTBIN_CONSOLIDATION_THRESHOLD then
             FastEmpty(fastbins)
           else
             && Released(old(sz), old(home.Keys), old(top), brk, ptr - 8, sz, home.Keys, top, at)
             && fastbins == old(fastbins)
      ensures SameBlocks(old(mem), old(sz), mem, sz, Live())
      ensures Touched(old(mem), mem, old(sz).Keys, start)
    {
      ghost var m0, sz0, live0 := mem, sz, Live();
      at := ptr - 8;
      TouchNothing(m0, sz.Keys, start);
      forall p | p in live0 ensures SameBlock(m0, sz0, mem, sz, p) {}
      if ptr == 0 {
        forall q | q in live0 ensures q > 0 { assert ChunkAt(sz, start, top, q); }
        return;
      }
      var p := ptr - 8;
      ReadTag(mem, sz, start, top, brk, home.Keys, p);
      var size := ChunkSize(Head(mem, p));
      if size <= maxFast {
        FreeFast(p, size);
      } else {
        at := FreeLarge(p);
      }
    }
  }
}
