/**
  The links that thread the free lists of shared/malloc.c.h through memory: every bin is a circular doubly linked
  list through its header, every fastbin a singly linked list that ends in 0. `Rings` and `Chains` tie the stored
  words to the sequences of HeapLists.
 */
module HeapLinks {
  import opened HeapSizes
  import opened HeapLayout
  import opened HeapLists
  import opened Sequences

  /** bin_at: the header of bin i poses as a chunk whose fd and bk are words of the static array. */
  function Bin(i: int): int { 8 * i }

  /** End of the static area that holds the headers. */
  const STATIC: int := 8 * NBINS + 8

  function Fd(m: Mem, p: int): int { Load(m, p + 8) }

  function Bk(m: Mem, p: int): int { Load(m, p + 12) }

  /** Position k of the circle: the header at 0 and again at |s| + 1, the chunks of the list in between. */
  ghost function Node(h: int, s: seq<int>, k: int): int {
    if 1 <= k <= |s| then s[k - 1] else h
  }

  ghost predicate RingAt(m: Mem, h: int, s: seq<int>, k: int) {
    Fd(m, Node(h, s, k)) == Node(h, s, k + 1) && Bk(m, Node(h, s, k + 1)) == Node(h, s, k)
  }

  /** Following fd from the header visits exactly s and comes back; following bk does the reverse. */
  ghost predicate Ring(m: Mem, h: int, s: seq<int>) {
    forall k {:trigger RingAt(m, h, s, k)} :: 0 <= k <= |s| ==> RingAt(m, h, s, k)
  }

  /** Header and chunks are 8-aligned and all different. */
  ghost predicate Proper(h: int, s: seq<int>) {
    && h % 8 == 0 && NoDup(s)
    && (forall x {:trigger x in s} :: x in s ==> x % 8 == 0 && x != h)
  }

  lemma RingEnds(m: Mem, h: int, s: seq<int>)
    requires Ring(m, h, s)
    ensures Fd(m, h) == if s == [] then h else s[0]
    ensures Bk(m, h) == if s == [] then h else s[|s| - 1]
  {
    assert RingAt(m, h, s, 0) && RingAt(m, h, s, |s|);
  }

  lemma RingNeighbours(m: Mem, h: int, s: seq<int>, k: nat)
    requires Ring(m, h, s) && k < |s|
    ensures Fd(m, s[k]) == Node(h, s, k + 2) && Bk(m, s[k]) == Node(h, s, k)
  {
    assert RingAt(m, h, s, k) && RingAt(m, h, s, k + 1);
  }

  /** The node reached from p by k steps along fd, or along bk. */
  ghost function Forward(m: Mem, p: int, k: nat): int {
    if k == 0 then p else Fd(m, Forward(m, p, k - 1))
  }

  ghost function Backward(m: Mem, p: int, k: nat): int {
    if k == 0 then p else Bk(m, Backward(m, p, k - 1))
  }

  /** Reading the stored words from the header on: the chunks of the list in order, and the header again. */
  lemma {:induction false} RingWalk(m: Mem, h: int, s: seq<int>, k: nat)
    requires Ring(m, h, s) && k <= |s| + 1
    ensures Forward(m, h, k) == Node(h, s, k) && Backward(m, h, k) == Node(h, s, |s| + 1 - k)
  {
    if k > 0 {
      RingWalk(m, h, s, k - 1);
      assert RingAt(m, h, s, k - 1) && RingAt(m, h, s, |s| + 1 - k);
    }
  }

  lemma NodesDiffer(h: int, s: seq<int>, j: int, k: int)
    requires Proper(h, s) && 0 <= j < k <= |s| + 1 && (j > 0 || k <= |s|)
    ensures Node(h, s, j) != Node(h, s, k)
  {
    assert 1 <= j <= |s| ==> s[j - 1] in s;
    assert 1 <= k <= |s| ==> s[k - 1] in s;
  }

  lemma NodeAligned(h: int, s: seq<int>, k: int)
    requires Proper(h, s)
    ensures Node(h, s, k) % 8 == 0
  {
    assert 1 <= k <= |s| ==> s[k - 1] in s;
  }

  /** The memory once a and b are neighbours: b is the next of a, a the previous of b. */
  ghost function Join(m: Mem, a: int, b: int): Mem {
    m[a + 8 := b][b + 12 := a]
  }

  lemma JoinLinks(m: Mem, a: int, b: int, x: int)
    requires a % 8 == 0 && b % 8 == 0 && x % 8 == 0
    ensures Fd(Join(m, a, b), x) == if x == a then b else Fd(m, x)
    ensures Bk(Join(m, a, b), x) == if x == b then a else Bk(m, x)
  {
  }

  /** unlink: the neighbours of position k are joined and the circle closes without it. */
  lemma RingRemove(m: Mem, h: int, s: seq<int>, k: nat)
    requires Ring(m, h, s) && Proper(h, s) && k < |s|
    ensures Ring(Join(m, Node(h, s, k), Node(h, s, k + 2)), h, RemoveAt(s, k))
  {
    var a, b := Node(h, s, k), Node(h, s, k + 2);
    var m', s' := Join(m, a, b), RemoveAt(s, k);
    NodeAligned(h, s, k);
    NodeAligned(h, s, k + 2);
    forall j {:trigger RingAt(m', h, s', j)} | 0 <= j <= |s'| ensures RingAt(m', h, s', j) {
      var i := if j <= k then j else j + 1;
      var n := if j < k then j + 1 else j + 2;
      assert Node(h, s', j) == Node(h, s, i) && Node(h, s', j + 1) == Node(h, s, n);
      NodeAligned(h, s, i);
      NodeAligned(h, s, n);
      JoinLinks(m, a, b, Node(h, s, i));
      JoinLinks(m, a, b, Node(h, s, n));
      if j < k {
        assert RingAt(m, h, s, j);
        NodesDiffer(h, s, j, k);
        NodesDiffer(h, s, j + 1, k + 2);
      } else if j > k {
        assert RingAt(m, h, s, j + 1);
        NodesDiffer(h, s, k, j + 1);
        NodesDiffer(h, s, k + 2, j + 2);
      }
    }
  }

  /** A new chunk v between positions k and k + 1. */
  lemma RingInsert(m: Mem, h: int, s: seq<int>, k: nat, v: int)
    requires Ring(m, h, s) && Proper(h, s) && k <= |s| && v % 8 == 0 && v != h && v !in s
    ensures Ring(Join(Join(m, Node(h, s, k), v), v, Node(h, s, k + 1)), h, InsertAt(s, k, v))
  {
    var a, b := Node(h, s, k), Node(h, s, k + 1);
    var m1 := Join(m, a, v);
    var m', s' := Join(m1, v, b), InsertAt(s, k, v);
    NodeAligned(h, s, k);
    NodeAligned(h, s, k + 1);
    forall j {:trigger RingAt(m', h, s', j)} | 0 <= j <= |s'| ensures RingAt(m', h, s', j) {
      InsertedNode(h, s, k, v, j);
      InsertedNode(h, s, k, v, j + 1);
      var x, y := Node(h, s', j), Node(h, s', j + 1);
      assert x % 8 == 0 && y % 8 == 0 by {
        NodeAligned(h, s, j); NodeAligned(h, s, j - 1); NodeAligned(h, s, j + 1);
      }
      JoinLinks(m, a, v, x);
      JoinLinks(m, a, v, y);
      JoinLinks(m1, v, b, x);
      JoinLinks(m1, v, b, y);
      if j < k {
        assert RingAt(m, h, s, j);
        NodesDiffer(h, s, j, k);
        NodesDiffer(h, s, j + 1, k + 1);
      } else if j > k + 1 {
        assert RingAt(m, h, s, j - 1);
        NodesDiffer(h, s, k, j - 1);
        NodesDiffer(h, s, k + 1, j);
      }
    }
  }

  lemma InsertedNode(h: int, s: seq<int>, k: nat, v: int, j: int)
    requires k <= |s| && v != h && v !in s
    ensures Node(h, InsertAt(s, k, v), j) == if j <= k then Node(h, s, j) else if j == k + 1 then v else Node(h, s, j - 1)
    ensures Node(h, s, j) != v
  {
    assert 1 <= j <= |s| ==> s[j - 1] in s;
  }

  // ---------------------------------------------------------------- all bins

  predicate SameLinks(m: Mem, m': Mem, x: int) {
    Fd(m', x) == Fd(m, x) && Bk(m', x) == Bk(m, x)
  }

  lemma RingFrame(m: Mem, m': Mem, h: int, s: seq<int>)
    requires Ring(m, h, s) && SameLinks(m, m', h)
    requires forall x {:trigger x in s} :: x in s ==> SameLinks(m, m', x)
    ensures Ring(m', h, s)
  {
    forall k {:trigger RingAt(m', h, s, k)} | 0 <= k <= |s| ensures RingAt(m', h, s, k) {
      assert RingAt(m, h, s, k);
      assert 1 <= k <= |s| ==> s[k - 1] in s;
      assert 1 <= k + 1 <= |s| ==> s[k] in s;
    }
  }

  ghost predicate RingOf(m: Mem, bins: seq<seq<int>>, i: int)
    requires 0 <= i < |bins|
  {
    Ring(m, Bin(i), bins[i])
  }

  ghost predicate Rings(m: Mem, bins: seq<seq<int>>) {
    |bins| == NBINS && forall i {:trigger RingOf(m, bins, i)} :: 1 <= i < NBINS ==> RingOf(m, bins, i)
  }

  /** All memory that the bins look at: the words of headers and of free chunks. */
  ghost predicate KeepsLinks(m: Mem, m': Mem, nodes: set<int>) {
    && (forall i {:trigger Bin(i)} :: 1 <= i < NBINS ==> SameLinks(m, m', Bin(i)))
    && (forall x {:trigger x in nodes} :: x in nodes ==> SameLinks(m, m', x))
  }

  lemma RingsFrame(m: Mem, m': Mem, bins: seq<seq<int>>, home: Home, sz: Chunks)
    requires Rings(m, bins) && Binned(bins, home, sz) && KeepsLinks(m, m', home.Keys)
    ensures Rings(m', bins)
  {
    forall i {:trigger RingOf(m', bins, i)} | 1 <= i < NBINS ensures RingOf(m', bins, i) {
      assert RingOf(m, bins, i) && BinAt(bins, home, sz, i);
      assert SameLinks(m, m', Bin(i));
      RingFrame(m, m', Bin(i), bins[i]);
    }
  }

  /** One bin changes, links of other bins' nodes stand. */
  lemma RingsUpdate(m: Mem, m': Mem, bins: seq<seq<int>>, home: Home, sz: Chunks, i: int, s: seq<int>)
    requires Rings(m, bins) && Binned(bins, home, sz) && 1 <= i < NBINS && Ring(m', Bin(i), s)
    requires forall j {:trigger Bin(j)} :: 1 <= j < NBINS && j != i ==> SameLinks(m, m', Bin(j))
    requires forall x {:trigger x in home} :: x in home && home[x] != i ==> SameLinks(m, m', x)
    ensures Rings(m', bins[i := s])
  {
    var bins' := bins[i := s];
    forall j {:trigger RingOf(m', bins', j)} | 1 <= j < NBINS ensures RingOf(m', bins', j) {
      if j != i {
        assert RingOf(m, bins, j) && BinAt(bins, home, sz, j);
        assert SameLinks(m, m', Bin(j));
        RingFrame(m, m', Bin(j), bins[j]);
      }
    }
  }

  lemma BinProper(bins: seq<seq<int>>, home: Home, sz: Chunks, base: int, top: int, end: int, i: int)
    requires Binned(bins, home, sz) && Tiled(sz, base, top, end) && Aligned(sz) && base >= STATIC && 1 <= i < NBINS
    ensures Proper(Bin(i), bins[i])
  {
    assert BinAt(bins, home, sz, i);
    forall x {:trigger x in bins[i]} | x in bins[i] ensures x % 8 == 0 && x != Bin(i) {
      assert HomeAt(bins, home, sz, x) && AlignedAt(sz, x) && ChunkAt(sz, base, top, x);
    }
  }

  /** Node k of the circle of bin i is its header or one of its chunks. */
  lemma NodeOfBin(bins: seq<seq<int>>, home: Home, sz: Chunks, base: int, top: int, end: int, i: int, k: int)
    requires Binned(bins, home, sz) && Tiled(sz, base, top, end) && Aligned(sz) && base >= STATIC && 1 <= i < NBINS
    ensures var x := Node(Bin(i), bins[i], k);
      x % 8 == 0 && (x == Bin(i) || (x in home && home[x] == i && x in sz && x >= base))
  {
    assert BinAt(bins, home, sz, i);
    if 1 <= k <= |bins[i]| {
      var x := bins[i][k - 1];
      assert x in bins[i] && HomeAt(bins, home, sz, x) && AlignedAt(sz, x) && ChunkAt(sz, base, top, x);
    }
  }

  /** Joining two nodes of bin i leaves the links of all other bins alone. */
  lemma JoinSparesOthers(m: Mem, bins: seq<seq<int>>, home: Home, sz: Chunks, base: int, top: int, end: int,
                         i: int, a: int, b: int)
    requires Binned(bins, home, sz) && Tiled(sz, base, top, end) && Aligned(sz) && base >= STATIC && 1 <= i < NBINS
    requires a % 8 == 0 && (a == Bin(i) || (a >= base && (a in home ==> home[a] == i)))
    requires b % 8 == 0 && (b == Bin(i) || (b >= base && (b in home ==> home[b] == i)))
    ensures forall j {:trigger Bin(j)} :: 1 <= j < NBINS && j != i ==> SameLinks(m, Join(m, a, b), Bin(j))
    ensures forall x {:trigger x in home} :: x in home && home[x] != i ==> SameLinks(m, Join(m, a, b), x)
  {
    forall j {:trigger Bin(j)} | 1 <= j < NBINS && j != i ensures SameLinks(m, Join(m, a, b), Bin(j)) {
      JoinLinks(m, a, b, Bin(j));
    }
    forall x {:trigger x in home} | x in home && home[x] != i ensures SameLinks(m, Join(m, a, b), x) {
      assert HomeAt(bins, home, sz, x) && AlignedAt(sz, x) && ChunkAt(sz, base, top, x);
      JoinLinks(m, a, b, x);
    }
  }

  /** unlink(P, BK, FD) with the neighbours read from P itself. */
  lemma UnlinkRings(m: Mem, bins: seq<seq<int>>, home: Home, sz: Chunks, base: int, top: int, end: int, p: int, k: nat)
    requires Rings(m, bins) && Binned(bins, home, sz) && Tiled(sz, base, top, end) && Aligned(sz) && base >= STATIC
    requires p in home && 1 <= home[p] < NBINS && k < |bins[home[p]]| && bins[home[p]][k] == p
    ensures Bk(m, p) == Node(Bin(home[p]), bins[home[p]], k) && Fd(m, p) == Node(Bin(home[p]), bins[home[p]], k + 2)
    ensures Rings(Join(m, Bk(m, p), Fd(m, p)), bins[home[p] := RemoveAt(bins[home[p]], k)])
  {
    var i := home[p];
    var h, s := Bin(i), bins[i];
    assert RingOf(m, bins, i);
    BinProper(bins, home, sz, base, top, end, i);
    RingNeighbours(m, h, s, k);
    RingRemove(m, h, s, k);
    NodeOfBin(bins, home, sz, base, top, end, i, k);
    NodeOfBin(bins, home, sz, base, top, end, i, k + 2);
    var a, b := Bk(m, p), Fd(m, p);
    JoinSparesOthers(m, bins, home, sz, base, top, end, i, a, b);
    RingsUpdate(m, Join(m, a, b), bins, home, sz, i, RemoveAt(s, k));
  }

  /** A chunk that is in no bin joins bin i between positions k and k + 1. */
  lemma InsertRings(m: Mem, bins: seq<seq<int>>, home: Home, sz: Chunks, base: int, top: int, end: int, i: int, k: nat, v: int)
    requires Rings(m, bins) && Binned(bins, home, sz) && Tiled(sz, base, top, end) && Aligned(sz) && base >= STATIC
    requires 1 <= i < NBINS && k <= |bins[i]| && v % 8 == 0 && v >= base && v !in home
    ensures Rings(Join(Join(m, Node(Bin(i), bins[i], k), v), v, Node(Bin(i), bins[i], k + 1)), bins[i := InsertAt(bins[i], k, v)])
  {
    var h, s := Bin(i), bins[i];
    var a, b := Node(h, s, k), Node(h, s, k + 1);
    assert RingOf(m, bins, i) && BinAt(bins, home, sz, i);
    BinProper(bins, home, sz, base, top, end, i);
    RingInsert(m, h, s, k, v);
    NodeOfBin(bins, home, sz, base, top, end, i, k);
    NodeOfBin(bins, home, sz, base, top, end, i, k + 1);
    var m1 := Join(m, a, v);
    var m2 := Join(m1, v, b);
    JoinSparesOthers(m, bins, home, sz, base, top, end, i, a, v);
    JoinSparesOthers(m1, bins, home, sz, base, top, end, i, v, b);
    forall j {:trigger Bin(j)} | 1 <= j < NBINS && j != i ensures SameLinks(m, m2, Bin(j)) {
      assert SameLinks(m, m1, Bin(j)) && SameLinks(m1, m2, Bin(j));
    }
    forall x {:trigger x in home} | x in home && home[x] != i ensures SameLinks(m, m2, x) {
      assert SameLinks(m, m1, x) && SameLinks(m1, m2, x);
    }
    RingsUpdate(m, m2, bins, home, sz, i, InsertAt(s, k, v));
  }

  /** A write anywhere between the start of a chunk that is in no bin and the size word after it spares all links. */
  lemma OutsideWrite(m: Mem, bins: seq<seq<int>>, home: Home, sz: Chunks, base: int, top: int, end: int, p: int, addr: int, v: int)
    requires Rings(m, bins) && Binned(bins, home, sz) && Tiled(sz, base, top, end) && base >= STATIC
    requires p in sz && p !in home && p <= addr <= p + sz[p] + 4
    ensures Rings(m[addr := v], bins)
  {
    var m' := m[addr := v];
    assert ChunkAt(sz, base, top, p);
    forall x {:trigger x in home.Keys} | x in home.Keys ensures SameLinks(m, m', x) {
      assert HomeAt(bins, home, sz, x);
      Apart(sz, base, top, end, p, x);
    }
    RingsFrame(m, m', bins, home, sz);
  }

  /** malloc_init_state: every header points to itself, every bin is empty. */
  lemma EmptyRings(m: Mem, bins: seq<seq<int>>)
    requires |bins| == NBINS && forall i {:trigger bins[i]} :: 0 <= i < NBINS ==> bins[i] == []
    requires forall i {:trigger Bin(i)} :: 1 <= i < NBINS ==> Fd(m, Bin(i)) == Bin(i) && Bk(m, Bin(i)) == Bin(i)
    ensures Rings(m, bins)
  {
    forall i {:trigger RingOf(m, bins, i)} | 1 <= i < NBINS ensures RingOf(m, bins, i) {
      assert bins[i] == [];
      assert Fd(m, Bin(i)) == Bin(i);
    }
  }

  // ---------------------------------------------------------------- links and the layout

  /** Words below the heap are no part of it. */
  lemma StaticWrite(m: Mem, sz: Chunks, base: int, top: int, end: int, free: set<int>, addr: int, v: int)
    requires Laid(m, sz, base, top, end, free) && addr < base
    ensures Laid(m[addr := v], sz, base, top, end, free)
    ensures SameBlocks(m, sz, m[addr := v], sz, sz.Keys)
  {
    var m' := m[addr := v];
    forall q {:trigger Head(m', q)} | q in sz ensures Head(m', q) == Head(m, q) && Load(m', q) == Load(m, q) {
      assert ChunkAt(sz, base, top, q);
    }
    forall q | q in sz ensures TagAt(m', sz, top, free, q) {
      assert TagAt(m, sz, top, free, q);
      if q != top && Next(sz, q) in sz { assert Head(m', Next(sz, q)) == Head(m, Next(sz, q)); }
    }
    forall q | q in sz ensures SameBlock(m, sz, m', sz, q) {
      assert ChunkAt(sz, base, top, q);
    }
  }

  /** Joining nodes disturbs no tag, and no block but those of the nodes. */
  lemma JoinLaid(m: Mem, sz: Chunks, base: int, top: int, end: int, free: set<int>, a: int, b: int)
    requires Laid(m, sz, base, top, end, free)
    requires (a in sz || a + 16 <= base) && (b in sz || b + 16 <= base)
    ensures Laid(Join(m, a, b), sz, base, top, end, free)
    ensures SameBlocks(m, sz, Join(m, a, b), sz, sz.Keys - {a, b})
  {
    var m1 := m[a + 8 := b];
    if a in sz { LinkWrite(m, sz, base, top, end, free, a, 8, b); } else { StaticWrite(m, sz, base, top, end, free, a + 8, b); }
    if b in sz { LinkWrite(m1, sz, base, top, end, free, b, 12, a); } else { StaticWrite(m1, sz, base, top, end, free, b + 12, a); }
    forall p | p in sz.Keys - {a, b} ensures SameBlock(m, sz, Join(m, a, b), sz, p) {
      assert SameBlock(m, sz, m1, sz, p) && SameBlock(m1, sz, Join(m, a, b), sz, p);
    }
  }

  // ---------------------------------------------------------------- where bookkeeping writes

  /** Word a is one of the first four of a chunk: the footer before it, its size, its links. */
  predicate NearStart(starts: set<int>, a: int) {
    a in starts || a - 4 in starts || a - 8 in starts || a - 12 in starts
  }

  ghost predicate TouchedAt(m0: Mem, m1: Mem, starts: set<int>, base: int, a: int) {
    Load(m1, a) == Load(m0, a) || (0 <= Load(m1, a) < 0x8000_0000 && (a < base || NearStart(starts, a)))
  }

  /** Every word that differs holds a size or an address, and lies below the heap or at the start of a chunk. */
  ghost predicate Touched(m0: Mem, m1: Mem, starts: set<int>, base: int) {
    forall a {:trigger TouchedAt(m0, m1, starts, base, a)} :: TouchedAt(m0, m1, starts, base, a)
  }

  lemma TouchNothing(m: Mem, starts: set<int>, base: int)
    ensures Touched(m, m, starts, base)
  {
  }

  lemma TouchOne(m0: Mem, m: Mem, starts: set<int>, base: int, a: int, v: int)
    requires Touched(m0, m, starts, base) && 0 <= v < 0x8000_0000 && (a < base || NearStart(starts, a))
    ensures Touched(m0, m[a := v], starts, base)
  {
    var m' := m[a := v];
    forall b {:trigger TouchedAt(m0, m', starts, base, b)} ensures TouchedAt(m0, m', starts, base, b) {
      assert TouchedAt(m0, m, starts, base, b);
    }
  }

  lemma TouchTwice(m0: Mem, m1: Mem, m2: Mem, starts: set<int>, fewer: set<int>, base: int)
    requires Touched(m0, m1, starts, base) && Touched(m1, m2, fewer, base) && fewer <= starts
    ensures Touched(m0, m2, starts, base)
  {
    forall a {:trigger TouchedAt(m0, m2, starts, base, a)} ensures TouchedAt(m0, m2, starts, base, a) {
      assert TouchedAt(m0, m1, starts, base, a) && TouchedAt(m1, m2, fewer, base, a);
    }
  }

  // ---------------------------------------------------------------- fastbins

  ghost predicate ChainAt(m: Mem, s: seq<int>, k: int)
    requires 0 <= k < |s|
  {
    Fd(m, s[k]) == if k + 1 < |s| then s[k + 1] else 0
  }

  /** Following fd from the head visits exactly s and ends in 0. */
  ghost predicate Chain(m: Mem, head: int, s: seq<int>) {
    && head == (if s == [] then 0 else s[0])
    && forall k {:trigger ChainAt(m, s, k)} :: 0 <= k < |s| ==> ChainAt(m, s, k)
  }

  ghost predicate ChainOf(m: Mem, heads: seq<int>, fast: seq<seq<int>>, i: int)
    requires 0 <= i < |heads| && i < |fast|
  {
    Chain(m, heads[i], fast[i])
  }

  ghost predicate Chains(m: Mem, heads: seq<int>, fast: seq<seq<int>>) {
    && |heads| == |fast| == NFASTBINS
    && forall i {:trigger ChainOf(m, heads, fast, i)} :: 0 <= i < NFASTBINS ==> ChainOf(m, heads, fast, i)
  }

  /** Reading the stored words from the head on: the chunks of the fastbin in order, and then 0. */
  lemma {:induction false} ChainWalk(m: Mem, head: int, s: seq<int>, k: nat)
    requires Chain(m, head, s) && k <= |s|
    ensures Forward(m, head, k) == if k < |s| then s[k] else 0
  {
    if k > 0 {
      ChainWalk(m, head, s, k - 1);
      assert ChainAt(m, s, k - 1);
    }
  }

  lemma ChainFrame(m: Mem, m': Mem, head: int, s: seq<int>)
    requires Chain(m, head, s) && forall x {:trigger x in s} :: x in s ==> Fd(m', x) == Fd(m, x)
    ensures Chain(m', head, s)
  {
    forall k {:trigger ChainAt(m', s, k)} | 0 <= k < |s| ensures ChainAt(m', s, k) {
      assert ChainAt(m, s, k) && s[k] in s;
    }
  }

  lemma ChainsFrame(m: Mem, sz: Chunks, m': Mem, sz': Chunks, heads: seq<int>, fast: seq<seq<int>>, used: set<int>)
    requires Chains(m, heads, fast) && Fast(fast, sz, used) && SameBlocks(m, sz, m', sz', used)
    ensures Chains(m', heads, fast)
  {
    forall i {:trigger ChainOf(m', heads, fast, i)} | 0 <= i < NFASTBINS ensures ChainOf(m', heads, fast, i) {
      assert ChainOf(m, heads, fast, i) && FastAt(fast, sz, used, i);
      forall x {:trigger x in fast[i]} | x in fast[i] ensures Fd(m', x) == Fd(m, x) {
        assert SameBlock(m, sz, m', sz', x);
        FastIsLarge(sz[x], i);
      }
      ChainFrame(m, m', heads[i], fast[i]);
    }
  }

  lemma FastIsLarge(size: int, i: int)
    requires FastbinIndex(size) == i >= 0
    ensures size >= MINSIZE
  {
  }

  lemma ChainPop(m: Mem, head: int, s: seq<int>)
    requires Chain(m, head, s) && s != []
    ensures head == s[0] && Chain(m, Fd(m, head), s[1..])
  {
    assert ChainAt(m, s, 0);
    var t := s[1..];
    forall k {:trigger ChainAt(m, t, k)} | 0 <= k < |t| ensures ChainAt(m, t, k) { assert ChainAt(m, s, k + 1); }
  }

  lemma ChainPush(m: Mem, head: int, s: seq<int>, p: int)
    requires Chain(m, head, s) && p !in s
    ensures Chain(m[p + 8 := head], p, [p] + s)
  {
    var m', t := m[p + 8 := head], [p] + s;
    forall k {:trigger ChainAt(m', t, k)} | 0 <= k < |t| ensures ChainAt(m', t, k) {
      if k > 0 { assert ChainAt(m, s, k - 1) && s[k - 1] in s; }
    }
  }

  /** One chain changes. */
  lemma ChainsUpdate(m: Mem, heads: seq<int>, fast: seq<seq<int>>, i: int, head: int, s: seq<int>)
    requires |heads| == |fast| == NFASTBINS && 0 <= i < NFASTBINS && Chain(m, head, s)
    requires forall j {:trigger ChainOf(m, heads, fast, j)} :: 0 <= j < NFASTBINS && j != i ==> ChainOf(m, heads, fast, j)
    ensures Chains(m, heads[i := head], fast[i := s])
  {
    forall j {:trigger ChainOf(m, heads[i := head], fast[i := s], j)} | 0 <= j < NFASTBINS
      ensures ChainOf(m, heads[i := head], fast[i := s], j)
    {
      assert j != i ==> ChainOf(m, heads, fast, j);
    }
  }

  lemma EmptyChains(m: Mem, m': Mem, heads: seq<int>, fast: seq<seq<int>>)
    requires Chains(m, heads, fast) && FastEmpty(fast)
    ensures Chains(m', heads, fast)
  {
    forall i {:trigger ChainOf(m', heads, fast, i)} | 0 <= i < NFASTBINS ensures ChainOf(m', heads, fast, i) {
      assert ChainOf(m, heads, fast, i) && fast[i] == [];
    }
  }

  /** A block of the program changes or goes: no fastbin holds it. */
  lemma ChainsSpared(m: Mem, sz: Chunks, m': Mem, sz': Chunks, heads: seq<int>, fast: seq<seq<int>>, used: set<int>, p: int)
    requires Chains(m, heads, fast) && Fast(fast, sz, used) && p in LiveSet(used, fast)
    requires SameBlocks(m, sz, m', sz', used - {p})
    ensures Fast(fast, sz, used - {p}) && Chains(m', heads, fast)
  {
    forall i | 0 <= i < NFASTBINS ensures FastAt(fast, sz, used - {p}, i) {
      assert FastAt(fast, sz, used, i);
      assert p in fast[i] ==> InFast(fast, p);
    }
    ChainsFrame(m, sz, m', sz', heads, fast, used - {p});
  }
}
