/**
  The guarded allocator interface mem_alloc/mem_free on top of the heap, and whole runs of a program that
  allocates, writes and frees through it (shared/malloc.c.h, "Defensive wrapper").
 */
module HeapProgram {
  import opened HeapSizes
  import opened HeapLayout
  import opened HeapLists
  import opened HeapLinks
  import opened Heap

  const FRONT_GUARD: int := 0xa51234ab
  const BACK_GUARD: int := 0xdeadfedc

  /** Words of the guarded block: the zone rounded up to words, and two words on each side (32-bit arithmetic). */
  function GuardedWords(length: nat): (l: int)
    ensures l >= 4
  {
    (length + 3) % WORD / 4 + 4
  }

  function ZoneWords(length: nat): int {
    (length + 3) / 4
  }

  /** Either the 32-bit size computation is exact or the wrap-around test catches it. */
  lemma WrapIsCaught(length: nat)
    requires 0 < length < WORD
    ensures var l2 := GuardedWords(length) * 4 % WORD;
            l2 > length <==> 4 * (ZoneWords(length) + 4) < WORD
    ensures 4 * (ZoneWords(length) + 4) < WORD ==>
              GuardedWords(length) == ZoneWords(length) + 4 && GuardedWords(length) * 4 % WORD == 4 * GuardedWords(length)
  {
    var z := ZoneWords(length);
    if length + 3 < WORD {
      assert (length + 3) % WORD == length + 3;
      if 4 * (z + 4) >= WORD {
        assert 4 * (z + 4) % WORD == 4 * (z + 4) - WORD;
      }
    } else {
      assert (length + 3) % WORD == length + 3 - WORD < 4;
    }
  }

  /** The guard words of a zone are intact (zone is two words past the malloc pointer p). */
  ghost predicate Guarded(m: Mem, zone: int, length: nat) {
    var p, l := zone - 8, ZoneWords(length) + 4;
    && Load(m, p) == length && Load(m, p + 4) == FRONT_GUARD
    && Load(m, p + 4 * (l - 2)) == BACK_GUARD && Load(m, p + 4 * (l - 1)) == p
  }

  function WordAt(m: Mem, a: int, i: int): int {
    Load(m, a + 4 * i)
  }

  ghost predicate Holds(m: Mem, zone: int, words: seq<int>) {
    forall i {:trigger words[i]} :: 0 <= i < |words| ==> WordAt(m, zone, i) == words[i]
  }

  /** The zone belongs to a live block large enough for it and its guards. */
  ghost predicate Owned(sz: Chunks, live: set<int>, zone: int, length: nat) {
    zone - 16 in live && zone - 16 in sz && sz[zone - 16] - 4 >= 4 * (ZoneWords(length) + 4)
  }

  /** A store by the program into a block it holds. */
  method Put(h: Allocator, ghost p: int, a: int, v: int)
    requires h.Valid() && p in h.Live() && p in h.sz && p + 8 <= a < p + h.sz[p] + 4
    modifies h`mem
    ensures h.Valid() && h.mem == old(h.mem)[a := v]
    ensures SameBlocks(old(h.mem), h.sz, h.mem, h.sz, h.Live() - {p})
  {
    PayloadWrite(h.mem, h.sz, h.start, h.top, h.brk, h.home.Keys, p, a, v);
    OutsideWrite(h.mem, h.bins, h.home, h.sz, h.start, h.top, h.brk, p, a, v);
    ghost var m0 := h.mem;
    h.mem := h.mem[a := v];
    ChainsSpared(m0, h.sz, h.mem, h.sz, h.heads, h.fastbins, h.Used(), p);
    forall q | q in h.Live() - {p} ensures SameBlock(m0, h.sz, h.mem, h.sz, q) {
      assert q in h.Used() - {p};
    }
  }

  /** memset on words: n words from a on, inside block p. */
  method Clear(h: Allocator, ghost p: int, a: int, n: nat)
    requires h.Valid() && p in h.Live() && p in h.sz && p + 8 <= a && a + 4 * n <= p + h.sz[p] + 4
    modifies h`mem
    ensures h.Valid()
    ensures forall i {:trigger WordAt(h.mem, a, i)} :: 0 <= i < n ==> WordAt(h.mem, a, i) == 0
    ensures forall b {:trigger Load(h.mem, b)} :: b < a || b >= a + 4 * n ==> Load(h.mem, b) == Load(old(h.mem), b)
    ensures SameBlocks(old(h.mem), h.sz, h.mem, h.sz, h.Live() - {p})
  {
    ghost var m0 := h.mem;
    forall q | q in h.Live() - {p} ensures SameBlock(m0, h.sz, h.mem, h.sz, q) {}
    for i := 0 to n
      invariant h.Valid() && h.Live() == old(h.Live())
      invariant forall j {:trigger WordAt(h.mem, a, j)} :: 0 <= j < i ==> WordAt(h.mem, a, j) == 0
      invariant forall b {:trigger Load(h.mem, b)} :: b < a || b >= a + 4 * n ==> Load(h.mem, b) == Load(m0, b)
      invariant SameBlocks(m0, h.sz, h.mem, h.sz, h.Live() - {p})
    {
      ghost var m1 := h.mem;
      Put(h, p, a + 4 * i, 0);
      assert forall b {:trigger Load(h.mem, b)} :: b != a + 4 * i ==> Load(h.mem, b) == Load(m1, b);
      assert forall j {:trigger WordAt(h.mem, a, j)} :: 0 <= j < i ==> WordAt(h.mem, a, j) == WordAt(m1, a, j);
      SameBlocksCompose(m0, h.sz, m1, h.sz, h.mem, h.sz, h.Live() - {p}, h.Live() - {p}, h.Live() - {p});
    }
  }

  /** Why there may be no zone of this length: it is 0, wraps, is out of range, or memory is exhausted. */
  ghost predicate Refused(h: Allocator, length: nat)
    reads h
  {
    var n := 4 * (ZoneWords(length) + 4);
    length == 0 || n >= WORD || OutOfRange(n) || h.OutOfMemory(Request2Size(n))
  }

  /** mem_alloc: a zeroed zone between guard words, or 0. */
  method MemAlloc(h: Allocator, length: nat) returns (zone: int)
    requires h.Valid() && length < WORD
    modifies h
    ensures h.Valid() && SameBlocks(old(h.mem), old(h.sz), h.mem, h.sz, old(h.Live()))
    ensures zone == 0 ==> h.Live() == old(h.Live())
    ensures zone == 0 ==> Refused(h, length)
    ensures zone != 0 ==>
      && zone - 16 !in old(h.Live()) && h.Live() == old(h.Live()) + {zone - 16}
      && 0 < length && 4 * (ZoneWords(length) + 4) < WORD
      && Owned(h.sz, h.Live(), zone, length) && Guarded(h.mem, zone, length) && zone % 8 == 0
      && (forall i {:trigger WordAt(h.mem, zone, i)} :: 0 <= i < ZoneWords(length) ==> WordAt(h.mem, zone, i) == 0)
  {
    ghost var m0, sz0, live0 := h.mem, h.sz, h.Live();
    forall q | q in live0 ensures SameBlock(m0, sz0, h.mem, h.sz, q) {}
    var l := GuardedWords(length);
    var l2 := l * 4 % WORD;
    if length == 0 { return 0; }
    WrapIsCaught(length);
    if l2 <= length { return 0; }
    var p, _ := h.Malloc(l2);
    if p == 0 { return 0; }
    ghost var m1 := h.mem;
    Enclose(h, p, l, length);
    zone := p + 8;
    SameBlocksCompose(m0, sz0, m1, h.sz, h.mem, h.sz, live0, h.Live() - {p - 8}, live0);
    assert ChunkAt(h.sz, h.start, h.top, p - 8);
    Multiples(p, 8);
  }

  /** The new block becomes a zeroed zone between its guards. */
  method Enclose(h: Allocator, p: int, l: int, length: nat)
    requires h.Valid() && p - 8 in h.Live() && p - 8 in h.sz && h.sz[p - 8] - 4 >= 4 * l && l == ZoneWords(length) + 4
    modifies h`mem
    ensures h.Valid() && Guarded(h.mem, p + 8, length)
    ensures forall i {:trigger WordAt(h.mem, p + 8, i)} :: 0 <= i < ZoneWords(length) ==> WordAt(h.mem, p + 8, i) == 0
    ensures SameBlocks(old(h.mem), h.sz, h.mem, h.sz, h.Live() - {p - 8})
  {
    ghost var m1, rest := h.mem, h.Live() - {p - 8};
    WriteGuards(h, p, l, length);
    ghost var m2 := h.mem;
    Clear(h, p - 8, p + 8, l - 4);
    SameBlocksCompose(m1, h.sz, m2, h.sz, h.mem, h.sz, rest, rest, rest);
  }

  method WriteGuards(h: Allocator, p: int, l: int, length: nat)
    requires h.Valid() && p - 8 in h.Live() && p - 8 in h.sz && h.sz[p - 8] - 4 >= 4 * l && l == ZoneWords(length) + 4
    modifies h`mem
    ensures h.Valid() && Guarded(h.mem, p + 8, length)
    ensures SameBlocks(old(h.mem), h.sz, h.mem, h.sz, h.Live() - {p - 8})
  {
    ghost var m0, rest := h.mem, h.Live() - {p - 8};
    Put(h, p - 8, p, length);
    ghost var m1 := h.mem;
    Put(h, p - 8, p + 4, FRONT_GUARD);
    ghost var m2 := h.mem;
    SameBlocksCompose(m0, h.sz, m1, h.sz, m2, h.sz, rest, rest, rest);
    Put(h, p - 8, p + 4 * (l - 2), BACK_GUARD);
    ghost var m3 := h.mem;
    SameBlocksCompose(m0, h.sz, m2, h.sz, m3, h.sz, rest, rest, rest);
    Put(h, p - 8, p + 4 * (l - 1), p);
    SameBlocksCompose(m0, h.sz, m3, h.sz, h.mem, h.sz, rest, rest, rest);
  }

  /** What mem_free tests for the length it is given, computed in 32 bits. */
  predicate LooksIntact(m: Mem, zone: int, length: nat) {
    var p, l := zone - 8, GuardedWords(length);
    && Load(m, p + 4) == FRONT_GUARD && Load(m, p) == length
    && Load(m, p + 4 * (l - 2)) == BACK_GUARD && Load(m, p + 4 * (l - 1)) == p
  }

  /** An intact zone looks intact for its own length and for no other. */
  lemma WrongLengthIsSeen(m: Mem, zone: int, length: nat, other: nat)
    requires Guarded(m, zone, length) && 0 < length < WORD && 4 * (ZoneWords(length) + 4) < WORD
    ensures LooksIntact(m, zone, other) <==> other == length
  {
    WrapIsCaught(length);
  }

  /** The l words of a block of the given size read 0, but for the two that may hold links and the one that may be a footer. */
  ghost predicate Wiped(m: Mem, zone: int, l: int, size: int) {
    forall i {:trigger WordAt(m, zone - 8, i)} :: 2 <= i < l && zone - 8 + 4 * i != zone - 16 + size ==> WordAt(m, zone - 8, i) == 0
  }

  /** What release writes misses the inside of a block, and is no guard word. */
  lemma WipeStands(m0: Mem, m1: Mem, sz: Chunks, base: int, top: int, end: int, zone: int, l: int)
    requires Tiled(sz, base, top, end) && zone - 16 in sz && 4 <= l && 4 * l <= sz[zone - 16] - 4
    requires Touched(m0, m1, sz.Keys, base)
    requires forall i {:trigger WordAt(m0, zone - 8, i)} :: 0 <= i < l ==> WordAt(m0, zone - 8, i) == 0
    ensures Load(m1, zone - 4) != FRONT_GUARD && Wiped(m1, zone, l, sz[zone - 16])
  {
    var c := zone - 16;
    assert WordAt(m0, zone - 8, 1) == 0 && TouchedAt(m0, m1, sz.Keys, base, zone - 4);
    forall i {:trigger WordAt(m1, zone - 8, i)} | 2 <= i < l && zone - 8 + 4 * i != c + sz[c] ensures WordAt(m1, zone - 8, i) == 0 {
      var a := zone - 8 + 4 * i;
      assert WordAt(m0, zone - 8, i) == 0 && TouchedAt(m0, m1, sz.Keys, base, a);
      InsideIsFar(sz, base, top, end, c, a);
    }
  }

  lemma InsideIsFar(sz: Chunks, base: int, top: int, end: int, c: int, a: int)
    requires Tiled(sz, base, top, end) && c in sz && c + 16 <= a < c + sz[c]
    ensures a >= base && !NearStart(sz.Keys, a)
  {
    assert ChunkAt(sz, base, top, c);
    FarFrom(sz, base, top, end, c, a, a);
    FarFrom(sz, base, top, end, c, a, a - 4);
    FarFrom(sz, base, top, end, c, a, a - 8);
    FarFrom(sz, base, top, end, c, a, a - 12);
  }

  lemma FarFrom(sz: Chunks, base: int, top: int, end: int, c: int, a: int, s: int)
    requires Tiled(sz, base, top, end) && c in sz && c + 16 <= a < c + sz[c] && a - 12 <= s <= a
    ensures s !in sz
  {
    if s in sz && s != c { Apart(sz, base, top, end, c, s); }
  }

  /**
    mem_free, for any address and any length: whatever does not look like an intact zone of that length is reported
    and left alone; what does look like one, and is one, is wiped and given back.
   */
  method MemFree(h: Allocator, zone: int, length: nat) returns (bug: bool)
    requires h.Valid() && length < WORD
    requires length > 0 && LooksIntact(h.mem, zone, length) ==>
      4 * (ZoneWords(length) + 4) < WORD && Owned(h.sz, h.Live(), zone, length)
    modifies h
    ensures h.Valid()
    ensures length == 0 ==> !bug && unchanged(h)
    ensures length > 0 ==> bug == !LooksIntact(old(h.mem), zone, length)
    ensures bug ==> unchanged(h)
    ensures length > 0 && !bug ==>
      && h.Live() == old(h.Live()) - {zone - 16}
      && SameBlocks(old(h.mem), old(h.sz), h.mem, h.sz, h.Live())
    ensures length > 0 && !bug ==>
      && (forall other: nat {:trigger LooksIntact(h.mem, zone, other)} :: !LooksIntact(h.mem, zone, other))
      && Wiped(h.mem, zone, ZoneWords(length) + 4, old(h.sz)[zone - 16])
  {
    ghost var m0, sz0 := h.mem, h.sz;
    if length == 0 {
      return false;
    }
    WrapIsCaught(length);
    var l := GuardedWords(length);
    var p := zone - 8;
    if Load(h.mem, p + 4) != FRONT_GUARD || Load(h.mem, p) != length
      || Load(h.mem, p + 4 * (l - 2)) != BACK_GUARD || Load(h.mem, p + 4 * (l - 1)) != p {
      return true;
    }
    Clear(h, p - 8, p, l);
    ghost var m1 := h.mem;
    ghost var live1 := h.Live();
    assert p != 0 by { assert ChunkAt(h.sz, h.start, h.top, p - 8); }
    ghost var top1, brk1 := h.top, h.brk;
    ghost var _ := h.Free(p);
    WipeStands(m1, h.mem, sz0, h.start, top1, brk1, zone, l);
    SameBlocksCompose(m0, sz0, m1, sz0, h.mem, h.sz, live1 - {p - 8}, h.Live(), h.Live());
    bug := false;
  }

  /** A zone freed twice in a row is reported the second time, and the heap is left alone. */
  method FreedTwice(h: Allocator, length: nat) returns (zone: int, first: bool, second: bool)
    requires h.Valid() && length < WORD
    modifies h
    ensures h.Valid()
    ensures zone != 0 ==> !first && second && h.Live() == old(h.Live())
    ensures SameBlocks(old(h.mem), old(h.sz), h.mem, h.sz, old(h.Live()))
  {
    ghost var m0, sz0, live0 := h.mem, h.sz, h.Live();
    zone := MemAlloc(h, length);
    first, second := false, false;
    if zone != 0 {
      ghost var m1, sz1, live1 := h.mem, h.sz, h.Live();
      WrongLengthIsSeen(h.mem, zone, length, length);
      first := MemFree(h, zone, length);
      assert !LooksIntact(h.mem, zone, length);
      ghost var m2, sz2 := h.mem, h.sz;
      second := MemFree(h, zone, length);
      SameBlocksCompose(m0, sz0, m1, sz1, m2, sz2, live0, live0, live0);
    }
  }

  // ---------------------------------------------------------------- whole runs

  datatype Request = Alloc(length: nat) | Store(zone: int, index: nat, value: int) | Release(zone: int)

  datatype Zone = Zone(length: nat, words: seq<int>)

  type Table = map<int, Zone>

  /** The heap represents a table of zones: each owned by its own live block, guarded, holding exactly its words. */
  ghost predicate ZoneAt(m: Mem, sz: Chunks, live: set<int>, t: Table, z: int)
    requires z in t
  {
    && 0 < t[z].length < WORD && |t[z].words| == ZoneWords(t[z].length) && 4 * (|t[z].words| + 4) < WORD
    && Owned(sz, live, z, t[z].length) && Guarded(m, z, t[z].length) && Holds(m, z, t[z].words)
  }

  ghost predicate Represents(m: Mem, sz: Chunks, live: set<int>, t: Table) {
    forall z {:trigger ZoneAt(m, sz, live, t, z)} :: z in t ==> ZoneAt(m, sz, live, t, z)
  }

  /** A zone survives whatever leaves its block alone. */
  lemma ZoneFrame(m0: Mem, sz0: Chunks, live0: set<int>, m1: Mem, sz1: Chunks, live1: set<int>, t: Table, z: int)
    requires z in t && ZoneAt(m0, sz0, live0, t, z)
    requires SameBlock(m0, sz0, m1, sz1, z - 16) && z - 16 in live1
    ensures ZoneAt(m1, sz1, live1, t, z)
  {
    var n := ZoneWords(t[z].length);
    assert forall i {:trigger WordAt(m1, z, i)} :: 0 <= i < n ==> WordAt(m1, z, i) == WordAt(m0, z, i);
  }

  /** The reference machine: zones are separate, zero-initialised arrays; a failed allocation changes nothing. */
  function Interpret(t: Table, q: Request, zone: int): Table {
    match q
    case Alloc(length) => if zone == 0 then t else t[zone := Zone(length, seq(ZoneWords(length), _ => 0))]
    case Store(z, i, v) =>
      if z in t && i < |t[z].words| then t[z := t[z].(words := t[z].words[i := v])] else t
    case Release(z) => t - {z}
  }

  function InterpretAll(t: Table, qs: seq<Request>, zones: seq<int>): Table
    requires |qs| == |zones|
  {
    if qs == [] then t
    else Interpret(InterpretAll(t, qs[..|qs| - 1], zones[..|zones| - 1]), qs[|qs| - 1], zones[|zones| - 1])
  }

  method StepAlloc(h: Allocator, t: Table, length: nat) returns (zone: int)
    requires h.Valid() && Represents(h.mem, h.sz, h.Live(), t)
    modifies h
    ensures h.Valid() && Represents(h.mem, h.sz, h.Live(), Interpret(t, Alloc(length), zone))
    ensures zone !in t || zone == 0
    ensures zone == 0 ==> length >= WORD || Refused(h, length)
  {
    zone := 0;
    if length >= WORD { return; }
    ghost var m0, sz0, live0 := h.mem, h.sz, h.Live();
    zone := MemAlloc(h, length);
    ghost var t' := Interpret(t, Alloc(length), zone);
    forall z | z in t && (z != zone || zone == 0) ensures ZoneAt(h.mem, h.sz, h.Live(), t', z) {
      assert ZoneAt(m0, sz0, live0, t, z) && SameBlock(m0, sz0, h.mem, h.sz, z - 16);
      ZoneFrame(m0, sz0, live0, h.mem, h.sz, h.Live(), t, z);
    }
    if zone != 0 {
      assert zone in t ==> ZoneAt(m0, sz0, live0, t, zone);
      assert ZoneAt(h.mem, h.sz, h.Live(), t', zone);
    }
  }

  method StepStore(h: Allocator, t: Table, zone: int, i: nat, v: int)
    requires h.Valid() && Represents(h.mem, h.sz, h.Live(), t)
    requires zone in t && i < |t[zone].words|
    modifies h`mem
    ensures h.Valid() && h.Live() == old(h.Live())
    ensures Represents(h.mem, h.sz, h.Live(), Interpret(t, Store(zone, i, v), 0))
  {
    ghost var m0, live := h.mem, h.Live();
    ghost var t' := Interpret(t, Store(zone, i, v), 0);
    assert ZoneAt(m0, h.sz, live, t, zone);
    Put(h, zone - 16, zone + 4 * i, v);
    forall z | z in t' ensures ZoneAt(h.mem, h.sz, live, t', z) {
      assert ZoneAt(m0, h.sz, live, t, z);
      if z != zone {
        assert SameBlock(m0, h.sz, h.mem, h.sz, z - 16);
        ZoneFrame(m0, h.sz, live, h.mem, h.sz, live, t, z);
      } else {
        assert forall j {:trigger WordAt(h.mem, z, j)} :: 0 <= j < |t[z].words| ==>
          WordAt(h.mem, z, j) == if j == i then v else WordAt(m0, z, j);
      }
    }
  }

  method StepRelease(h: Allocator, t: Table, zone: int) returns (bug: bool)
    requires h.Valid() && Represents(h.mem, h.sz, h.Live(), t) && zone in t
    modifies h
    ensures h.Valid() && !bug && Represents(h.mem, h.sz, h.Live(), Interpret(t, Release(zone), 0))
  {
    ghost var m0, sz0, live0 := h.mem, h.sz, h.Live();
    ghost var t' := Interpret(t, Release(zone), 0);
    assert ZoneAt(m0, sz0, live0, t, zone);
    WrongLengthIsSeen(m0, zone, t[zone].length, t[zone].length);
    bug := MemFree(h, zone, t[zone].length);
    forall z | z in t' ensures ZoneAt(h.mem, h.sz, h.Live(), t', z) {
      assert ZoneAt(m0, sz0, live0, t, z) && SameBlock(m0, sz0, h.mem, h.sz, z - 16);
      ZoneFrame(m0, sz0, live0, h.mem, h.sz, h.Live(), t, z);
    }
  }

  /** One request; requests on zones that the program does not hold are skipped. */
  method Step(h: Allocator, t: Table, q: Request) returns (zone: int)
    requires h.Valid() && Represents(h.mem, h.sz, h.Live(), t)
    modifies h
    ensures h.Valid() && Represents(h.mem, h.sz, h.Live(), Interpret(t, q, zone))
    ensures q.Alloc? && zone != 0 ==> zone !in t
    ensures zone == 0 <== !q.Alloc?
    ensures q.Alloc? && zone == 0 ==> q.length >= WORD || Refused(h, q.length)
  {
    zone := 0;
    match q {
      case Alloc(length) => zone := StepAlloc(h, t, length);
      case Store(z, i, v) => if z in t && i < |t[z].words| { StepStore(h, t, z, i, v); }
      case Release(z) =>
        if z in t {
          var bug := StepRelease(h, t, z);
          assert !bug;
        } else {
          assert t - {z} == t;
        }
    }
  }

  /** A zone handed out in the k-th step was not in use then. */
  ghost predicate NewZone(qs: seq<Request>, zones: seq<int>, k: nat)
    requires k < |zones| <= |qs|
  {
    qs[k].Alloc? && zones[k] != 0 ==> zones[k] !in InterpretAll(map[], qs[..k], zones[..k])
  }

  lemma RunExtends(qs: seq<Request>, zones: seq<int>, t: Table, zone: int)
    requires |zones| < |qs| && t == InterpretAll(map[], qs[..|zones|], zones)
    requires qs[|zones|].Alloc? && zone != 0 ==> zone !in t
    requires forall k {:trigger NewZone(qs, zones, k)} :: 0 <= k < |zones| ==> NewZone(qs, zones, k)
    ensures InterpretAll(map[], qs[..|zones| + 1], zones + [zone]) == Interpret(t, qs[|zones|], zone)
    ensures forall k {:trigger NewZone(qs, zones + [zone], k)} :: 0 <= k < |zones| + 1 ==> NewZone(qs, zones + [zone], k)
  {
    var n, zs := |zones|, zones + [zone];
    OneMore(qs, zones, zone);
    NewestZone(qs, zones, t, zone);
    forall k {:trigger NewZone(qs, zs, k)} | 0 <= k < n + 1 ensures NewZone(qs, zs, k) {
      if k < n {
        assert NewZone(qs, zones, k);
        StaysNew(qs, zones, zone, k);
      }
    }
  }

  lemma OneMore(qs: seq<Request>, zones: seq<int>, zone: int)
    requires |zones| < |qs|
    ensures var n := |zones|;
      InterpretAll(map[], qs[..n + 1], zones + [zone]) == Interpret(InterpretAll(map[], qs[..n], zones), qs[n], zone)
  {
    var n, qs', zs := |zones|, qs[..|zones| + 1], zones + [zone];
    assert zs[..|zs| - 1] == zones && qs'[..|qs'| - 1] == qs[..n] && qs'[|qs'| - 1] == qs[n];
  }

  lemma NewestZone(qs: seq<Request>, zones: seq<int>, t: Table, zone: int)
    requires |zones| < |qs| && t == InterpretAll(map[], qs[..|zones|], zones)
    requires qs[|zones|].Alloc? && zone != 0 ==> zone !in t
    ensures NewZone(qs, zones + [zone], |zones|)
  {
    assert (zones + [zone])[..|zones|] == zones;
  }

  lemma StaysNew(qs: seq<Request>, zones: seq<int>, zone: int, k: nat)
    requires k < |zones| < |qs| && NewZone(qs, zones, k)
    ensures NewZone(qs, zones + [zone], k)
  {
    assert (zones + [zone])[..k] == zones[..k];
  }

  /**
    Every run: whatever sequence of allocations, stores and releases a program makes (requests on zones it does
    not hold are skipped), the heap stays valid, no guard check ever reports corruption, and the memory of every
    zone it holds reads back exactly as in the reference machine of separate arrays.
   */
  method Run(h: Allocator, qs: seq<Request>) returns (t: Table, zones: seq<int>)
    requires h.Valid() && h.Live() == {}
    modifies h
    ensures h.Valid() && |zones| == |qs| && t == InterpretAll(map[], qs, zones)
    ensures Represents(h.mem, h.sz, h.Live(), t)
    ensures forall k {:trigger NewZone(qs, zones, k)} :: 0 <= k < |qs| ==> NewZone(qs, zones, k)
  {
    t, zones := map[], [];
    var n := 0;
    while n < |qs|
      invariant 0 <= n <= |qs| && |zones| == n
      invariant h.Valid() && t == InterpretAll(map[], qs[..n], zones)
      invariant Represents(h.mem, h.sz, h.Live(), t)
      invariant forall k {:trigger NewZone(qs, zones, k)} :: 0 <= k < n ==> NewZone(qs, zones, k)
    {
      var q := qs[n];
      var zone := Step(h, t, q);
      RunExtends(qs, zones, t, zone);
      t := Interpret(t, q, zone);
      zones := zones + [zone];
      n := n + 1;
    }
    assert qs[..n] == qs;
  }
}
