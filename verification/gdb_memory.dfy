/**
  The memory accesses of the GDB stub (kernel/gdb_serial_support.c): a lookup through the client's two-level page tables
  that also says how far the translation extends, and copies that go page by page, against a walk for every single byte.
  Section 4.3 of the Intel SDM, Volume 3A, defines the tables.
 */
module GdbMemory {
  import opened Arith

  const SPACE: int := 0x1_0000_0000
  const PAGE: int := 0x1000
  const SUPERPAGE: int := 0x40_0000

  /** Physical memory; a byte never written reads as zero. */
  type Memory = map<int, int>

  datatype Registers = Registers(cr0: int, cr3: int)

  predicate IsAddress(a: int) { 0 <= a < SPACE }

  function Byte(mem: Memory, a: int): int {
    if a in mem then mem[a] else 0
  }

  /** A little-endian word. */
  function Word(mem: Memory, a: int): int {
    Byte(mem, a) + 0x100 * Byte(mem, a + 1) + 0x1_0000 * Byte(mem, a + 2) + 0x100_0000 * Byte(mem, a + 3)
  }

  /** i bytes further on, in 32 bits. */
  function Plus(a: int, i: int): int { (a + i) % SPACE }

  function Frame(entry: int): int { entry - entry % PAGE }

  function PdeAddress(regs: Registers, va: int): int { Frame(regs.cr3) + 4 * (va / SUPERPAGE) }

  function PteAddress(pde: int, va: int): int { Frame(pde) + 4 * (va / PAGE % 1024) }

  predicate Paging(regs: Registers) { regs.cr0 / 0x8000_0000 % 2 == 1 }

  predicate Present(entry: int) { entry % 2 == 1 }

  predicate Large(pde: int) { pde / 0x80 % 2 == 1 }

  /** A word of a page table as the walk sees it: 32 bits. */
  function Entry(mem: Memory, a: int): (w: int)
    ensures IsAddress(w)
  {
    Word(mem, a) % SPACE
  }

  datatype Mapping = Unmapped | To(pa: int)

  /** Where the processor finds the byte at va. */
  function Translate(mem: Memory, regs: Registers, va: int): Mapping {
    if !Paging(regs) then To(va)
    else
      var pde := Entry(mem, PdeAddress(regs, va));
      if !Present(pde) then Unmapped
      else if Large(pde) then To(pde - pde % SUPERPAGE + va % SUPERPAGE)
      else
        var pte := Entry(mem, PteAddress(pde, va));
        if !Present(pte) then Unmapped else To(Frame(pte) + va % PAGE)
  }

  /** The mapping of the i-th byte of a range that starts at va. */
  function At(mem: Memory, regs: Registers, va: int, i: int): Mapping {
    Translate(mem, regs, Plus(va, i))
  }

  /** phys_addr_lookup: the physical address and the bytes left in the page; none if the address is not mapped. */
  method Lookup(mem: Memory, regs: Registers, va: int) returns (pa: int, len: int)
    requires IsAddress(va)
    ensures 0 <= len < SPACE && IsAddress(pa)
    ensures len == 0 <==> Translate(mem, regs, va).Unmapped?
    ensures forall i :: 0 <= i < len ==> At(mem, regs, va, i) == To(Plus(pa, i))
    ensures len > 0 ==>
      if !Paging(regs) then len == SPACE - 1
      else var size := if Large(Entry(mem, PdeAddress(regs, va))) then SUPERPAGE else PAGE; va % size + len == size
  {
    pa, len := 0, 0;
    var pde := Entry(mem, PdeAddress(regs, va));
    if !Paging(regs) {
      pa, len := va, SPACE - 1;
      return;
    }
    if !Present(pde) {
      return;
    }
    if !Large(pde) {
      var pte := Entry(mem, PteAddress(pde, va));
      var offs := va % PAGE;
      if !Present(pte) {
        return;
      }
      pa := Frame(pte) + offs;
      len := PAGE - offs;
      PageRun(mem, regs, va, pde, pte);
    } else {
      var offs := va % SUPERPAGE;
      pa := pde - pde % SUPERPAGE + offs;
      len := SUPERPAGE - offs;
      SuperpageRun(mem, regs, va, pde);
    }
  }

  /** Up to the end of a 4K page the walk finds the same entries. */
  lemma PageRun(mem: Memory, regs: Registers, va: int, pde: int, pte: int)
    requires IsAddress(va) && Paging(regs) && pde == Entry(mem, PdeAddress(regs, va)) && Present(pde) && !Large(pde)
    requires pte == Entry(mem, PteAddress(pde, va)) && Present(pte)
    ensures IsAddress(Frame(pte) + va % PAGE)
    ensures forall i :: 0 <= i < PAGE - va % PAGE ==> At(mem, regs, va, i) == To(Plus(Frame(pte) + va % PAGE, i))
  {
    var offs := va % PAGE;
    var pa := Frame(pte) + offs;
    FrameFits(pte, offs);
    forall i | 0 <= i < PAGE - offs ensures At(mem, regs, va, i) == To(Plus(pa, i)) {
      PageByte(mem, regs, va, pde, pte, offs, i);
    }
  }

  lemma FrameFits(pte: int, offs: int)
    requires IsAddress(pte) && 0 <= offs < PAGE
    ensures IsAddress(Frame(pte) + offs)
  {
  }

  lemma PageByte(mem: Memory, regs: Registers, va: int, pde: int, pte: int, offs: int, i: int)
    requires IsAddress(va) && Paging(regs) && pde == Entry(mem, PdeAddress(regs, va)) && Present(pde) && !Large(pde)
    requires pte == Entry(mem, PteAddress(pde, va)) && Present(pte)
    requires offs == va % PAGE && 0 <= i < PAGE - offs
    ensures At(mem, regs, va, i) == To(Plus(Frame(pte) + offs, i))
  {
    SamePage(va, i);
    SameFrame(pte, offs, i);
    SameTables(regs, pde, va, va + i);
  }

  lemma SameTables(regs: Registers, pde: int, va: int, vb: int)
    requires va / SUPERPAGE == vb / SUPERPAGE && va / PAGE == vb / PAGE
    ensures PdeAddress(regs, va) == PdeAddress(regs, vb) && PteAddress(pde, va) == PteAddress(pde, vb)
  {
  }

  lemma SuperpageRun(mem: Memory, regs: Registers, va: int, pde: int)
    requires IsAddress(va) && Paging(regs) && pde == Entry(mem, PdeAddress(regs, va)) && Present(pde) && Large(pde)
    ensures IsAddress(pde - pde % SUPERPAGE + va % SUPERPAGE)
    ensures forall i :: 0 <= i < SUPERPAGE - va % SUPERPAGE ==> At(mem, regs, va, i) == To(Plus(pde - pde % SUPERPAGE + va % SUPERPAGE, i))
  {
    forall i | 0 <= i < SUPERPAGE - va % SUPERPAGE ensures At(mem, regs, va, i) == To(Plus(pde - pde % SUPERPAGE + va % SUPERPAGE, i)) {
      SameSuperpage(va, i);
      SameLargeFrame(pde, va % SUPERPAGE, i);
    }
  }

  lemma SamePage(va: int, i: int)
    requires IsAddress(va) && 0 <= i < PAGE - va % PAGE
    ensures Plus(va, i) == va + i && va + i < SPACE
    ensures (va + i) / SUPERPAGE == va / SUPERPAGE && (va + i) / PAGE == va / PAGE
    ensures (va + i) % PAGE == va % PAGE + i
  {
  }

  lemma SameSuperpage(va: int, i: int)
    requires IsAddress(va) && 0 <= i < SUPERPAGE - va % SUPERPAGE
    ensures Plus(va, i) == va + i && va + i < SPACE
    ensures (va + i) / SUPERPAGE == va / SUPERPAGE && (va + i) % SUPERPAGE == va % SUPERPAGE + i
  {
  }

  lemma SameFrame(pte: int, offs: int, i: int)
    requires IsAddress(pte) && 0 <= offs && 0 <= i < PAGE - offs
    ensures Plus(Frame(pte) + offs, i) == Frame(pte) + offs + i
  {
  }

  lemma SameLargeFrame(pde: int, offs: int, i: int)
    requires IsAddress(pde) && 0 <= offs && 0 <= i < SUPERPAGE - offs
    ensures Plus(pde - pde % SUPERPAGE + offs, i) == pde - pde % SUPERPAGE + offs + i
  {
  }

  lemma PlusPlus(a: int, i: int, j: int)
    ensures Plus(Plus(a, i), j) == Plus(a, i + j)
    ensures IsAddress(a) ==> Plus(a, 0) == a
  {
  }

  lemma AtShift(mem: Memory, regs: Registers, va: int, d: int, i: int)
    ensures At(mem, regs, Plus(va, d), i) == At(mem, regs, va, d + i)
  {
    PlusPlus(va, d, i);
  }

  // ---- copyin ----

  /** Length of the mapped part at the start of a range: the index of its first unmapped byte. */
  function FirstHole(mem: Memory, regs: Registers, va: int, i: nat, n: nat): (k: nat)
    requires i <= n
    ensures i <= k <= n
    ensures forall j :: i <= j < k ==> At(mem, regs, va, j).To?
    ensures k < n ==> At(mem, regs, va, k).Unmapped?
    decreases n - i
  {
    if i == n || At(mem, regs, va, i).Unmapped? then i else FirstHole(mem, regs, va, i + 1, n)
  }

  /** The byte a program would read at va + i. */
  function Seen(mem: Memory, regs: Registers, va: int, i: int): int
    requires At(mem, regs, va, i).To?
  {
    Byte(mem, At(mem, regs, va, i).pa)
  }

  /** memcpy out of physical memory. */
  method CopyChunk(mem: Memory, pa: int, dest: array<int>, off: nat, size: nat)
    requires off + size <= dest.Length
    modifies dest
    ensures forall i :: off <= i < off + size ==> dest[i] == Byte(mem, Plus(pa, i - off))
    ensures forall i :: (0 <= i < off || off + size <= i < dest.Length) ==> dest[i] == old(dest[i])
  {
    var k := 0;
    while k < size
      invariant k <= size
      invariant forall i :: off <= i < off + k ==> dest[i] == Byte(mem, Plus(pa, i - off))
      invariant forall i :: (0 <= i < off || off + k <= i < dest.Length) ==> dest[i] == old(dest[i])
    {
      dest[off + k] := Byte(mem, Plus(pa, k));
      k := k + 1;
    }
  }

  /** gdb_copyin: 0 exactly when every byte is mapped; the bytes before the first hole are those a bytewise copy gives. */
  method CopyIn(mem: Memory, regs: Registers, va: int, dest: array<int>, size: nat) returns (status: int)
    requires IsAddress(va) && size <= dest.Length
    modifies dest
    ensures status == if FirstHole(mem, regs, va, 0, size) == size then 0 else -1
    ensures forall i :: 0 <= i < FirstHole(mem, regs, va, 0, size) ==> dest[i] == Seen(mem, regs, va, i)
    ensures forall i :: FirstHole(mem, regs, va, 0, size) <= i < dest.Length ==> dest[i] == old(dest[i])
  {
    ghost var hole := FirstHole(mem, regs, va, 0, size);
    var done, cur := 0, va;
    PlusPlus(va, 0, 0);
    while done < size
      invariant 0 <= done <= hole && cur == Plus(va, done) && IsAddress(cur)
      invariant forall i :: 0 <= i < done ==> dest[i] == Seen(mem, regs, va, i)
      invariant forall i :: done <= i < dest.Length ==> dest[i] == old(dest[i])
    {
      var pa, sz := Lookup(mem, regs, cur);
      assert Translate(mem, regs, cur) == At(mem, regs, va, done);
      if sz == 0 {
        return -1;
      }
      if sz > size - done {
        sz := size - done;
      }
      ChunkIsMapped(mem, regs, va, done, pa, sz, size);
      CopyChunk(mem, pa, dest, done, sz);
      PlusPlus(va, done, sz);
      cur := Plus(cur, sz);
      done := done + sz;
    }
    return 0;
  }

  lemma ChunkIsMapped(mem: Memory, regs: Registers, va: int, done: nat, pa: int, sz: nat, size: nat)
    requires done <= FirstHole(mem, regs, va, 0, size) && done + sz <= size
    requires forall i :: 0 <= i < sz ==> At(mem, regs, Plus(va, done), i) == To(Plus(pa, i))
    ensures done + sz <= FirstHole(mem, regs, va, 0, size)
    ensures forall i :: done <= i < done + sz ==> At(mem, regs, va, i) == To(Plus(pa, i - done))
  {
    forall i | done <= i < done + sz ensures At(mem, regs, va, i) == To(Plus(pa, i - done)) {
      AtShift(mem, regs, va, done, i - done);
    }
  }

  // ---- copyout ----

  /** Physical bytes that the walk for va reads. */
  predicate Reads(mem: Memory, regs: Registers, va: int, a: int) {
    Paging(regs) &&
    (var at := PdeAddress(regs, va);
     var pde := Entry(mem, at);
     at <= a < at + 4 ||
     (Present(pde) && !Large(pde) && PteAddress(pde, va) <= a < PteAddress(pde, va) + 4))
  }

  /** Writing the i-th byte of the range does not alter the walk for the j-th. */
  predicate Avoids(mem: Memory, regs: Registers, va: int, i: int, j: int) {
    At(mem, regs, va, i).To? ==> !Reads(mem, regs, Plus(va, j), At(mem, regs, va, i).pa)
  }

  /** The targets of a range of n bytes stay clear of the tables that map it. */
  predicate Apart(mem: Memory, regs: Registers, va: int, n: nat) {
    forall i, j :: 0 <= i < n && 0 <= j < n ==> Avoids(mem, regs, va, i, j)
  }

  /** The copy done byte by byte, with a fresh walk for each; it stops at the first hole. */
  function BytewiseOut(mem: Memory, regs: Registers, va: int, src: seq<int>): (Memory, bool)
    decreases |src|
  {
    if src == [] then (mem, true)
    else
      match Translate(mem, regs, va)
      case Unmapped => (mem, false)
      case To(pa) => BytewiseOut(mem[pa := src[0]], regs, Plus(va, 1), src[1..])
  }

  /** memcpy into physical memory. */
  function WriteBytes(mem: Memory, pa: int, bytes: seq<int>): Memory
    decreases |bytes|
  {
    if bytes == [] then mem else WriteBytes(mem[pa := bytes[0]], Plus(pa, 1), bytes[1..])
  }

  /** A write outside the entries a walk reads changes neither its result nor what it reads. */
  lemma WalkFrame(mem: Memory, regs: Registers, va: int, pa: int, b: int)
    requires !Reads(mem, regs, va, pa)
    ensures Translate(mem[pa := b], regs, va) == Translate(mem, regs, va)
    ensures forall a :: Reads(mem[pa := b], regs, va, a) <==> Reads(mem, regs, va, a)
  {
    if Paging(regs) {
      var at := PdeAddress(regs, va);
      EntryFrame(mem, at, pa, b);
      var pde := Entry(mem, at);
      if Present(pde) && !Large(pde) { EntryFrame(mem, PteAddress(pde, va), pa, b); }
    }
  }

  lemma EntryFrame(mem: Memory, at: int, pa: int, b: int)
    requires !(at <= pa < at + 4)
    ensures Entry(mem[pa := b], at) == Entry(mem, at)
  {
    assert Word(mem[pa := b], at) == Word(mem, at);
  }

  /** The byte at pa has been written, as the first byte of the range: the (i + 1)-th byte is mapped as before. */
  lemma MappedAsBefore(mem: Memory, mem1: Memory, regs: Registers, va: int, n: nat, pa: int, b: int, i: nat, w: int)
    requires IsAddress(va) && i + 1 < n && w == Plus(va, i + 1) && Apart(mem, regs, va, n)
    requires Translate(mem, regs, va) == To(pa) && mem1 == mem[pa := b]
    ensures At(mem1, regs, Plus(va, 1), i) == At(mem, regs, va, i + 1)
    ensures forall a :: Reads(mem1, regs, w, a) <==> Reads(mem, regs, w, a)
  {
    PlusPlus(va, 0, 0);
    assert At(mem, regs, va, 0) == To(pa);
    assert Avoids(mem, regs, va, 0, i + 1);
    WalkFrame(mem, regs, w, pa, b);
    PlusPlus(va, 1, i);
  }

  lemma StillApart(mem: Memory, mem1: Memory, regs: Registers, va: int, n: nat, pa: int, b: int)
    requires IsAddress(va) && n >= 1 && Apart(mem, regs, va, n)
    requires Translate(mem, regs, va) == To(pa) && mem1 == mem[pa := b]
    ensures Apart(mem1, regs, Plus(va, 1), n - 1)
  {
    forall i, j | 0 <= i < n - 1 && 0 <= j < n - 1 ensures Avoids(mem1, regs, Plus(va, 1), i, j) {
      MappedAsBefore(mem, mem1, regs, va, n, pa, b, i, Plus(va, i + 1));
      MappedAsBefore(mem, mem1, regs, va, n, pa, b, j, Plus(va, j + 1));
      assert Avoids(mem, regs, va, i + 1, j + 1);
      PlusPlus(va, 1, j);
    }
  }

  /** A chunk copied at once equals the same bytes copied one by one. */
  lemma {:induction false} ChunkIsBytewise(mem: Memory, regs: Registers, va: int, src: seq<int>, pa: int, k: nat)
    requires IsAddress(va) && IsAddress(pa) && k <= |src| && Apart(mem, regs, va, |src|)
    requires forall i :: 0 <= i < k ==> At(mem, regs, va, i) == To(Plus(pa, i))
    ensures BytewiseOut(mem, regs, va, src)
         == BytewiseOut(WriteBytes(mem, pa, src[..k]), regs, Plus(va, k), src[k..])
    ensures Apart(WriteBytes(mem, pa, src[..k]), regs, Plus(va, k), |src| - k)
    decreases k
  {
    PlusPlus(va, 0, 0);
    if k == 0 {
      assert src[..0] == [] && src[0..] == src;
    } else {
      PlusPlus(pa, 0, 0);
      assert At(mem, regs, va, 0) == To(pa);
      var mem1, va1, pa1, rest := mem[pa := src[0]], Plus(va, 1), Plus(pa, 1), src[1..];
      StillApart(mem, mem1, regs, va, |src|, pa, src[0]);
      forall i | 0 <= i < k - 1 ensures At(mem1, regs, va1, i) == To(Plus(pa1, i)) {
        MappedAsBefore(mem, mem1, regs, va, |src|, pa, src[0], i, Plus(va, i + 1));
        assert At(mem, regs, va, i + 1) == To(Plus(pa, i + 1));
        PlusPlus(pa, 1, i);
      }
      ChunkIsBytewise(mem1, regs, va1, rest, pa1, k - 1);
      PlusPlus(va, 1, k - 1);
      assert src[..k][1..] == rest[..k - 1] && src[k..] == rest[k - 1..];
    }
  }

  /** The bytewise copy succeeds exactly when the tables, as they are at the start, map every byte. */
  lemma {:induction false} BytewiseSucceeds(mem: Memory, regs: Registers, va: int, src: seq<int>)
    requires IsAddress(va) && Apart(mem, regs, va, |src|)
    ensures BytewiseOut(mem, regs, va, src).1 <==> FirstHole(mem, regs, va, 0, |src|) == |src|
    decreases |src|
  {
    PlusPlus(va, 0, 0);
    var n := |src|;
    if n > 0 && Translate(mem, regs, va).To? {
      var pa := Translate(mem, regs, va).pa;
      var mem1, va1 := mem[pa := src[0]], Plus(va, 1);
      StillApart(mem, mem1, regs, va, n, pa, src[0]);
      BytewiseSucceeds(mem1, regs, va1, src[1..]);
      var h0, h1 := FirstHole(mem, regs, va, 0, n), FirstHole(mem1, regs, va1, 0, n - 1);
      if 0 < h0 < n { MappedAsBefore(mem, mem1, regs, va, n, pa, src[0], h0 - 1, Plus(va, h0)); }
      if h1 < n - 1 { MappedAsBefore(mem, mem1, regs, va, n, pa, src[0], h1, Plus(va, h1 + 1)); }
    }
  }

  /** Physical memory, as gdb_copyout updates it. */
  class Client {
    var mem: Memory

    constructor (m: Memory)
      ensures mem == m
    {
      mem := m;
    }

    method WriteChunk(pa: int, bytes: seq<int>)
      modifies this
      ensures mem == WriteBytes(old(mem), pa, bytes)
    {
      var i, at := 0, pa;
      assert bytes[0..] == bytes;
      while i < |bytes|
        invariant i <= |bytes|
        invariant WriteBytes(mem, at, bytes[i..]) == WriteBytes(old(mem), pa, bytes)
      {
        assert bytes[i..][1..] == bytes[i + 1..];
        mem := mem[at := bytes[i]];
        i, at := i + 1, Plus(at, 1);
      }
    }

    /** gdb_copyout: the memory and the result of the bytewise copy. */
    method CopyOut(regs: Registers, src: seq<int>, va: int) returns (status: int)
      requires IsAddress(va)
      modifies this
      ensures Apart(old(mem), regs, va, |src|) ==> mem == BytewiseOut(old(mem), regs, va, src).0
      ensures Apart(old(mem), regs, va, |src|) ==> (status == 0 <==> FirstHole(old(mem), regs, va, 0, |src|) == |src|)
      ensures status == 0 || status == -1
    {
      ghost var apart := Apart(mem, regs, va, |src|);
      if apart { BytewiseSucceeds(mem, regs, va, src); }
      ghost var goal := BytewiseOut(mem, regs, va, src);
      var rest, cur := src, va;
      while rest != []
        invariant IsAddress(cur)
        invariant apart ==> Apart(mem, regs, cur, |rest|) && BytewiseOut(mem, regs, cur, rest) == goal
        decreases |rest|
      {
        var pa, sz := Lookup(mem, regs, cur);
        if sz == 0 {
          return -1;
        }
        if sz > |rest| {
          sz := |rest|;
        }
        if apart { ChunkIsBytewise(mem, regs, cur, rest, pa, sz); }
        WriteChunk(pa, rest[..sz]);
        cur, rest := Plus(cur, sz), rest[sz..];
      }
      return 0;
    }
  }

  /** One superpage at 0, mapped by the entry that lies at its start. */
  const SelfMapped: Memory := map[0 := 0x81]
  const SelfRegisters: Registers := Registers(0x8000_0000, 0)

  lemma SelfMappedWalk()
    ensures Translate(SelfMapped, SelfRegisters, 0) == To(0) && Translate(SelfMapped, SelfRegisters, 1) == To(1)
    ensures Translate(SelfMapped[0 := 0], SelfRegisters, 1) == Unmapped
    ensures Reads(SelfMapped, SelfRegisters, 1, 0)
  {
    assert Entry(SelfMapped, 0) == 0x81;
    assert Entry(SelfMapped[0 := 0], 0) == 0;
  }

  /** A copy onto the entry that maps it: every byte is mapped at the start, yet copying byte by byte stops after one. */
  lemma OverlapMatters()
    ensures FirstHole(SelfMapped, SelfRegisters, 0, 0, 2) == 2
    ensures !BytewiseOut(SelfMapped, SelfRegisters, 0, [0, 5]).1
    ensures !Apart(SelfMapped, SelfRegisters, 0, 2)
  {
    SelfMappedWalk();
    assert Plus(0, 0) == 0 && Plus(0, 1) == 1;
    assert At(SelfMapped, SelfRegisters, 0, 0) == To(0) && At(SelfMapped, SelfRegisters, 0, 1) == To(1);
    assert !Avoids(SelfMapped, SelfRegisters, 0, 0, 1);
  }

  /** A byte that no address of the range maps to keeps its value. */
  lemma {:induction false} BytewiseFrame(mem: Memory, regs: Registers, va: int, src: seq<int>, a: int)
    requires IsAddress(va) && Apart(mem, regs, va, |src|)
    requires forall i :: 0 <= i < |src| ==> At(mem, regs, va, i) != To(a)
    ensures Byte(BytewiseOut(mem, regs, va, src).0, a) == Byte(mem, a)
    decreases |src|
  {
    PlusPlus(va, 0, 0);
    var n := |src|;
    if n > 0 && Translate(mem, regs, va).To? {
      var pa := Translate(mem, regs, va).pa;
      var mem1, va1 := mem[pa := src[0]], Plus(va, 1);
      assert At(mem, regs, va, 0) == To(pa);
      StillApart(mem, mem1, regs, va, n, pa, src[0]);
      forall i | 0 <= i < n - 1 ensures At(mem1, regs, va1, i) != To(a) {
        MappedAsBefore(mem, mem1, regs, va, n, pa, src[0], i, Plus(va, i + 1));
        assert At(mem, regs, va, i + 1) != To(a);
      }
      BytewiseFrame(mem1, regs, va1, src[1..], a);
    }
  }

  /** The walk for an address is the same afterwards if no target is an entry it reads. */
  lemma {:induction false} BytewiseKeepsWalk(mem: Memory, regs: Registers, va: int, src: seq<int>, w: int)
    requires IsAddress(va) && Apart(mem, regs, va, |src|)
    requires forall i :: 0 <= i < |src| && At(mem, regs, va, i).To? ==> !Reads(mem, regs, w, At(mem, regs, va, i).pa)
    ensures Translate(BytewiseOut(mem, regs, va, src).0, regs, w) == Translate(mem, regs, w)
    decreases |src|
  {
    PlusPlus(va, 0, 0);
    var n := |src|;
    if n > 0 && Translate(mem, regs, va).To? {
      var pa := Translate(mem, regs, va).pa;
      var mem1, va1 := mem[pa := src[0]], Plus(va, 1);
      assert At(mem, regs, va, 0) == To(pa);
      StillApart(mem, mem1, regs, va, n, pa, src[0]);
      WalkFrame(mem, regs, w, pa, src[0]);
      forall i | 0 <= i < n - 1 && At(mem1, regs, va1, i).To? ensures !Reads(mem1, regs, w, At(mem1, regs, va1, i).pa) {
        MappedAsBefore(mem, mem1, regs, va, n, pa, src[0], i, Plus(va, i + 1));
        assert At(mem, regs, va, i + 1).To?;
      }
      BytewiseKeepsWalk(mem1, regs, va1, src[1..], w);
    }
  }

  /** No two addresses of the range share a physical byte. */
  predicate OneToOne(mem: Memory, regs: Registers, va: int, n: nat) {
    forall i, j :: 0 <= i < j < n && At(mem, regs, va, i).To? ==> At(mem, regs, va, i) != At(mem, regs, va, j)
  }

  lemma {:induction false} BytewiseStores(mem: Memory, regs: Registers, va: int, src: seq<int>, k: nat)
    requires IsAddress(va) && Apart(mem, regs, va, |src|) && OneToOne(mem, regs, va, |src|)
    requires FirstHole(mem, regs, va, 0, |src|) == |src| && k < |src|
    ensures Byte(BytewiseOut(mem, regs, va, src).0, At(mem, regs, va, k).pa) == src[k]
    decreases k
  {
    PlusPlus(va, 0, 0);
    var n := |src|;
    assert At(mem, regs, va, 0).To?;
    var pa := Translate(mem, regs, va).pa;
    var mem1, va1, rest := mem[pa := src[0]], Plus(va, 1), src[1..];
    StillApart(mem, mem1, regs, va, n, pa, src[0]);
    forall i | 0 <= i < n - 1 ensures At(mem1, regs, va1, i) == At(mem, regs, va, i + 1) {
      MappedAsBefore(mem, mem1, regs, va, n, pa, src[0], i, Plus(va, i + 1));
    }
    if k == 0 {
      BytewiseFrame(mem1, regs, va1, rest, pa);
    } else {
      assert FirstHole(mem1, regs, va1, 0, n - 1) == n - 1;
      BytewiseStores(mem1, regs, va1, rest, k - 1);
    }
  }

  /** After a successful copyout, copyin over the same range reads the source back. */
  lemma WriteThenRead(mem: Memory, regs: Registers, va: int, src: seq<int>, k: nat)
    requires IsAddress(va) && Apart(mem, regs, va, |src|) && OneToOne(mem, regs, va, |src|)
    requires FirstHole(mem, regs, va, 0, |src|) == |src| && k < |src|
    ensures At(BytewiseOut(mem, regs, va, src).0, regs, va, k).To?
    ensures Seen(BytewiseOut(mem, regs, va, src).0, regs, va, k) == src[k]
  {
    forall i | 0 <= i < |src| && At(mem, regs, va, i).To? ensures !Reads(mem, regs, Plus(va, k), At(mem, regs, va, i).pa) {
      assert Avoids(mem, regs, va, i, k);
    }
    BytewiseKeepsWalk(mem, regs, va, src, Plus(va, k));
    BytewiseStores(mem, regs, va, src, k);
  }

  // ---------------------------------------------------------------- what the tables can express

  /** What a 4M region of addresses is: one superpage frame, or 1024 pages each with a frame; -1 is no frame. */
  datatype Region = Big(frame: int) | Small(pages: seq<int>)

  predicate IsRegion(r: Region) {
    match r
    case Big(f) => 0 <= f < 1024
    case Small(pages) => |pages| == 1024 && forall j :: 0 <= j < 1024 ==> -1 <= pages[j] < 0x10_0000
  }

  /** An address space: the regions in order. */
  predicate IsSpace(space: seq<Region>) {
    |space| == 1024 && forall i :: 0 <= i < 1024 ==> IsRegion(space[i])
  }

  /** Where an address space puts an address: the n-th byte of a frame of 4M or 4K. */
  function Placement(space: seq<Region>, va: int): Mapping
    requires IsSpace(space) && IsAddress(va)
  {
    var r := space[va / 0x40_0000];
    assert IsRegion(r);
    match r
    case Big(f) => To(f * 0x40_0000 + va % 0x40_0000)
    case Small(pages) =>
      var f := pages[va % 0x40_0000 / 0x1000];
      if f < 0 then Unmapped else To(f * 0x1000 + va % 0x1000)
  }

  /** Word n of the tables: the directory first, then the table of each region, one page each. */
  function TableWord(space: seq<Region>, base: int, n: int): (w: int)
    requires IsSpace(space) && 0 <= base && base + 4 * 1024 * 1025 <= SPACE && 0 <= n < 1024 * 1025
    ensures 0 <= w < SPACE
  {
    var i := if n < 1024 then n else (n - 1024) / 1024;
    assert IsRegion(space[i]);
    match space[i]
    case Big(f) => if n < 1024 then f * 0x40_0000 + 0x81 else 0
    case Small(pages) =>
      if n < 1024 then base + 0x1000 * (1 + n) + 1
      else
        var f := pages[(n - 1024) % 1024];
        if f < 0 then 0 else f * 0x1000 + 1
  }

  /** Byte k of a word, least significant first. */
  function ByteOf(w: int, k: int): int {
    if k == 0 then w % 0x100 else if k == 1 then w / 0x100 % 0x100 else if k == 2 then w / 0x1_0000 % 0x100 else w / 0x100_0000 % 0x100
  }

  lemma BytesMakeWord(w: int)
    requires 0 <= w < SPACE
    ensures w == ByteOf(w, 0) + 0x100 * ByteOf(w, 1) + 0x1_0000 * ByteOf(w, 2) + 0x100_0000 * ByteOf(w, 3)
  {
    var a := w / 0x100;
    var b := a / 0x100;
    var c := b / 0x100;
    assert w / 0x1_0000 == b && w / 0x100_0000 == c && c < 0x100;
  }

  function TableByte(space: seq<Region>, base: int, a: int): int
    requires IsSpace(space) && 0 <= base && base + 4 * 1024 * 1025 <= SPACE && base <= a < base + 4 * 1024 * 1025
  {
    ByteOf(TableWord(space, base, (a - base) / 4), (a - base) % 4)
  }

  ghost predicate ByteStored(m: Memory, a: int, w: int, k: int) {
    Byte(m, a + k) == ByteOf(w, k)
  }

  ghost predicate WordStored(m: Memory, a: int, w: int) {
    ByteStored(m, a, w, 0) && ByteStored(m, a, w, 1) && ByteStored(m, a, w, 2) && ByteStored(m, a, w, 3)
  }

  /** Memory holds these tables from base on, the bytes of each word lowest first. */
  ghost predicate Stored(m: Memory, space: seq<Region>, base: int)
    requires IsSpace(space) && 0 <= base && base + 4 * 1024 * 1025 <= SPACE
  {
    forall n {:trigger TableWord(space, base, n)} :: 0 <= n < 1024 * 1025 ==> WordStored(m, base + 4 * n, TableWord(space, base, n))
  }

  /** There is such a memory for every address space. */
  lemma CanBeStored(space: seq<Region>, base: int) returns (m: Memory)
    requires IsSpace(space) && 0 <= base && base + 4 * 1024 * 1025 <= SPACE
    ensures Stored(m, space, base)
  {
    m := map a: int | base <= a < base + 4 * 1024 * 1025 :: TableByte(space, base, a);
    forall n {:trigger TableWord(space, base, n)} | 0 <= n < 1024 * 1025
      ensures WordStored(m, base + 4 * n, TableWord(space, base, n))
    {
      WordInTables(m, space, base, n);
    }
  }

  ghost predicate Copied(m: Memory, space: seq<Region>, base: int)
    requires IsSpace(space) && 0 <= base && base + 4 * 1024 * 1025 <= SPACE
  {
    forall a {:trigger TableByte(space, base, a)} :: base <= a < base + 4 * 1024 * 1025 ==> a in m && m[a] == TableByte(space, base, a)
  }

  lemma WordInTables(m: Memory, space: seq<Region>, base: int, n: int)
    requires IsSpace(space) && 0 <= base && base + 4 * 1024 * 1025 <= SPACE && 0 <= n < 1024 * 1025 && Copied(m, space, base)
    ensures WordStored(m, base + 4 * n, TableWord(space, base, n))
  {
    ByteInTables(m, space, base, n, 0);
    ByteInTables(m, space, base, n, 1);
    ByteInTables(m, space, base, n, 2);
    ByteInTables(m, space, base, n, 3);
  }

  lemma ByteInTables(m: Memory, space: seq<Region>, base: int, n: int, k: int)
    requires IsSpace(space) && 0 <= base && base + 4 * 1024 * 1025 <= SPACE && Copied(m, space, base)
    requires 0 <= n < 1024 * 1025 && 0 <= k < 4
    ensures ByteStored(m, base + 4 * n, TableWord(space, base, n), k)
  {
    TableByteAt(space, base, n, k);
    assert m[base + 4 * n + k] == TableByte(space, base, base + 4 * n + k);
  }

  lemma TableByteAt(space: seq<Region>, base: int, n: int, k: int)
    requires IsSpace(space) && 0 <= base && base + 4 * 1024 * 1025 <= SPACE && 0 <= n < 1024 * 1025 && 0 <= k < 4
    ensures TableByte(space, base, base + 4 * n + k) == ByteOf(TableWord(space, base, n), k)
  {
    DivMod(4 * n + k, 4, n, k);
  }

  lemma ReadsWord(m: Memory, a: int, w: int)
    requires 0 <= w < SPACE && WordStored(m, a, w)
    ensures Entry(m, a) == w
  {
    BytesMakeWord(w);
    assert Word(m, a) == w;
    DivMod(w, SPACE, 0, w);
  }

  /** Division of an address into region, page and offset. */
  lemma AddressParts(va: int)
    requires IsAddress(va)
    ensures 0 <= va / SUPERPAGE < 1024 && 0 <= va / PAGE % 1024 < 1024
    ensures va % SUPERPAGE / PAGE == va / PAGE % 1024
  {
    var i, r := va / SUPERPAGE, va % SUPERPAGE;
    assert va == SUPERPAGE * i + r;
    assert va / PAGE == 1024 * i + r / PAGE;
  }

  /** The entries of region i, by the numbers of its pages. */
  lemma RegionEntries(m: Memory, space: seq<Region>, base: int, i: int, j: int)
    requires IsSpace(space) && 0 <= base && base + 4 * 1024 * 1025 <= SPACE && Stored(m, space, base)
    requires 0 <= i < 1024 && 0 <= j < 1024
    ensures IsRegion(space[i])
    ensures space[i].Big? ==> Entry(m, base + 4 * i) == space[i].frame * 0x40_0000 + 0x81
    ensures space[i].Small? ==> Entry(m, base + 4 * i) == base + 0x1000 * (1 + i) + 1
    ensures space[i].Small? ==> Entry(m, base + 0x1000 * (1 + i) + 4 * j) == if space[i].pages[j] < 0 then 0 else 0x1000 * space[i].pages[j] + 1
  {
    assert IsRegion(space[i]);
    var n := 1024 * (1 + i) + j;
    TableIndex(i, j);
    var d, t := TableWord(space, base, i), TableWord(space, base, n);
    ReadsWord(m, base + 4 * i, d);
    ReadsWord(m, base + 4 * n, t);
    assert base + 4 * n == base + 0x1000 * (1 + i) + 4 * j;
  }

  /** The walk through the tables of an address space finds exactly that address space. */
  lemma WalkIsPlacement(m: Memory, space: seq<Region>, base: int, va: int)
    requires IsSpace(space) && IsAddress(va) && base % PAGE == 0 && 0 <= base && base + 4 * 1024 * 1025 <= SPACE
    requires Stored(m, space, base)
    ensures Translate(m, Registers(0x8000_0000, base), va) == Placement(space, va)
  {
    var i, j := va / SUPERPAGE, va / PAGE % 1024;
    AddressParts(va);
    RegionEntries(m, space, base, i, j);
    WalkOfRegion(m, space[i], base, va, i, j);
  }

  /** Whatever frames are assigned to the pages of an address space, some memory makes the walk do just that. */
  lemma EverySpaceHasTables(space: seq<Region>, base: int) returns (m: Memory)
    requires IsSpace(space) && base % PAGE == 0 && 0 <= base && base + 4 * 1024 * 1025 <= SPACE
    ensures forall va {:trigger Placement(space, va)} :: IsAddress(va) ==> Translate(m, Registers(0x8000_0000, base), va) == Placement(space, va)
  {
    m := CanBeStored(space, base);
    forall va {:trigger Placement(space, va)} | IsAddress(va)
      ensures Translate(m, Registers(0x8000_0000, base), va) == Placement(space, va)
    {
      WalkIsPlacement(m, space, base, va);
    }
  }

  lemma WalkOfRegion(m: Memory, r: Region, base: int, va: int, i: int, j: int)
    requires IsRegion(r) && base % PAGE == 0 && i == va / SUPERPAGE && j == va / PAGE % 1024 && 0 <= j < 1024
    requires r.Big? ==> Entry(m, base + 4 * i) == r.frame * 0x40_0000 + 0x81
    requires r.Small? ==> Entry(m, base + 4 * i) == base + 0x1000 * (1 + i) + 1
    requires r.Small? ==> Entry(m, base + 0x1000 * (1 + i) + 4 * j) == if r.pages[j] < 0 then 0 else 0x1000 * r.pages[j] + 1
    ensures Translate(m, Registers(0x8000_0000, base), va) ==
      match r
      case Big(f) => To(f * 0x40_0000 + va % 0x40_0000)
      case Small(pages) => if pages[j] < 0 then Unmapped else To(pages[j] * 0x1000 + va % 0x1000)
  {
    var regs := Registers(0x8000_0000, base);
    DivMod(base, PAGE, base / PAGE, 0);
    assert PdeAddress(regs, va) == base + 4 * i;
    if r.Big? {
      TranslateBig(m, regs, va, r.frame);
    } else {
      TranslateSmall(m, regs, va, base / PAGE + 1 + i, r.pages[j]);
    }
  }

  /** The walk through a directory entry for a superpage. */
  lemma TranslateBig(m: Memory, regs: Registers, va: int, f: int)
    requires Paging(regs) && 0 <= f < 1024 && Entry(m, PdeAddress(regs, va)) == f * 0x40_0000 + 0x81
    ensures Translate(m, regs, va) == To(f * 0x40_0000 + va % 0x40_0000)
  {
    BigEntry(f);
  }

  /** The walk through a table that is page t of memory: entry 0 is no page, any other the frame f. */
  lemma TranslateSmall(m: Memory, regs: Registers, va: int, t: int, f: int)
    requires Paging(regs) && Entry(m, PdeAddress(regs, va)) == PAGE * t + 1 && -1 <= f
    requires Entry(m, PAGE * t + 4 * (va / PAGE % 1024)) == if f < 0 then 0 else PAGE * f + 1
    ensures Translate(m, regs, va) == if f < 0 then Unmapped else To(f * 0x1000 + va % 0x1000)
  {
    EntryBits(t);
    if f >= 0 { EntryBits(f); }
  }

  lemma BigEntry(f: int)
    ensures var e := f * 0x40_0000 + 0x81; Present(e) && Large(e) && e - e % SUPERPAGE == f * 0x40_0000
  {
    var e := f * 0x40_0000 + 0x81;
    DivMod(e, 2, f * 0x20_0000 + 0x40, 1);
    DivMod(e, 0x80, f * 0x8000 + 1, 1);
    DivMod(f * 0x8000 + 1, 2, f * 0x4000, 1);
    DivMod(e, SUPERPAGE, f, 0x81);
  }

  lemma EntryBits(q: int)
    ensures var e := PAGE * q + 1; Present(e) && !Large(e) && Frame(e) == PAGE * q
  {
    var e := PAGE * q + 1;
    DivMod(e, 2, 2048 * q, 1);
    DivMod(e, 0x80, 32 * q, 1);
    DivMod(32 * q, 2, 16 * q, 0);
    DivMod(e, PAGE, q, 1);
  }

  lemma TableIndex(i: int, j: int)
    requires 0 <= i < 1024 && 0 <= j < 1024
    ensures var n := 1024 * (1 + i) + j; 1024 <= n < 1024 * 1025 && (n - 1024) / 1024 == i && (n - 1024) % 1024 == j
  {
  }

  /** Without paging every address stands for itself. */
  lemma NoPagingIsIdentity(m: Memory, regs: Registers, va: int)
    requires 0 <= regs.cr0 < SPACE
    ensures regs.cr0 < 0x8000_0000 <==> !Paging(regs)
    ensures !Paging(regs) ==> Translate(m, regs, va) == To(va)
  {
  }

  /** A table with two pages half a table apart; the bytes of its entries are stored lowest first. */
  const HalfApart: Memory := map[0 := 0x01, 1 := 0x10, 0x1000 := 0x01, 0x1001 := 0x30, 0x1800 := 0x01, 0x1801 := 0x70]

  lemma HalfApartEntries()
    ensures Entry(HalfApart, 0) == 0x1001 && Entry(HalfApart, 0x1000) == 0x3001
    ensures Entry(HalfApart, 0x1800) == 0x7001 && Entry(HalfApart, 0x1004) == 0
  {
    assert Word(HalfApart, 0) == 0x1001;
    assert Word(HalfApart, 0x1000) == 0x3001;
    assert Word(HalfApart, 0x1800) == 0x7001;
    assert Word(HalfApart, 0x1004) == 0;
  }

  lemma PageBeyondHalf()
    ensures Translate(HalfApart, SelfRegisters, 0x4) == To(0x3004)
    ensures Translate(HalfApart, SelfRegisters, 0x20_0004) == To(0x7004)
    ensures Translate(HalfApart, SelfRegisters, 0x1000) == Unmapped
  {
    HalfApartEntries();
    assert PdeAddress(SelfRegisters, 0x4) == 0 && PdeAddress(SelfRegisters, 0x20_0004) == 0 && PdeAddress(SelfRegisters, 0x1000) == 0;
    assert Present(0x1001) && !Large(0x1001);
    assert PteAddress(0x1001, 0x4) == 0x1000 && PteAddress(0x1001, 0x20_0004) == 0x1800 && PteAddress(0x1001, 0x1000) == 0x1004;
  }
}
