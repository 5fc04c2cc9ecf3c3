/**
 gr_gpu_mem_io: page-split transfers between a buffer and GPU memory through a
 region's page list, and their agreement with the page tables.
 */
module GpuIo {
  import opened Collections
  import opened PteCodec
  import opened PhysMem
  import opened TableTree
  import opened LeafEntries
  import opened Regions
  import opened AddressSpace
  import opened MemInit

  type Byte = bv8

  /** Distinct, page-aligned data pages. */
  ghost predicate DataPages(mem: Mem, pages: seq<Word>) {
    NoDup(pages) && forall i :: 0 <= i < |pages| ==> PageAddr(pages[i]) && IsData(mem, pages[i])
  }

  /** Byte x of the pages laid end to end. */
  function FlatByte(mem: Mem, pages: seq<Word>, x: nat): Byte {
    if x / PAGE_SIZE < |pages| && IsData(mem, pages[x / PAGE_SIZE]) then
      mem[Frame(pages[x / PAGE_SIZE])].bytes[x % PAGE_SIZE]
    else 0
  }

  /** The flat byte view of a region. */
  function Flat(mem: Mem, pages: seq<Word>): (f: seq<Byte>)
    ensures |f| == PAGE_SIZE * |pages|
  {
    seq(PAGE_SIZE * |pages|, x requires 0 <= x => FlatByte(mem, pages, x))
  }

  /** f with d written at position g. */
  function Splice(f: seq<Byte>, g: nat, d: seq<Byte>): (r: seq<Byte>)
    requires g + |d| <= |f|
    ensures |r| == |f|
  {
    f[..g] + d + f[g + |d|..]
  }

  lemma SpliceAppend(f: seq<Byte>, g: nat, d: seq<Byte>, e: seq<Byte>)
    requires g + |d| + |e| <= |f|
    ensures Splice(Splice(f, g, d), g + |d|, e) == Splice(f, g, d + e)
  {
  }

  /** mem with data stored in one page from byte off on. */
  function StoreBytes(mem: Mem, page: Word, off: nat, data: seq<Byte>): Mem
    requires IsData(mem, page) && off + |data| <= PAGE_SIZE
  {
    mem[Frame(page) := Data(Splice(mem[Frame(page)].bytes, off, data))]
  }

  /** A store into page j is a splice of the flat view. */
  lemma StoreIsSplice(mem: Mem, pages: seq<Word>, j: nat, off: nat, data: seq<Byte>)
    requires DataPages(mem, pages) && j < |pages| && off + |data| <= PAGE_SIZE
    ensures PAGE_SIZE * j + off + |data| <= PAGE_SIZE * |pages|
    ensures Flat(StoreBytes(mem, pages[j], off, data), pages) == Splice(Flat(mem, pages), PAGE_SIZE * j + off, data)
    ensures DataPages(StoreBytes(mem, pages[j], off, data), pages)
  {
    var mem', f := StoreBytes(mem, pages[j], off, data), Flat(mem, pages);
    assert PAGE_SIZE * (j + 1) <= PAGE_SIZE * |pages|;
    var g := PAGE_SIZE * j + off;
    forall x: nat | x < PAGE_SIZE * |pages|
      ensures FlatByte(mem', pages, x) == Splice(f, g, data)[x]
    {
      SpliceByte(mem, pages, j, off, data, x);
    }
  }

  lemma SpliceByte(mem: Mem, pages: seq<Word>, j: nat, off: nat, data: seq<Byte>, x: nat)
    requires DataPages(mem, pages) && j < |pages| && off + |data| <= PAGE_SIZE && x < PAGE_SIZE * |pages|
    requires PAGE_SIZE * j + off + |data| <= PAGE_SIZE * |pages|
    ensures FlatByte(StoreBytes(mem, pages[j], off, data), pages, x) ==
      Splice(Flat(mem, pages), PAGE_SIZE * j + off, data)[x]
  {
    var i := x / PAGE_SIZE;
    assert i < |pages| && x == PAGE_SIZE * i + x % PAGE_SIZE;
    if i == j {
      StoredByte(mem, pages, j, off, data, x);
    } else {
      assert pages[i] != pages[j];
      assert FlatByte(StoreBytes(mem, pages[j], off, data), pages, x) == FlatByte(mem, pages, x);
    }
  }

  /** The same within the page stored to. */
  lemma StoredByte(mem: Mem, pages: seq<Word>, j: nat, off: nat, data: seq<Byte>, x: nat)
    requires DataPages(mem, pages) && j < |pages| && off + |data| <= PAGE_SIZE
    requires x / PAGE_SIZE == j && x == PAGE_SIZE * j + x % PAGE_SIZE
    requires PAGE_SIZE * j + off + |data| <= PAGE_SIZE * |pages| && x < PAGE_SIZE * |pages|
    ensures FlatByte(StoreBytes(mem, pages[j], off, data), pages, x) ==
      Splice(Flat(mem, pages), PAGE_SIZE * j + off, data)[x]
  {
    var bytes := mem[Frame(pages[j])].bytes;
    assert FlatByte(mem, pages, x) == bytes[x % PAGE_SIZE];
    assert FlatByte(StoreBytes(mem, pages[j], off, data), pages, x) == Splice(bytes, off, data)[x % PAGE_SIZE];
  }

  /** A load from page j is a slice of the flat view. */
  lemma LoadIsSlice(mem: Mem, pages: seq<Word>, j: nat, off: nat, n: nat)
    requires DataPages(mem, pages) && j < |pages| && off + n <= PAGE_SIZE
    ensures PAGE_SIZE * j + off + n <= PAGE_SIZE * |pages|
    ensures mem[Frame(pages[j])].bytes[off..off + n] == Flat(mem, pages)[PAGE_SIZE * j + off..PAGE_SIZE * j + off + n]
  {
    assert PAGE_SIZE * (j + 1) <= PAGE_SIZE * |pages|;
    var f, b := Flat(mem, pages), mem[Frame(pages[j])].bytes;
    var d, e := f[PAGE_SIZE * j + off..PAGE_SIZE * j + off + n], b[off..off + n];
    forall x | 0 <= x < n
      ensures d[x] == e[x]
    {
      InPage(j, off + x);
    }
  }

  lemma InPage(j: nat, o: nat)
    requires o < PAGE_SIZE
    ensures (PAGE_SIZE * j + o) / PAGE_SIZE == j && (PAGE_SIZE * j + o) % PAGE_SIZE == o
  {
  }

  /** Pages a transfer of size bytes from byte offset off spans, as the code counts them. */
  function PageCount(off: nat, size: nat): nat {
    (off + size + (PAGE_SIZE - 1)) / PAGE_SIZE
  }

  /** Bytes that really move: all of them, except that a two-page transfer stops after its first page. */
  function Moved(off: nat, size: nat): nat
    requires off < PAGE_SIZE
  {
    if PageCount(off, size) == 2 then PAGE_SIZE - off else size
  }

  /** gr_read_phys within one page: n bytes of physical memory to buf[pos..]. */
  method ReadPhys(m: Machine, paddr: Word, buf: array<Byte>, pos: nat, n: nat)
    requires IsData(m.mem, PaddrPage(paddr)) && PaddrOffset(paddr) + n <= PAGE_SIZE && pos + n <= buf.Length
    modifies buf
    ensures var off, b0 := PaddrOffset(paddr), old(buf[..]);
            buf[..] == b0[..pos] + m.mem[Frame(PaddrPage(paddr))].bytes[off..off + n] + b0[pos + n..]
  {
    var off := PaddrOffset(paddr);
    var bytes := m.mem[Frame(PaddrPage(paddr))].bytes;
    forall x | 0 <= x < n {
      buf[pos + x] := bytes[off + x];
    }
    Overwritten(old(buf[..]), buf[..], pos, bytes[off..off + n]);
  }

  lemma Overwritten(b0: seq<Byte>, b: seq<Byte>, pos: nat, d: seq<Byte>)
    requires |b| == |b0| && pos + |d| <= |b0|
    requires forall x :: 0 <= x < |b0| ==> b[x] == if pos <= x < pos + |d| then d[x - pos] else b0[x]
    ensures b == b0[..pos] + d + b0[pos + |d|..]
  {
  }

  /** gr_write_phys within one page: n bytes from buf[pos..] to physical memory. */
  method WritePhys(m: Machine, paddr: Word, buf: array<Byte>, pos: nat, n: nat)
    requires m.Valid() && IsData(m.mem, PaddrPage(paddr)) && PaddrOffset(paddr) + n <= PAGE_SIZE
    requires pos + n <= buf.Length
    modifies m`mem
    ensures m.Valid()
    ensures m.mem == StoreBytes(old(m.mem), PaddrPage(paddr), PaddrOffset(paddr), buf[..][pos..pos + n])
  {
    var page, off := PaddrPage(paddr), PaddrOffset(paddr);
    m.WritePage(page, Data(Splice(m.mem[Frame(page)].bytes, off, buf[..][pos..pos + n])));
  }

  /** The one of the two the transfer is for: exactly n bytes move in its direction, and nothing else changes. */
  method PhysIo(m: Machine, paddr: Word, buf: array<Byte>, pos: nat, n: nat, isRead: bool)
    requires m.Valid() && IsData(m.mem, PaddrPage(paddr)) && PaddrOffset(paddr) + n <= PAGE_SIZE
    requires pos + n <= buf.Length
    modifies m`mem, buf
    ensures m.Valid()
    ensures isRead ==> m.mem == old(m.mem)
    ensures isRead ==>
      var off, b0 := PaddrOffset(paddr), old(buf[..]);
      buf[..] == b0[..pos] + m.mem[Frame(PaddrPage(paddr))].bytes[off..off + n] + b0[pos + n..]
    ensures !isRead ==> buf[..] == old(buf[..])
    ensures !isRead ==>
      m.mem == StoreBytes(old(m.mem), PaddrPage(paddr), PaddrOffset(paddr), old(buf[..])[pos..pos + n])
  {
    if isRead {
      ReadPhys(m, paddr, buf, pos, n);
    } else {
      WritePhys(m, paddr, buf, pos, n);
    }
  }

  predicate Encloses(r: Region, va: nat) {
    r.gmStart <= va < r.gmEnd
  }

  /** The first region from number i on that encloses va, or -1. */
  function RegionFrom(rs: seq<Region>, va: nat, i: nat): (off: int)
    requires i <= |rs|
    ensures -1 <= off < |rs|
    ensures off >= 0 ==> i <= off && Encloses(rs[off], va) && forall j :: i <= j < off ==> !Encloses(rs[j], va)
    ensures off == -1 ==> forall j :: i <= j < |rs| ==> !Encloses(rs[j], va)
    decreases |rs| - i
  {
    if i == |rs| then -1 else if Encloses(rs[i], va) then i else RegionFrom(rs, va, i + 1)
  }

  function RegionAt(rs: seq<Region>, va: nat): (off: int)
    ensures -1 <= off < |rs| && (off >= 0 ==> Encloses(rs[off], va))
  {
    RegionFrom(rs, va, 0)
  }

  /** gr_find_region_enclosing_address: the first enclosing region, or -1. */
  method FindRegion(rs: seq<Region>, va: nat) returns (off: int)
    ensures off == RegionAt(rs, va)
    ensures off >= 0 ==> Encloses(rs[off], va) && forall j :: 0 <= j < off ==> !Encloses(rs[j], va)
    ensures off == -1 ==> forall j :: 0 <= j < |rs| ==> !Encloses(rs[j], va)
  {
    off := 0;
    while off < |rs|
      invariant 0 <= off <= |rs| && RegionFrom(rs, va, off) == RegionAt(rs, va)
      invariant forall j :: 0 <= j < off ==> !Encloses(rs[j], va)
    {
      if Encloses(rs[off], va) {
        return;
      }
      off := off + 1;
    }
    off := -1;
  }

  lemma EnclosingUnique(root: Shadow, rs: seq<Region>, j: nat, va: nat)
    requires RegionsOk(root, rs) && j < |rs| && Encloses(rs[j], va)
    ensures forall i :: 0 <= i < |rs| && Encloses(rs[i], va) ==> i == j
    ensures RegionAt(rs, va) == j
  {
    forall i | 0 <= i < |rs| && i != j
      ensures !Encloses(rs[i], va)
    {
      assert Disjoint(rs[i], rs[j]);
    }
    var off := RegionFrom(rs, va, 0);
    assert off != -1;
  }

  /**
   How a transfer ends: completed; no region encloses the address, and the code
   indexes its table with -1; past the region's end, and the code aborts; or at a
   page the region does not have, and the code reads past its page list. The model
   stops there.
   */
  datatype Outcome = Done | NoRegion | PastEnd | Unbacked

  /** How a transfer of size bytes at gaddr, in region r, ends. */
  function RegionOutcome(r: Region, gaddr: nat, size: nat): Outcome
    requires r.gmStart <= gaddr
  {
    var p, n := (gaddr - r.gmStart) / PAGE_SIZE, PageCount(gaddr % PAGE_SIZE, size);
    if r.gmEnd < gaddr + size then PastEnd
    else if |r.pages| <= p || (n > 2 && |r.pages| < p + n) then Unbacked
    else Done
  }

  function OutcomeAt(rs: seq<Region>, gaddr: nat, size: nat): Outcome {
    var i := RegionAt(rs, gaddr);
    if i == -1 then NoRegion else RegionOutcome(rs[i], gaddr, size)
  }

  /** The transfer gets as far as its first page. */
  predicate Starts(r: Region, gaddr: nat, size: nat)
    requires r.gmStart <= gaddr
  {
    gaddr + size <= r.gmEnd && (gaddr - r.gmStart) / PAGE_SIZE < |r.pages|
  }

  /**
   Bytes moved by a transfer from flat position g and page offset off on that ends
   with v: all the code means to move, or all up to the last page the region has.
   */
  function MovedBy(r: Region, off: nat, size: nat, g: nat, v: Outcome): int
    requires off < PAGE_SIZE
  {
    if v.Done? then Moved(off, size) else PAGE_SIZE * |r.pages| - g
  }

  /** Bytes moved by a transfer that starts. */
  function BytesMoved(r: Region, gaddr: nat, size: nat): int
    requires r.gmStart <= gaddr
  {
    MovedBy(r, gaddr % PAGE_SIZE, size, gaddr - r.gmStart, RegionOutcome(r, gaddr, size))
  }

  /** A region whose pages can be read and written. */
  ghost predicate Usable(mem: Mem, r: Region) {
    DataPages(mem, r.pages) && r.gmStart % PAGE_SIZE == 0
  }

  ghost predicate AllUsable(mem: Mem, rs: seq<Region>) {
    forall i :: 0 <= i < |rs| ==> Usable(mem, rs[i])
  }

  /**
   gr_gpu_mem_io. A write replaces exactly the moved bytes of the region's flat
   view, a read fills exactly the moved bytes of the buffer, and nothing else
   changes (see Moving and Progress).
   */
  method GpuMemIo(m: Machine, rs: seq<Region>, gaddr: nat, buf: array<Byte>, size: nat, isRead: bool)
    returns (v: Outcome)
    requires m.Valid() && AllUsable(m.mem, rs)
    requires size <= buf.Length && PageCount(gaddr % PAGE_SIZE, size) < 0x1_0000_0000
    modifies m`mem, buf
    ensures m.Valid() && v == OutcomeAt(rs, gaddr, size)
    ensures RegionAt(rs, gaddr) == -1 ==> m.mem == old(m.mem) && buf[..] == old(buf[..])
    ensures RegionAt(rs, gaddr) >= 0 ==>
      Transferred(old(m.mem), m.mem, rs[RegionAt(rs, gaddr)], old(buf[..]), buf[..], gaddr, size, isRead)
  {
    var i := FindRegion(rs, gaddr);
    if i == -1 {
      return NoRegion;
    }
    assert Usable(m.mem, rs[i]);
    v := RegionIo(m, rs[i], gaddr, buf, size, isRead);
  }

  /** The effect of a transfer in region r, however it ends. */
  ghost predicate Transferred(mem0: Mem, mem: Mem, r: Region, b0: seq<Byte>, b: seq<Byte>, gaddr: nat, size: nat,
                              isRead: bool)
  {
    && r.gmStart <= gaddr
    && if Starts(r, gaddr, size)
       then Moving(mem0, mem, r.pages, b0, b, gaddr - r.gmStart, BytesMoved(r, gaddr, size), isRead)
       else mem == mem0 && b == b0
  }

  /** Every byte asked for moves exactly when the transfer does not span two pages. */
  lemma MovedIff(off: nat, size: nat)
    requires off < PAGE_SIZE
    ensures Moved(off, size) <= size
    ensures Moved(off, size) == size <==> PageCount(off, size) != 2
  {
  }

  /**
   How a transfer ends, in addresses and page numbers: no region encloses its start; the
   first that does ends before it; its first page, or the last one of three or more, is
   missing; or it completes.
   */
  lemma OutcomeMeaning(rs: seq<Region>, gaddr: nat, size: nat, i: int)
    requires i == RegionAt(rs, gaddr) && forall j :: 0 <= j < |rs| ==> rs[j].gmStart % 4096 == 0
    ensures i == -1 <==> forall j :: 0 <= j < |rs| ==> !(rs[j].gmStart <= gaddr < rs[j].gmEnd)
    ensures i == -1 ==> OutcomeAt(rs, gaddr, size) == NoRegion
    ensures i >= 0 ==> rs[i].gmStart <= gaddr < rs[i].gmEnd
    ensures i >= 0 ==> forall j :: 0 <= j < i ==> !(rs[j].gmStart <= gaddr < rs[j].gmEnd)
    ensures i >= 0 ==>
      var g, n, v := gaddr - rs[i].gmStart, |rs[i].pages|, OutcomeAt(rs, gaddr, size);
      if gaddr + size > rs[i].gmEnd then v == PastEnd
      else if n <= g / 4096 || (gaddr % 4096 + size > 8192 && n <= (g + size - 1) / 4096) then v == Unbacked
      else v == Done
  {
    if i >= 0 {
      TransferPages(rs[i], gaddr, size);
    }
  }

  /**
   Byte k of a transfer that starts moves: it is in the first page; or the transfer needs
   three pages or more, and the region has a page for it.
   */
  predicate ByteMoves(r: Region, gaddr: nat, size: nat, k: int) {
    0 <= k < size &&
    if gaddr % 4096 + size > 8192 then gaddr - r.gmStart + k < 4096 * |r.pages| else k < 4096 - gaddr % 4096
  }

  /** What a transfer that starts leaves in byte x of the region, found in page x / 4096 at x % 4096. */
  lemma ByteWritten(mem0: Mem, mem: Mem, r: Region, b0: seq<Byte>, b: seq<Byte>, gaddr: nat, size: nat, isRead: bool,
                    x: nat)
    requires Transferred(mem0, mem, r, b0, b, gaddr, size, isRead) && Starts(r, gaddr, size)
    requires Usable(mem0, r) && size <= |b0| && x < 4096 * |r.pages|
    ensures IsData(mem, r.pages[x / 4096])
    ensures var k := x - (gaddr - r.gmStart);
            mem[Frame(r.pages[x / 4096])].bytes[x % 4096] ==
            if !isRead && ByteMoves(r, gaddr, size, k) then b0[k] else mem0[Frame(r.pages[x / 4096])].bytes[x % 4096]
  {
    TransferPages(r, gaddr, size);
    FlatAt(mem0, r.pages, x);
    FlatAt(mem, r.pages, x);
    var n := BytesMoved(r, gaddr, size);
    SplicedByte(Flat(mem0, r.pages), b0, Flat(mem, r.pages), b, gaddr - r.gmStart, n, isRead, x);
    BytesThatMove(r, gaddr, size, x - (gaddr - r.gmStart));
  }

  /** What it leaves in byte k of the buffer. */
  lemma ByteRead(mem0: Mem, mem: Mem, r: Region, b0: seq<Byte>, b: seq<Byte>, gaddr: nat, size: nat, isRead: bool,
                 k: nat)
    requires Transferred(mem0, mem, r, b0, b, gaddr, size, isRead) && Starts(r, gaddr, size)
    requires Usable(mem0, r) && size <= |b0| && k < |b0|
    ensures |b| == |b0|
    ensures var x := gaddr - r.gmStart + k;
            if isRead && ByteMoves(r, gaddr, size, k)
            then x / 4096 < |r.pages| && b[k] == mem0[Frame(r.pages[x / 4096])].bytes[x % 4096]
            else b[k] == b0[k]
  {
    var x := gaddr - r.gmStart + k;
    TransferPages(r, gaddr, size);
    BytesThatMove(r, gaddr, size, k);
    if isRead && ByteMoves(r, gaddr, size, k) {
      FlatAt(mem0, r.pages, x);
    }
  }

  lemma SplicedByte(f0: seq<Byte>, b0: seq<Byte>, f: seq<Byte>, b: seq<Byte>, g: nat, n: nat, isRead: bool, x: nat)
    requires Progress(f0, b0, f, b, g, n, isRead) && x < |f0|
    ensures f[x] == if !isRead && g <= x < g + n then b0[x - g] else f0[x]
  {
  }

  lemma BytesThatMove(r: Region, gaddr: nat, size: nat, k: int)
    requires r.gmStart <= gaddr && r.gmStart % 4096 == 0 && Starts(r, gaddr, size)
    ensures 0 <= k < BytesMoved(r, gaddr, size) <==> ByteMoves(r, gaddr, size, k)
  {
    TransferPages(r, gaddr, size);
  }

  /**
   A write followed by a read of the same range: the moved bytes come back, so
   the whole buffer comes back unless the range spans two pages, and no byte of
   the region outside the moved range has changed.
   */
  lemma WriteThenRead(mem0: Mem, mem1: Mem, pages: seq<Word>, w: seq<Byte>, b0: seq<Byte>, b1: seq<Byte>, g: nat,
                      off: nat, size: nat)
    requires off < PAGE_SIZE && size <= |w| && size <= |b0|
    requires Moving(mem0, mem1, pages, w, w, g, Moved(off, size), false)
    requires Moving(mem1, mem1, pages, b0, b1, g, Moved(off, size), true)
    ensures var n := Moved(off, size);
            && b1 == w[..n] + b0[n..]
            && (forall x :: 0 <= x < PAGE_SIZE * |pages| && !(g <= x < g + n) ==>
                Flat(mem1, pages)[x] == Flat(mem0, pages)[x])
    ensures PageCount(off, size) != 2 ==> b1[..size] == w[..size]
  {
    MovedIff(off, size);
    WrittenThenRead(Flat(mem0, pages), Flat(mem1, pages), w, b0, b1, g, Moved(off, size));
  }

  lemma WrittenThenRead(f0: seq<Byte>, f1: seq<Byte>, w: seq<Byte>, b0: seq<Byte>, b1: seq<Byte>, g: nat, n: nat)
    requires Progress(f0, w, f1, w, g, n, false) && Progress(f1, b0, f1, b1, g, n, true)
    ensures b1 == w[..n] + b0[n..]
    ensures forall x :: 0 <= x < |f0| && !(g <= x < g + n) ==> f1[x] == f0[x]
  {
    assert Splice(f0, g, w[..n])[g..g + n] == w[..n];
  }

  /** Eight bytes written across a page boundary: the four in the second page are lost. */
  method TwoPagesLose() returns (f: seq<Byte>)
    ensures f == [1, 1, 1, 1, 0, 0, 0, 0]
  {
    var mem: Mem := map[Frame(0x1000) := ZeroPage(), Frame(0x2000) := ZeroPage()];
    var m := new Machine(mem, []);
    var r := Region(0x10000, 0x12000, [0x1000, 0x2000], 0, true);
    var buf := new Byte[8](_ => 1);
    ghost var ones := buf[..];
    var v := GpuMemIo(m, [r], 0x10FFC, buf, 8, false);
    TwoPagesEffect(m.mem, r, ones, buf[..], Flat(mem, r.pages));
    f := Flat(m.mem, r.pages)[4092..4100];
  }

  lemma TwoPagesEffect(mem: Mem, r: Region, b0: seq<Byte>, b: seq<Byte>, f0: seq<Byte>)
    requires r.gmStart == 0x10000 && r.gmEnd == 0x12000 && |r.pages| == 2 && b0 == seq(8, _ => 1)
    requires f0 == seq(8192, _ => 0)
    requires Progress(f0, b0, Flat(mem, r.pages), b, 4092, BytesMoved(r, 0x10FFC, 8), false)
    ensures Flat(mem, r.pages)[4092..4100] == [1, 1, 1, 1, 0, 0, 0, 0]
  {
    assert BytesMoved(r, 0x10FFC, 8) == 4;
    assert b0[..4] == [1, 1, 1, 1] && f0[4096..4100] == [0, 0, 0, 0];
    var f := Splice(f0, 4092, b0[..4]);
    assert f[4092..4096] == b0[..4] && f[4096..4100] == f0[4096..4100];
    assert f[4092..4100] == f[4092..4096] + f[4096..4100];
  }

  /** The byte at a physical address. */
  ghost function ByteAt(mem: Mem, paddr: Word): Byte {
    if IsData(mem, PaddrPage(paddr)) then mem[Frame(PaddrPage(paddr))].bytes[PaddrOffset(paddr)] else 0
  }

  /** The page-list path and the page-table path reach the same byte. */
  lemma PathsAgree(mem: Mem, pgd: Word, rs: seq<Region>, i: nat, x: nat)
    requires TranslatesAll(mem, pgd, rs) && i < |rs| && DataPages(mem, rs[i].pages) && x < PAGE_SIZE * Backed(rs[i])
    ensures Translate(mem, pgd, rs[i].gmStart + x).Some?
    ensures ByteAt(mem, Translate(mem, pgd, rs[i].gmStart + x).value) == Flat(mem, rs[i].pages)[x]
  {
    var k, o := x / PAGE_SIZE, x % PAGE_SIZE;
    assert k < Backed(rs[i]) && rs[i].gmStart + x == PageVa(rs[i], k) + o;
    assert TranslatesTo(mem, pgd, rs[i], k, o);
    ByteAtPaddr(mem, rs[i].pages[k], o);
    FlatAt(mem, rs[i].pages, x);
  }

  lemma FlatAt(mem: Mem, pages: seq<Word>, x: nat)
    requires DataPages(mem, pages) && x < PAGE_SIZE * |pages|
    ensures x / PAGE_SIZE < |pages| && Flat(mem, pages)[x] == mem[Frame(pages[x / PAGE_SIZE])].bytes[x % PAGE_SIZE]
  {
  }

  lemma ByteAtPaddr(mem: Mem, page: Word, o: nat)
    requires PageAddr(page) && IsData(mem, page) && o < PAGE_SIZE
    ensures ByteAt(mem, Paddr(page, o)) == mem[Frame(page)].bytes[o]
  {
    SplitPaddr(page, o);
  }

  /** Pages that are kept keep their flat view. */
  lemma FlatKept(mem: Mem, mem': Mem, ps: seq<Word>, changed: seq<Word>)
    requires DataPages(mem, ps) && OthersKept(mem, mem', changed) && forall p :: p in ps ==> p !in changed
    ensures DataPages(mem', ps) && Flat(mem', ps) == Flat(mem, ps)
  {
    forall x: nat | x < PAGE_SIZE * |ps|
      ensures FlatByte(mem', ps, x) == FlatByte(mem, ps, x)
    {
      if x / PAGE_SIZE < |ps| {
        assert ps[x / PAGE_SIZE] in ps;
      }
    }
  }

  /** A transfer leaves the page tables, hence every translation, as they were. */
  lemma IoKeepsTranslations(root: Shadow, mem0: Mem, mem1: Mem, rs: seq<Region>, pages: seq<Word>)
    requires TablesOk(root, mem0) && RegionsOk(root, rs) && AllMapped(root, mem0, rs) && PagesGood(rs)
    requires OthersKept(mem0, mem1, pages) && forall p :: p in pages ==> p !in Pages(root)
    ensures TablesOk(root, mem1) && AllMapped(root, mem1, rs) && TranslatesAll(mem1, root.phys, rs)
  {
    TablesKept(root, mem0, mem1);
    forall i | 0 <= i < |rs|
      ensures Mapped(root, mem1, rs[i], Backed(rs[i]))
    {
      assert Mapped(root, mem0, rs[i], Backed(rs[i]));
    }
    MappedTranslates(root, mem1, rs);
  }

  /** The part of gr_gpu_mem_io after the lookup: first page, middle pages, last page. */
  method RegionIo(m: Machine, r: Region, gaddr: nat, buf: array<Byte>, size: nat, isRead: bool) returns (v: Outcome)
    requires m.Valid() && Usable(m.mem, r) && Encloses(r, gaddr)
    requires size <= buf.Length && PageCount(gaddr % PAGE_SIZE, size) < 0x1_0000_0000
    modifies m`mem, buf
    ensures m.Valid() && v == RegionOutcome(r, gaddr, size)
    ensures Transferred(old(m.mem), m.mem, r, old(buf[..]), buf[..], gaddr, size, isRead)
  {
    if r.gmEnd < gaddr + size {
      return PastEnd;
    }
    var off, pageOffset := gaddr % PAGE_SIZE, (gaddr - r.gmStart) / PAGE_SIZE;
    var pageCount := U32(PageCount(off, size));
    TransferPages(r, gaddr, size);
    if |r.pages| <= pageOffset {
      return Unbacked;
    }
    ghost var g, mem0, b0 := gaddr - r.gmStart, m.mem, buf[..];
    v := IoPages(m, r, pageOffset, pageCount, off, buf, size, isRead, g);
    TransferredBy(mem0, m.mem, r, b0, buf[..], gaddr, size, isRead, v);
  }

  lemma TransferredBy(mem0: Mem, mem: Mem, r: Region, b0: seq<Byte>, b: seq<Byte>, gaddr: nat, size: nat, isRead: bool,
                      v: Outcome)
    requires r.gmStart <= gaddr && Starts(r, gaddr, size) && v == RegionOutcome(r, gaddr, size)
    requires 0 <= MovedBy(r, gaddr % PAGE_SIZE, size, gaddr - r.gmStart, v)
    requires var n := MovedBy(r, gaddr % PAGE_SIZE, size, gaddr - r.gmStart, v);
             Moving(mem0, mem, r.pages, b0, b, gaddr - r.gmStart, n, isRead)
    ensures Transferred(mem0, mem, r, b0, b, gaddr, size, isRead)
  {
  }

  /** The pages of a transfer whose first page exists. */
  method IoPages(m: Machine, r: Region, pageOffset: nat, pageCount: nat, off: nat, buf: array<Byte>, size: nat,
                 isRead: bool, ghost g: nat)
    returns (v: Outcome)
    requires m.Valid() && Usable(m.mem, r) && pageOffset < |r.pages|
    requires off < PAGE_SIZE && g == PAGE_SIZE * pageOffset + off
    requires pageCount == PageCount(off, size) && size <= buf.Length
    modifies m`mem, buf
    ensures m.Valid() && v == (if pageCount > 2 && |r.pages| < pageOffset + pageCount then Unbacked else Done)
    ensures 0 <= MovedBy(r, off, size, g, v)
    ensures Moving(old(m.mem), m.mem, r.pages, old(buf[..]), buf[..], g, MovedBy(r, off, size, g, v), isRead)
  {
    ghost var mem0, b0 := m.mem, buf[..];
    v := Done;
    var sz := if PAGE_SIZE - off < size then PAGE_SIZE - off else size;
    MovedByPages(r, off, size, g, sz);
    Chunk(m, r, pageOffset, off, buf, 0, sz, isRead, mem0, b0, g, sz);
    if pageCount > 2 {
      v := LaterPages(m, r, pageOffset, pageCount, off, buf, size, isRead, mem0, b0, g, sz);
    }
  }

  /** Middle pages and last page of a transfer of three or more pages, after the sz bytes of its first page. */
  method LaterPages(m: Machine, r: Region, pageOffset: nat, pageCount: nat, off: nat, buf: array<Byte>, size: nat,
                    isRead: bool, ghost mem0: Mem, ghost b0: seq<Byte>, ghost g: nat, sz: nat)
    returns (v: Outcome)
    requires m.Valid() && pageOffset < |r.pages| && off < PAGE_SIZE && g == PAGE_SIZE * pageOffset + off
    requires pageCount == PageCount(off, size) && pageCount > 2 && size <= buf.Length && sz == PAGE_SIZE - off
    requires Moving(mem0, m.mem, r.pages, b0, buf[..], g, sz, isRead)
    modifies m`mem, buf
    ensures m.Valid() && v == (if |r.pages| < pageOffset + pageCount then Unbacked else Done)
    ensures 0 <= MovedBy(r, off, size, g, v)
    ensures Moving(mem0, m.mem, r.pages, b0, buf[..], g, MovedBy(r, off, size, g, v), isRead)
  {
    PagesNeeded(off, size, pageCount, sz);
    var last, pos := pageOffset + pageCount - 1, sz;
    v, pos := MiddlePages(m, r, pageOffset + 1, pageCount - 2, pos, buf, isRead, mem0, b0, g);
    if v.Done? {
      LastChunk(g, pageOffset, pageCount, off, size, pos);
      if |r.pages| <= last {
        return Unbacked;
      }
      Chunk(m, r, last, 0, buf, pos, size - pos, isRead, mem0, b0, g, size);
    }
  }

  lemma PagesNeeded(off: nat, size: nat, pageCount: nat, sz: nat)
    requires off < PAGE_SIZE && pageCount == PageCount(off, size) && pageCount > 2 && sz == PAGE_SIZE - off
    ensures PAGE_SIZE * (pageCount - 1) < off + size <= PAGE_SIZE * pageCount
    ensures sz + PAGE_SIZE * (pageCount - 2) <= size && Moved(off, size) == size
  {
  }

  lemma LastChunk(g: nat, pageOffset: nat, pageCount: nat, off: nat, size: nat, pos: nat)
    requires pageCount > 2 && g == PAGE_SIZE * pageOffset + off && pos == PAGE_SIZE - off + PAGE_SIZE * (pageCount - 2)
    requires off < PAGE_SIZE && PAGE_SIZE * (pageCount - 1) < off + size <= PAGE_SIZE * pageCount
    ensures PAGE_SIZE * (pageOffset + pageCount - 1) == g + pos && pos < size <= pos + PAGE_SIZE
  {
  }

  /** n whole pages from page j and buffer position pos on, as far as the region has them. */
  method MiddlePages(m: Machine, r: Region, j: nat, n: nat, pos: nat, buf: array<Byte>, isRead: bool, ghost mem0: Mem,
                     ghost b0: seq<Byte>, ghost g: nat)
    returns (v: Outcome, pos': nat)
    requires m.Valid() && j <= |r.pages| && pos + PAGE_SIZE * n <= buf.Length && PAGE_SIZE * j == g + pos
    requires Moving(mem0, m.mem, r.pages, b0, buf[..], g, pos, isRead)
    modifies m`mem, buf
    ensures m.Valid() && v == if j + n <= |r.pages| then Done else Unbacked
    ensures pos' == if v.Done? then pos + PAGE_SIZE * n else PAGE_SIZE * |r.pages| - g
    ensures Moving(mem0, m.mem, r.pages, b0, buf[..], g, pos', isRead)
  {
    pos' := pos;
    for i := 0 to n
      invariant m.Valid() && pos' == pos + PAGE_SIZE * i && j + i <= |r.pages|
      invariant Moving(mem0, m.mem, r.pages, b0, buf[..], g, pos', isRead)
    {
      if |r.pages| == j + i {
        return Unbacked, pos';
      }
      Chunk(m, r, j + i, 0, buf, pos', PAGE_SIZE, isRead, mem0, b0, g, pos' + PAGE_SIZE);
      pos' := pos' + PAGE_SIZE;
    }
    v := Done;
  }

  /** What the first page alone moves. */
  lemma MovedByPages(r: Region, off: nat, size: nat, g: nat, sz: nat)
    requires off < PAGE_SIZE && sz == if PAGE_SIZE - off < size then PAGE_SIZE - off else size
    ensures off + sz <= PAGE_SIZE && sz <= size
    ensures if PageCount(off, size) <= 2 then MovedBy(r, off, size, g, Done) == sz else sz == PAGE_SIZE - off
  {
  }

  /** Page arithmetic of a transfer. */
  lemma TransferPages(r: Region, gaddr: nat, size: nat)
    requires r.gmStart % PAGE_SIZE == 0 && r.gmStart <= gaddr
    ensures var off, p, n := gaddr % PAGE_SIZE, (gaddr - r.gmStart) / PAGE_SIZE, PageCount(gaddr % PAGE_SIZE, size);
            && PAGE_SIZE * p + off == gaddr - r.gmStart
            && off + size <= PAGE_SIZE * n < off + size + PAGE_SIZE
            && Moved(off, size) <= size
  {
    assert (gaddr - r.gmStart) % PAGE_SIZE == gaddr % PAGE_SIZE;
  }

  /** After pos bytes: the flat view (write) or the buffer (read) has its first pos bytes. */
  ghost predicate Progress(f0: seq<Byte>, b0: seq<Byte>, f: seq<Byte>, b: seq<Byte>, g: nat, pos: nat, isRead: bool) {
    && pos <= |b0| == |b| && g + pos <= |f0| == |f|
    && if isRead then f == f0 && b == f0[g..g + pos] + b0[pos..] else b == b0 && f == Splice(f0, g, b0[..pos])
  }

  ghost predicate OthersKept(mem: Mem, mem': Mem, pages: seq<Word>) {
    forall f :: f in mem && f.base !in pages ==> f in mem' && mem'[f] == mem[f]
  }

  /** Transfer state after pos bytes, from memory mem0 and buffer b0. */
  ghost predicate Moving(mem0: Mem, mem: Mem, pages: seq<Word>, b0: seq<Byte>, b: seq<Byte>, g: nat, pos: nat,
                         isRead: bool)
  {
    && DataPages(mem, pages)
    && Progress(Flat(mem0, pages), b0, Flat(mem, pages), b, g, pos, isRead)
    && (isRead ==> mem == mem0)
    && OthersKept(mem0, mem, pages)
  }

  /** One gpu_mem_io call: n bytes at buffer position pos, page j, byte off; then pos' bytes have moved. */
  method Chunk(m: Machine, r: Region, j: nat, off: nat, buf: array<Byte>, pos: nat, n: nat, isRead: bool,
               ghost mem0: Mem, ghost b0: seq<Byte>, ghost g: nat, ghost pos': nat)
    requires m.Valid() && j < |r.pages| && off < PAGE_SIZE && off + n <= PAGE_SIZE
    requires pos' == pos + n <= buf.Length && PAGE_SIZE * j + off == g + pos
    requires Moving(mem0, m.mem, r.pages, b0, buf[..], g, pos, isRead)
    modifies m`mem, buf
    ensures m.Valid()
    ensures Moving(mem0, m.mem, r.pages, b0, buf[..], g, pos', isRead)
  {
    SplitPaddr(r.pages[j], off);
    if isRead {
      ChunkRead(m.mem, r.pages, j, off, Flat(mem0, r.pages), b0, buf[..], g, pos, n);
    } else {
      ChunkWritten(m.mem, r.pages, j, off, Flat(mem0, r.pages), b0, g, pos, n);
    }
    PhysIo(m, Paddr(r.pages[j], off), buf, pos, n, isRead);
  }

  lemma ChunkWritten(mem: Mem, pages: seq<Word>, j: nat, off: nat, f0: seq<Byte>, b0: seq<Byte>, g: nat, pos: nat,
                     n: nat)
    requires DataPages(mem, pages) && j < |pages| && off + n <= PAGE_SIZE
    requires pos + n <= |b0| && PAGE_SIZE * j + off == g + pos && Progress(f0, b0, Flat(mem, pages), b0, g, pos, false)
    ensures var mem' := StoreBytes(mem, pages[j], off, b0[pos..pos + n]);
            && DataPages(mem', pages) && OthersKept(mem, mem', pages)
            && Progress(f0, b0, Flat(mem', pages), b0, g, pos + n, false)
  {
    assert pages[j] in pages;
    StoreIsSplice(mem, pages, j, off, b0[pos..pos + n]);
    ProgressWritten(f0, b0, Flat(mem, pages), g, pos, n);
  }

  lemma ProgressWritten(f0: seq<Byte>, b0: seq<Byte>, f: seq<Byte>, g: nat, pos: nat, n: nat)
    requires Progress(f0, b0, f, b0, g, pos, false) && pos + n <= |b0| && g + pos + n <= |f0|
    ensures Progress(f0, b0, Splice(f, g + pos, b0[pos..pos + n]), b0, g, pos + n, false)
  {
    SpliceAppend(f0, g, b0[..pos], b0[pos..pos + n]);
    assert b0[..pos] + b0[pos..pos + n] == b0[..pos + n];
  }

  lemma ChunkRead(mem: Mem, pages: seq<Word>, j: nat, off: nat, f0: seq<Byte>, b0: seq<Byte>, b: seq<Byte>, g: nat,
                  pos: nat, n: nat)
    requires DataPages(mem, pages) && j < |pages| && off + n <= PAGE_SIZE
    requires pos + n <= |b0| && PAGE_SIZE * j + off == g + pos && Progress(f0, b0, Flat(mem, pages), b, g, pos, true)
    ensures var b' := b[..pos] + mem[Frame(pages[j])].bytes[off..off + n] + b[pos + n..];
            Progress(f0, b0, Flat(mem, pages), b', g, pos + n, true)
  {
    LoadIsSlice(mem, pages, j, off, n);
    ReadAppend(f0, b0, g, pos, n);
  }

  lemma ReadAppend(f0: seq<Byte>, b0: seq<Byte>, g: nat, pos: nat, n: nat)
    requires pos + n <= |b0| && g + pos + n <= |f0|
    ensures var b := f0[g..g + pos] + b0[pos..];
            b[..pos] + f0[g + pos..g + pos + n] + b[pos + n..] == f0[g..g + pos + n] + b0[pos + n..]
  {
  }
}
