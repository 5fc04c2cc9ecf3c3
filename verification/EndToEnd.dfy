/**
 From the two dumps to the bytes the GPU sees: initialisation followed by a
 transfer through the page lists, read back through the page tables.
 */
module EndToEnd {
  import opened Collections
  import opened PteCodec
  import opened PhysMem
  import opened TableTree
  import opened TableDump
  import opened PageWalk
  import opened LeafEntries
  import opened Regions
  import opened DumpLoop
  import opened AddressSpace
  import opened MemInit
  import opened GpuIo
  import opened LiveContext

  /** Byte x of a region as recorded: zero where nothing was recorded. */
  function RecordedByte(rec: RegionRecord, x: nat): Byte {
    var k := x / PAGE_SIZE;
    if rec.isValid && k < BackedPages(rec.gmStart, rec.gmEnd, rec.nents) && k < |rec.records|
      && |rec.records[k].contents| == PAGE_SIZE
    then rec.records[k].contents[x % PAGE_SIZE] else 0
  }

  /** The GPU, translating va through the tables, finds the byte b. */
  ghost predicate Reads(mem: Mem, pgd: Word, va: nat, b: Byte) {
    Translate(mem, pgd, va).Some? && ByteAt(mem, Translate(mem, pgd, va).value) == b
  }

  /** A write of size bytes at gaddr, from a buffer of n, moves a byte to byte x of region r. */
  predicate MovesTo(r: Region, gaddr: nat, size: nat, n: nat, x: nat)
    requires r.gmStart <= gaddr
  {
    Starts(r, gaddr, size) && gaddr <= r.gmStart + x < gaddr + BytesMoved(r, gaddr, size) && r.gmStart + x - gaddr < n
  }

  /** Byte x of region i after writing the first size bytes of b at gaddr. */
  function ByteAfter(rs: seq<Region>, recs: seq<RegionRecord>, i: nat, x: nat, gaddr: nat, b: seq<Byte>,
                     size: nat): Byte
    requires i < |rs| && i < |recs|
  {
    if i == RegionAt(rs, gaddr) && MovesTo(rs[i], gaddr, size, |b|, x)
    then b[rs[i].gmStart + x - gaddr] else RecordedByte(recs[i], x)
  }

  lemma FlatRecorded(mem: Mem, r: Region, rec: RegionRecord, x: nat)
    requires RecordShape(rec) && BuiltFrom(r, rec) && Loaded(mem, r, rec, Backed(r)) && DataPages(mem, r.pages)
    requires x < PAGE_SIZE * Backed(r)
    ensures x < PAGE_SIZE * |r.pages| && Flat(mem, r.pages)[x] == RecordedByte(rec, x)
  {
    var k := x / PAGE_SIZE;
    assert k < Backed(r) <= |r.pages|;
    if rec.isValid {
      assert RecordedAt(rec.records[k], rec.gmStart + PAGE_SIZE * k);
    }
  }

  /** One byte of a live context, through the page lists and through the tables. */
  lemma ReadsFlat(root: Shadow, mem: Mem, rs: seq<Region>, i: nat, x: nat)
    requires Live(root, mem, rs) && i < |rs| && x < PAGE_SIZE * Backed(rs[i])
    ensures x < PAGE_SIZE * |rs[i].pages| && Reads(mem, root.phys, rs[i].gmStart + x, Flat(mem, rs[i].pages)[x])
  {
    MappedTranslates(root, mem, rs);
    assert Usable(mem, rs[i]);
    assert Backed(rs[i]) <= |rs[i].pages|;
    PathsAgree(mem, root.phys, rs, i, x);
  }

  /** What a write does to one byte of one region. */
  lemma WrittenByte(mem0: Mem, mem: Mem, r: Region, b0: seq<Byte>, b: seq<Byte>, gaddr: nat, size: nat, x: nat)
    requires Transferred(mem0, mem, r, b0, b, gaddr, size, false) && x < PAGE_SIZE * |r.pages|
    ensures Flat(mem, r.pages)[x] ==
      if MovesTo(r, gaddr, size, |b0|, x)
      then b0[r.gmStart + x - gaddr] else Flat(mem0, r.pages)[x]
  {
  }

  /** A write through the page lists at gaddr, wherever it goes. */
  ghost predicate Written(mem0: Mem, mem: Mem, rs: seq<Region>, gaddr: nat, b0: seq<Byte>, b: seq<Byte>, size: nat) {
    var j := RegionAt(rs, gaddr);
    && (j == -1 ==> mem == mem0)
    && (j >= 0 ==> Transferred(mem0, mem, rs[j], b0, b, gaddr, size, false))
  }

  /** It keeps the context live, and the bytes of all regions but the one it finds. */
  lemma WriteKeepsLive(root: Shadow, mem0: Mem, mem: Mem, rs: seq<Region>, gaddr: nat, b0: seq<Byte>, b: seq<Byte>,
                       size: nat)
    requires Live(root, mem0, rs) && Written(mem0, mem, rs, gaddr, b0, b, size)
    ensures Live(root, mem, rs)
    ensures forall i :: 0 <= i < |rs| && i != RegionAt(rs, gaddr) ==> Flat(mem, rs[i].pages) == Flat(mem0, rs[i].pages)
  {
    var j := RegionAt(rs, gaddr);
    if j >= 0 {
      TransferKeepsLive(root, mem0, mem, rs, j, b0, b, gaddr, size, false);
    }
  }

  lemma FlatAfter(mem0: Mem, mem: Mem, rs: seq<Region>, recs: seq<RegionRecord>, gaddr: nat, b0: seq<Byte>,
                  b: seq<Byte>, size: nat, i: nat, x: nat)
    requires i < |rs| && i < |recs| && x < PAGE_SIZE * |rs[i].pages| && Written(mem0, mem, rs, gaddr, b0, b, size)
    requires i != RegionAt(rs, gaddr) ==> Flat(mem, rs[i].pages) == Flat(mem0, rs[i].pages)
    requires Flat(mem0, rs[i].pages)[x] == RecordedByte(recs[i], x)
    ensures Flat(mem, rs[i].pages)[x] == ByteAfter(rs, recs, i, x, gaddr, b0, size)
  {
    if i == RegionAt(rs, gaddr) {
      WrittenByte(mem0, mem, rs[i], b0, b, gaddr, size, x);
    }
  }

  /** The page lists hold, at byte x of region r, what was recorded there. */
  ghost predicate HoldsAt(mem: Mem, r: Region, rec: RegionRecord, x: nat) {
    x < PAGE_SIZE * |r.pages| && Flat(mem, r.pages)[x] == RecordedByte(rec, x)
  }

  /** The bytes a context was initialised with. */
  ghost predicate HoldsRecorded(mem: Mem, rs: seq<Region>, recs: seq<RegionRecord>) {
    |rs| == |recs| &&
    forall i, x: nat :: 0 <= i < |rs| && x < PAGE_SIZE * Backed(rs[i]) ==> HoldsAt(mem, rs[i], recs[i], x)
  }

  lemma InitialisedHolds(mem: Mem, rs: seq<Region>, recs: seq<RegionRecord>)
    requires |rs| == |recs| && AllUsable(mem, rs)
    requires forall i :: 0 <= i < |rs| ==>
      RecordShape(recs[i]) && BuiltFrom(rs[i], recs[i]) && Loaded(mem, rs[i], recs[i], Backed(rs[i]))
    ensures HoldsRecorded(mem, rs, recs)
  {
    forall i, x: nat | 0 <= i < |rs| && x < PAGE_SIZE * Backed(rs[i])
      ensures HoldsAt(mem, rs[i], recs[i], x)
    {
      assert Usable(mem, rs[i]);
      FlatRecorded(mem, rs[i], recs[i], x);
    }
  }

  /** Every byte of every backed page reads as recorded, or as written where the write moved it. */
  ghost predicate ReadsAfter(mem: Mem, pgd: Word, rs: seq<Region>, recs: seq<RegionRecord>, gaddr: nat, b: seq<Byte>,
                             size: nat)
  {
    |rs| == |recs| &&
    forall i, x: nat :: 0 <= i < |rs| && x < PAGE_SIZE * Backed(rs[i]) ==>
      Reads(mem, pgd, rs[i].gmStart + x, ByteAfter(rs, recs, i, x, gaddr, b, size))
  }

  lemma EveryByte(root: Shadow, mem0: Mem, mem: Mem, rs: seq<Region>, recs: seq<RegionRecord>, gaddr: nat,
                  b0: seq<Byte>, b: seq<Byte>, size: nat)
    requires Live(root, mem0, rs) && HoldsRecorded(mem0, rs, recs) && Written(mem0, mem, rs, gaddr, b0, b, size)
    ensures Live(root, mem, rs) && ReadsAfter(mem, root.phys, rs, recs, gaddr, b0, size)
  {
    WriteKeepsLive(root, mem0, mem, rs, gaddr, b0, b, size);
    forall i, x: nat | 0 <= i < |rs| && x < PAGE_SIZE * Backed(rs[i])
      ensures Reads(mem, root.phys, rs[i].gmStart + x, ByteAfter(rs, recs, i, x, gaddr, b0, size))
    {
      ReadsFlat(root, mem, rs, i, x);
      assert HoldsAt(mem0, rs[i], recs[i], x);
      FlatAfter(mem0, mem, rs, recs, gaddr, b0, b, size, i, x);
    }
  }

  /** Everything the write needs from initialisation. */
  lemma InitialisedReady(t: Tree, root: Shadow, mem: Mem, rs: seq<Region>, recs: seq<RegionRecord>)
    requires Initialised(t, root, mem, rs, recs) && DumpsAgree(t, recs) && NoDup(Pages(root) + AllPages(rs))
    ensures Live(root, mem, rs) && HoldsRecorded(mem, rs, recs)
  {
    InitialisedLive(root, mem, rs, recs);
    InitialisedHolds(mem, rs, recs);
  }

  /** Initialisation from dumps that agree, with everything the operations on the regions need. */
  method InitReady(m: Machine, dump: seq<Word>, ghost t: Tree, recs: seq<RegionRecord>) returns (ctx: ReplayContext)
    requires t.Node? && WfTree(t, 0) && DumpAt(dump, 0, t) && DumpsAgree(t, recs)
    requires m.Valid() && Count(t) + TotalEnts(recs) <= |m.supply|
    modifies m
    ensures ctx.m == m && ctx.Valid() && Initialised(t, ctx.root, m.mem, ctx.regions, recs)
    ensures Live(ctx.root, m.mem, ctx.regions) && HoldsRecorded(m.mem, ctx.regions, recs)
    ensures ctx.totNrPages == U32(TotalEnts(recs))
  {
    var stop;
    ghost var n;
    ctx, stop, n := Init(m, dump, t, recs);
    InitialisedReady(t, ctx.root, m.mem, ctx.regions, recs);
    assert recs[..|ctx.regions|] == recs;
  }

  /**
   Rebuild, load, then write through the page lists: through the rebuilt tables
   every byte of every backed page reads as recorded, or as written where the
   transfer moved it.
   */
  method InitThenWrite(m: Machine, dump: seq<Word>, ghost t: Tree, recs: seq<RegionRecord>, gaddr: nat,
                       buf: array<Byte>, size: nat)
    returns (ctx: ReplayContext, v: Outcome)
    requires t.Node? && WfTree(t, 0) && DumpAt(dump, 0, t) && DumpsAgree(t, recs)
    requires m.Valid() && Count(t) + TotalEnts(recs) <= |m.supply|
    requires size <= buf.Length && PageCount(gaddr % PAGE_SIZE, size) < 0x1_0000_0000
    modifies m, buf
    ensures ctx.m == m && ctx.Valid() && Live(ctx.root, m.mem, ctx.regions) && |ctx.regions| == |recs|
    ensures forall i :: 0 <= i < |recs| ==> BuiltFrom(ctx.regions[i], recs[i])
    ensures v == OutcomeAt(ctx.regions, gaddr, size)
    ensures ReadsAfter(m.mem, ctx.root.phys, ctx.regions, recs, gaddr, old(buf[..]), size)
  {
    ctx := InitReady(m, dump, t, recs);
    ghost var root, rs, mem0, b0 := ctx.root, ctx.regions, m.mem, buf[..];
    v := GpuMemIo(m, ctx.regions, gaddr, buf, size, false);
    EveryByte(root, mem0, m.mem, rs, recs, gaddr, b0, buf[..], size);
  }
}
