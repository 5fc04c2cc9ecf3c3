/**
 Operations over the region table: the synced ranges of gr_get_sync_as and the
 checkpoint of gr_checkpoint.c.
 */
module RegionOps {
  import opened Collections
  import opened PteCodec
  import opened PhysMem
  import opened TableTree
  import opened TableDump
  import opened PageWalk
  import opened LeafEntries
  import opened Regions
  import opened DumpLoop
  import opened AddressSpace
  import opened MemInit
  import opened GpuIo
  import opened LiveContext
  import opened EndToEnd

  datatype SyncAs = SyncAs(gmStart: nat, gmEnd: nat, size: nat, isInput: bool, pmStart: Word)

  datatype SyncRecord = SyncRecord(gmStart: nat, gmEnd: nat, size: nat)

  /** va is byte o of backed page k of region j. */
  ghost predicate At(rs: seq<Region>, j: nat, k: nat, o: nat, va: nat) {
    j < |rs| && k < Backed(rs[j]) && o < PAGE_SIZE && va == PageVa(rs[j], k) + o
  }

  /** sa describes rec: its physical start is what the tables make of rec's start. */
  ghost predicate SyncOf(mem: Mem, pgd: Word, rec: SyncRecord, isLast: bool, sa: SyncAs) {
    && sa.gmStart == rec.gmStart && sa.gmEnd == rec.gmEnd && sa.size == rec.size && sa.isInput == isLast
    && Translate(mem, pgd, rec.gmStart) == Some(sa.pmStart)
  }

  /** Wherever the range starts in a backed page, its physical start is that byte of the page. */
  ghost predicate StartsInPage(rs: seq<Region>, rec: SyncRecord, sa: SyncAs) {
    forall j: nat, k: nat, o: nat :: At(rs, j, k, o, rec.gmStart) ==> sa.pmStart == Paddr(rs[j].pages[k], o)
  }

  /** Region j is the first to enclose the start of one of the first n ranges. */
  predicate Touched(rs: seq<Region>, j: nat, recs: seq<SyncRecord>, n: nat) {
    exists i :: 0 <= i < n <= |recs| && RegionAt(rs, recs[i].gmStart) == j
  }

  /**
   How the ranges end: all taken; at a start address without translation, where the
   walker exits; at one whose walk leaves the rebuilt tables for a page of the
   recording, which the code reads; or at one outside every region, where the code
   marks region -1. The model stops there.
   */
  datatype SyncStop = AllSynced | NoTranslation | ForeignTable | NoRegionFound

  function SyncStopAt(mem: Mem, pgd: Word, rs: seq<Region>, va: nat): SyncStop {
    if Translate(mem, pgd, va).None? then
      if HwExits(mem, pgd, va, 0, BOTTOM_LEVEL) then NoTranslation else ForeignTable
    else if RegionAt(rs, va) == -1 then NoRegionFound
    else AllSynced
  }

  /** The first n ranges of recs, out of all of them, are taken. */
  ghost predicate SyncedUpTo(mem: Mem, pgd: Word, rs: seq<Region>, recs: seq<SyncRecord>, sas: seq<SyncAs>) {
    && |sas| <= |recs|
    && (forall i :: 0 <= i < |sas| ==> SyncOf(mem, pgd, recs[i], i == |recs| - 1, sas[i]))
    && (forall i :: 0 <= i < |sas| ==> SyncStopAt(mem, pgd, rs, recs[i].gmStart).AllSynced?)
  }

  /**
   gr_get_sync_as: each range's physical start is the translation of its start
   address, the last range is the input, and exactly the regions found for some
   start are marked as synced; the run stops at the first start address that has no
   translation or lies in no region.
   */
  method GetSyncAs(ctx: ReplayContext, recs: seq<SyncRecord>)
    returns (stop: SyncStop, sas: seq<SyncAs>, synced: seq<bool>)
    requires ctx.Sound()
    ensures SyncedUpTo(ctx.m.mem, ctx.root.phys, ctx.regions, recs, sas)
    ensures stop.AllSynced? <==> |sas| == |recs|
    ensures |sas| < |recs| ==>
      var va := recs[|sas|].gmStart;
      var pa := Translate(ctx.m.mem, ctx.root.phys, va);
      && (stop.NoTranslation? <==> pa.None? && HwExits(ctx.m.mem, ctx.root.phys, va, 0, 3))
      && (stop.ForeignTable? <==> pa.None? && !HwExits(ctx.m.mem, ctx.root.phys, va, 0, 3))
      && (stop.NoRegionFound? <==> pa.Some? && forall r :: r in ctx.regions ==> !(r.gmStart <= va < r.gmEnd))
    ensures forall i :: 0 <= i < |sas| ==>
      && Translate(ctx.m.mem, ctx.root.phys, recs[i].gmStart) == Some(sas[i].pmStart)
      && sas[i].gmStart == recs[i].gmStart && sas[i].gmEnd == recs[i].gmEnd && sas[i].size == recs[i].size
      && (sas[i].isInput <==> i == |recs| - 1)
    ensures Marked(ctx.regions, recs, |sas|, synced)
    ensures TranslatesAll(ctx.m.mem, ctx.root.phys, ctx.regions) ==>
      forall i :: 0 <= i < |sas| ==> StartsInPage(ctx.regions, recs[i], sas[i])
  {
    stop, sas, synced := SyncAll(ctx.m.mem, ctx.root.phys, ctx.regions, recs);
    SyncedInPages(ctx.m.mem, ctx.root.phys, ctx.regions, recs, sas);
  }

  /** Its loop. */
  method SyncAll(mem: Mem, pgd: Word, rs: seq<Region>, recs: seq<SyncRecord>)
    returns (stop: SyncStop, sas: seq<SyncAs>, synced: seq<bool>)
    ensures SyncedUpTo(mem, pgd, rs, recs, sas) && Marked(rs, recs, |sas|, synced)
    ensures if |sas| == |recs| then stop.AllSynced?
            else stop == SyncStopAt(mem, pgd, rs, recs[|sas|].gmStart) && !stop.AllSynced?
  {
    stop, sas, synced := AllSynced, [], seq(|rs|, _ => false);
    for offset := 0 to |recs|
      invariant stop.AllSynced? && |sas| == offset
      invariant SyncedUpTo(mem, pgd, rs, recs, sas) && Marked(rs, recs, offset, synced)
    {
      var sa, region;
      stop, sa, region := SyncOne(mem, pgd, rs, recs[offset], offset == |recs| - 1);
      if !stop.AllSynced? {
        return;
      }
      MarkNext(rs, recs, offset, synced, region);
      SyncNext(mem, pgd, rs, recs, sas, sa);
      sas := sas + [sa];
      synced := synced[region := true];
    }
  }

  /** Exactly the regions found for the first n ranges are marked. */
  ghost predicate Marked(rs: seq<Region>, recs: seq<SyncRecord>, n: nat, synced: seq<bool>) {
    |synced| == |rs| && forall j :: 0 <= j < |rs| ==> (synced[j] <==> Touched(rs, j, recs, n))
  }

  lemma SyncNext(mem: Mem, pgd: Word, rs: seq<Region>, recs: seq<SyncRecord>, sas: seq<SyncAs>, sa: SyncAs)
    requires SyncedUpTo(mem, pgd, rs, recs, sas) && |sas| < |recs|
    requires SyncOf(mem, pgd, recs[|sas|], |sas| == |recs| - 1, sa)
    requires SyncStopAt(mem, pgd, rs, recs[|sas|].gmStart).AllSynced?
    ensures SyncedUpTo(mem, pgd, rs, recs, sas + [sa])
  {
  }

  lemma MarkNext(rs: seq<Region>, recs: seq<SyncRecord>, n: nat, synced: seq<bool>, region: nat)
    requires Marked(rs, recs, n, synced) && n < |recs| && region == RegionAt(rs, recs[n].gmStart)
    ensures Marked(rs, recs, n + 1, synced[region := true])
  {
    forall j | 0 <= j < |rs|
      ensures Touched(rs, j, recs, n + 1) <==> Touched(rs, j, recs, n) || j == region
    {
      TouchedNext(rs, j, recs, n);
    }
  }

  lemma SyncedInPages(mem: Mem, pgd: Word, rs: seq<Region>, recs: seq<SyncRecord>, sas: seq<SyncAs>)
    requires SyncedUpTo(mem, pgd, rs, recs, sas)
    ensures TranslatesAll(mem, pgd, rs) ==> forall i :: 0 <= i < |sas| ==> StartsInPage(rs, recs[i], sas[i])
  {
    if TranslatesAll(mem, pgd, rs) {
      forall i | 0 <= i < |sas|
        ensures StartsInPage(rs, recs[i], sas[i])
      {
        SyncedInPage(mem, pgd, rs, recs[i], i == |recs| - 1, sas[i]);
      }
    }
  }

  lemma SyncedInPage(mem: Mem, pgd: Word, rs: seq<Region>, rec: SyncRecord, isLast: bool, sa: SyncAs)
    requires TranslatesAll(mem, pgd, rs) && SyncOf(mem, pgd, rec, isLast, sa)
    ensures StartsInPage(rs, rec, sa)
  {
    forall j: nat, k: nat, o: nat | At(rs, j, k, o, rec.gmStart)
      ensures sa.pmStart == Paddr(rs[j].pages[k], o)
    {
      AtTranslates(mem, pgd, rs, j, k, o, rec.gmStart);
    }
  }

  lemma AtTranslates(mem: Mem, pgd: Word, rs: seq<Region>, j: nat, k: nat, o: nat, va: nat)
    requires TranslatesAll(mem, pgd, rs) && At(rs, j, k, o, va)
    ensures Translate(mem, pgd, va) == Some(Paddr(rs[j].pages[k], o))
  {
    assert TranslatesTo(mem, pgd, rs[j], k, o);
  }

  lemma TouchedNext(rs: seq<Region>, j: nat, recs: seq<SyncRecord>, n: nat)
    requires n < |recs|
    ensures Touched(rs, j, recs, n + 1) <==> Touched(rs, j, recs, n) || RegionAt(rs, recs[n].gmStart) == j
  {
    if Touched(rs, j, recs, n) {
      var i :| 0 <= i < n && RegionAt(rs, recs[i].gmStart) == j;
      assert 0 <= i < n + 1;
    }
  }

  /** In disjoint regions these are exactly the regions some range starts in. */
  lemma TouchedIff(root: Shadow, rs: seq<Region>, j: nat, recs: seq<SyncRecord>, n: nat)
    requires RegionsOk(root, rs) && j < |rs| && n <= |recs|
    ensures Touched(rs, j, recs, n) <==> exists i :: 0 <= i < n && Encloses(rs[j], recs[i].gmStart)
  {
    forall i | 0 <= i < n
      ensures RegionAt(rs, recs[i].gmStart) == j <==> Encloses(rs[j], recs[i].gmStart)
    {
      if Encloses(rs[j], recs[i].gmStart) {
        EnclosingUnique(root, rs, j, recs[i].gmStart);
      }
    }
  }

  /** One iteration: translate the start address and look its region up. */
  method SyncOne(mem: Mem, transtab: Word, rs: seq<Region>, rec: SyncRecord, isLast: bool)
    returns (stop: SyncStop, sa: SyncAs, region: nat)
    ensures stop == SyncStopAt(mem, transtab, rs, rec.gmStart)
    ensures stop.AllSynced? ==> SyncOf(mem, transtab, rec, isLast, sa) && region == RegionAt(rs, rec.gmStart)
  {
    sa, region := SyncAs(rec.gmStart, rec.gmEnd, rec.size, isLast, 0), 0;
    var pa, exits := TransVaToPa(mem, transtab, rec.gmStart);
    if pa.None? {
      return if exits then NoTranslation else ForeignTable, sa, region;
    }
    sa := sa.(pmStart := pa.value);
    var off := FindRegion(rs, rec.gmStart);
    if off == -1 {
      return NoRegionFound, sa, region;
    }
    stop, region := AllSynced, off;
  }

  function TotalPages(rs: seq<Region>): nat {
    |AllPages(rs)|
  }

  lemma AllPagesPrefix(rs: seq<Region>, i: nat)
    requires i < |rs|
    ensures AllPages(rs[..i + 1]) == AllPages(rs[..i]) + rs[i].pages
  {
    assert rs[..i + 1][..i] == rs[..i];
  }

  lemma {:induction false} AllPagesBound(rs: seq<Region>, i: nat)
    requires i <= |rs|
    ensures |AllPages(rs[..i])| <= |AllPages(rs)|
    decreases |rs| - i
  {
    if i < |rs| {
      AllPagesPrefix(rs, i);
      AllPagesBound(rs, i + 1);
    } else {
      assert rs[..i] == rs;
    }
  }

  lemma {:induction false} TotalPagesOf(rs: seq<Region>, recs: seq<RegionRecord>, n: nat)
    requires n <= |rs| == |recs| && forall i :: 0 <= i < |rs| ==> BuiltFrom(rs[i], recs[i])
    ensures TotalPages(rs[..n]) == TotalEnts(recs[..n])
  {
    if n > 0 {
      TotalPagesOf(rs, recs, n - 1);
      AllPagesPrefix(rs, n - 1);
      TotalEntsSplit(recs, n - 1);
    }
  }

  /**
   The space reserved after initialisation is too small exactly when the page total
   does not fit its 32-bit counter.
   */
  lemma ReservedTooSmallIff(rs: seq<Region>, recs: seq<RegionRecord>)
    requires |rs| == |recs| && forall i :: 0 <= i < |rs| ==> BuiltFrom(rs[i], recs[i])
    ensures U32(TotalEnts(recs)) < TotalPages(rs) <==> TotalEnts(recs) >= 0x1_0000_0000
  {
    TotalPagesOf(rs, recs, |rs|);
    assert rs[..|rs|] == rs && recs[..|recs|] == recs;
  }

  /** One more page at the end of the flat view. */
  lemma FlatAppend(mem: Mem, pages: seq<Word>, p: Word)
    requires IsData(mem, p)
    ensures Flat(mem, pages + [p]) == Flat(mem, pages) + mem[Frame(p)].bytes
  {
    var f, g := Flat(mem, pages + [p]), Flat(mem, pages) + mem[Frame(p)].bytes;
    forall x | 0 <= x < |f|
      ensures f[x] == g[x]
    {
      var k := x / PAGE_SIZE;
      assert x == PAGE_SIZE * k + x % PAGE_SIZE;
      if k < |pages| {
        assert (pages + [p])[k] == pages[k];
      } else {
        assert k == |pages| && (pages + [p])[k] == p;
      }
    }
  }

  class Checkpointer {
    /** The function's static call counter, 32 bits wide: after 2^32 calls it copies again. */
    var count: nat
    var nrWrittenPages: nat

    constructor ()
      ensures count == 0 && nrWrittenPages == 0
    {
      count, nrWrittenPages := 0, 0;
    }

    /**
     gr_write_checkpoint: the first two calls copy all region pages in order; a
     copy aborts on its capacity check exactly when there are more pages than
     totNrPages says. Memory is only read.
     */
    method Write(mem: Mem, rs: seq<Region>, totNrPages: nat, provision: array<Byte>) returns (ret: int, aborted: bool)
      requires forall p :: p in AllPages(rs) ==> IsData(mem, p)
      requires provision.Length == PAGE_SIZE * totNrPages
      modifies this, provision
      ensures count == U32(old(count) + 1)
      ensures old(count) >= 2 ==>
        ret == 0 && !aborted && provision[..] == old(provision[..]) && nrWrittenPages == old(nrWrittenPages)
      ensures old(count) < 2 ==> (aborted <==> totNrPages < TotalPages(rs))
      ensures old(count) < 2 && !aborted ==>
        && ret == 1 && nrWrittenPages == TotalPages(rs)
        && provision[..PAGE_SIZE * nrWrittenPages] == Flat(mem, AllPages(rs))
        && provision[PAGE_SIZE * nrWrittenPages..] == old(provision[..])[PAGE_SIZE * nrWrittenPages..]
    {
      aborted, ret := false, 0;
      var earlier := count;
      count := U32(count + 1);
      if earlier >= 2 {
        return;
      }
      nrWrittenPages := 0;
      assert rs[..0] == [] && Flat(mem, []) == [];
      for i := 0 to |rs|
        invariant count == U32(old(count) + 1) && nrWrittenPages <= totNrPages
        invariant Copied(mem, AllPages(rs[..i]), provision[..], old(provision[..]), nrWrittenPages)
      {
        AllPagesPrefix(rs, i);
        AllPagesBound(rs, i + 1);
        assert rs[..|rs|] == rs;
        aborted := WriteRegion(mem, rs, i, totNrPages, provision, old(provision[..]));
        if aborted {
          return;
        }
      }
      assert rs[..|rs|] == rs;
      ret := 1;
    }

    /** The pages written so far, and the rest of the space untouched. */
    static ghost predicate Copied(mem: Mem, pages: seq<Word>, b: seq<Byte>, b0: seq<Byte>, n: nat) {
      && n == |pages| && PAGE_SIZE * n <= |b| == |b0|
      && b[..PAGE_SIZE * n] == Flat(mem, pages)
      && b[PAGE_SIZE * n..] == b0[PAGE_SIZE * n..]
    }

    /** The inner loop: one region's pages. */
    method WriteRegion(mem: Mem, rs: seq<Region>, i: nat, totNrPages: nat, provision: array<Byte>, ghost b0: seq<Byte>)
      returns (aborted: bool)
      requires i < |rs| && forall p :: p in AllPages(rs) ==> IsData(mem, p)
      requires provision.Length == PAGE_SIZE * totNrPages && nrWrittenPages <= totNrPages
      requires Copied(mem, AllPages(rs[..i]), provision[..], b0, nrWrittenPages)
      modifies `nrWrittenPages, provision
      ensures nrWrittenPages <= totNrPages
      ensures aborted <==> totNrPages < |AllPages(rs[..i])| + |rs[i].pages|
      ensures !aborted ==> Copied(mem, AllPages(rs[..i]) + rs[i].pages, provision[..], b0, nrWrittenPages)
    {
      ghost var pages := AllPages(rs[..i]);
      assert pages + rs[i].pages[..0] == pages;
      for j := 0 to |rs[i].pages|
        invariant nrWrittenPages <= totNrPages
        invariant Copied(mem, pages + rs[i].pages[..j], provision[..], b0, nrWrittenPages)
      {
        if nrWrittenPages >= totNrPages {
          return true;
        }
        var p := rs[i].pages[j];
        assert p in rs[i].pages;
        RegionPagesIn(rs, i, p);
        ghost var b := provision[..];
        var base, bytes := PAGE_SIZE * nrWrittenPages, mem[Frame(p)].bytes;
        forall x | 0 <= x < PAGE_SIZE {
          provision[base + x] := bytes[x];
        }
        assert provision[..] == b[..base] + bytes + b[base + PAGE_SIZE..];
        FlatAppend(mem, pages + rs[i].pages[..j], p);
        assert pages + rs[i].pages[..j] + [p] == pages + rs[i].pages[..j + 1];
        nrWrittenPages := nrWrittenPages + 1;
      }
      assert rs[i].pages[..|rs[i].pages|] == rs[i].pages;
      aborted := false;
    }
  }

  lemma {:induction false} AllPagesData(mem: Mem, rs: seq<Region>)
    requires AllUsable(mem, rs)
    ensures forall p :: p in AllPages(rs) ==> IsData(mem, p)
  {
    if rs != [] {
      AllPagesData(mem, rs[..|rs| - 1]);
      assert Usable(mem, rs[|rs| - 1]);
    }
  }

  /**
   Rebuild, load, reserve the space, checkpoint: the first checkpoint is exactly the
   bytes of all region pages and fills the space, unless the page total did not fit its
   32-bit counter, and exactly then it aborts.
   */
  method InitThenCheckpoint(m: Machine, dump: seq<Word>, ghost t: Tree, recs: seq<RegionRecord>)
    returns (ctx: ReplayContext, aborted: bool, provision: array<Byte>)
    requires t.Node? && WfTree(t, 0) && DumpAt(dump, 0, t) && DumpsAgree(t, recs)
    requires m.Valid() && Count(t) + TotalEnts(recs) <= |m.supply|
    modifies m
    ensures ctx.m == m && Initialised(t, ctx.root, m.mem, ctx.regions, recs)
    ensures aborted <==> TotalEnts(recs) >= 0x1_0000_0000
    ensures !aborted ==> provision[..] == Flat(m.mem, AllPages(ctx.regions))
  {
    ctx := InitReady(m, dump, t, recs);
    aborted, provision := FirstCheckpoint(m.mem, ctx.regions, recs, ctx.totNrPages);
  }

  /** Reserve space for totNrPages pages and write the first checkpoint there. */
  method FirstCheckpoint(mem: Mem, rs: seq<Region>, ghost recs: seq<RegionRecord>, totNrPages: nat)
    returns (aborted: bool, provision: array<Byte>)
    requires AllUsable(mem, rs) && totNrPages == U32(TotalEnts(recs))
    requires |rs| == |recs| && forall i :: 0 <= i < |rs| ==> BuiltFrom(rs[i], recs[i])
    ensures aborted <==> TotalEnts(recs) >= 0x1_0000_0000
    ensures !aborted ==> provision[..] == Flat(mem, AllPages(rs))
  {
    AllPagesData(mem, rs);
    ReservedTooSmallIff(rs, recs);
    TotalIs(rs, recs);
    provision := new Byte[PAGE_SIZE * totNrPages](_ => 0);
    var checkpointer := new Checkpointer();
    var ret;
    ret, aborted := checkpointer.Write(mem, rs, totNrPages, provision);
    if !aborted {
      assert provision[..provision.Length] == provision[..];
    }
  }

  lemma TotalIs(rs: seq<Region>, recs: seq<RegionRecord>)
    requires |rs| == |recs| && forall i :: 0 <= i < |rs| ==> BuiltFrom(rs[i], recs[i])
    ensures TotalPages(rs) == TotalEnts(recs)
  {
    TotalPagesOf(rs, recs, |rs|);
    assert rs[..|rs|] == rs && recs[..|recs|] == recs;
  }
}
