/**
 The replay context's address space: gr_mem_contents_init backs every dumped
 region with fresh pages and enters them in the rebuilt table, gr_restore_pte
 enters them again.
 */
module AddressSpace {
  import opened Collections
  import opened PteCodec
  import opened PhysMem
  import opened TableTree
  import opened PageWalk
  import opened LeafEntries
  import opened Regions
  import opened DumpLoop

  lemma MappedKept(root: Shadow, mem: Mem, mem': Mem, r: Region, n: nat, va: nat, w: Word)
    requires RegionOk(root, r) && Mapped(root, mem, r, n) && LeafWritten(root, mem, mem', va, w)
    requires forall k: nat :: k < n ==> PageVa(r, k) / PAGE_SIZE != va / PAGE_SIZE
    ensures Mapped(root, mem', r, n)
  {
    forall k: nat | k < n
      ensures SlotWord(root, mem', PageVa(r, k)) == Pte(r, k)
    {
      BackedBound(r, k);
    }
  }

  /** The regions before i are entered completely and region i up to page k. */
  ghost predicate EnteredUpTo(root: Shadow, mem: Mem, rs: seq<Region>, i: nat, k: nat) {
    && i <= |rs|
    && (forall j :: 0 <= j < i ==> Mapped(root, mem, rs[j], Backed(rs[j])))
    && (i < |rs| ==> Mapped(root, mem, rs[i], k))
  }

  /** Loop state of gr_restore_pte, from memory mem0. */
  ghost predicate Restoring(root: Shadow, mem0: Mem, mem: Mem, rs: seq<Region>, i: nat, k: nat) {
    OnlyBackedWritten(root, mem0, mem, rs) && mem.Keys == mem0.Keys && EnteredUpTo(root, mem, rs, i, k)
  }

  lemma RegionRestored(root: Shadow, mem0: Mem, mem: Mem, rs: seq<Region>, i: nat, k: nat)
    requires Restoring(root, mem0, mem, rs, i, k) && i < |rs| && k == Backed(rs[i])
    ensures Restoring(root, mem0, mem, rs, i + 1, 0)
  {
  }

  /** Entering page k of region i keeps what has been entered before. */
  lemma EnterPage(root: Shadow, rs: seq<Region>, i: nat, k: nat, mem: Mem, mem': Mem)
    requires RegionsOk(root, rs) && i < |rs| && k < Backed(rs[i])
    requires EnteredUpTo(root, mem, rs, i, k)
    requires LeafWritten(root, mem, mem', PageVa(rs[i], k), Pte(rs[i], k))
    ensures EnteredUpTo(root, mem', rs, i, k + 1)
  {
    var va, w := PageVa(rs[i], k), Pte(rs[i], k);
    forall j | 0 <= j < i
      ensures Mapped(root, mem', rs[j], Backed(rs[j]))
    {
      forall k': nat | k' < Backed(rs[j])
        ensures PageVa(rs[j], k') / PAGE_SIZE != va / PAGE_SIZE
      {
        PagesApart(root, rs[j], k', rs[i], k);
      }
      MappedKept(root, mem, mem', rs[j], Backed(rs[j]), va, w);
    }
    forall k': nat | k' < k
      ensures PageVa(rs[i], k') / PAGE_SIZE != va / PAGE_SIZE
    {
      PagesApart(root, rs[i], k', rs[i], k);
    }
    MappedKept(root, mem, mem', rs[i], k, va, w);
  }

  lemma EnterBackedOnly(root: Shadow, rs: seq<Region>, i: nat, k: nat, mem0: Mem, mem: Mem, mem': Mem, w: Word)
    requires i < |rs| && k < Backed(rs[i]) && OnlyBackedWritten(root, mem0, mem, rs)
    requires LeafWritten(root, mem, mem', PageVa(rs[i], k), w)
    ensures OnlyBackedWritten(root, mem0, mem', rs)
  {
    forall va: nat | va < VA_LIMIT && !BackedVa(rs, va)
      ensures SlotWord(root, mem', va) == SlotWord(root, mem0, va)
    {
      NotBacked(rs, i, k, va);
    }
  }

  lemma NotBacked(rs: seq<Region>, i: nat, k: nat, va: nat)
    requires i < |rs| && k < Backed(rs[i]) && !BackedVa(rs, va)
    ensures PageVa(rs[i], k) / PAGE_SIZE != va / PAGE_SIZE
  {
    assert !InPages(rs[i], Backed(rs[i]), va);
  }

  /** The first i regions have taken their pages from the supply, in order. */
  ghost predicate PagesUpTo(recs: seq<RegionRecord>, i: nat, supply0: seq<Word>, rs: seq<Region>, supply: seq<Word>) {
    && |rs| == i <= |recs| && TotalEnts(recs[..i]) <= |supply0|
    && AllPages(rs) == supply0[..TotalEnts(recs[..i])] && supply == supply0[TotalEnts(recs[..i])..]
    && (forall j :: 0 <= j < i ==> BuiltFrom(rs[j], recs[j]))
  }

  lemma NextRecord(recs: seq<RegionRecord>, i: nat, supply0: seq<Word>, rs: seq<Region>, supply: seq<Word>)
    requires i < |recs| && PagesUpTo(recs, i, supply0, rs, supply) && TotalEnts(recs) <= |supply0|
    ensures recs[i].nents <= |supply|
    ensures TotalEnts(recs[..i + 1]) == TotalEnts(recs[..i]) + recs[i].nents
  {
    TotalEntsSplit(recs, i);
  }

  lemma PagesStep(recs: seq<RegionRecord>, i: nat, supply0: seq<Word>, rs: seq<Region>, supply: seq<Word>, r: Region,
                  supply': seq<Word>)
    requires i < |recs| && PagesUpTo(recs, i, supply0, rs, supply) && recs[i].nents <= |supply| && BuiltFrom(r, recs[i])
    requires r.pages == supply[..recs[i].nents] && supply' == supply[recs[i].nents..]
    ensures PagesUpTo(recs, i + 1, supply0, rs + [r], supply')
  {
    TotalEntsSplit(recs, i);
    var n, c := TotalEnts(recs[..i]), recs[i].nents;
    assert supply0[..n] + supply0[n..][..c] == supply0[..n + c] && supply0[n..][c..] == supply0[n + c..];
    AllPagesAppend(rs, r);
  }

  lemma NextLoaded(root: Shadow, recs: seq<RegionRecord>, i: nat, mem0: Mem, supply0: seq<Word>, rs: seq<Region>,
                   supply: seq<Word>, mem: Mem, r: Region, mem': Mem)
    requires i < |recs| && PagesUpTo(recs, i, supply0, rs, supply) && FreshSupply(root, mem0, supply0)
    requires AllEntered(root, mem0, mem, rs, recs) && Entered(root, mem, mem', r, recs[i], Steps(recs[i]))
    ensures AllEntered(root, mem0, mem', rs + [r], recs)
  {
    FreshPages(root, mem0, supply0, TotalEnts(recs[..i]));
    NextEntered(root, mem0, mem, mem', rs, r, recs);
  }

  /** The loops over the first i regions of the dump run to their ends. */
  ghost predicate AllEnd(root: Shadow, recs: seq<RegionRecord>, i: nat) {
    i <= |recs| && forall j :: 0 <= j < i ==> EndsAt(root, recs[j], Steps(recs[j]), Complete)
  }

  lemma NextEnds(root: Shadow, recs: seq<RegionRecord>, i: nat, n: nat, stop: InitStop)
    requires AllEnd(root, recs, i) && i < |recs| && EndsAt(root, recs[i], n, stop) && stop.Complete?
    ensures n == Steps(recs[i]) && AllEnd(root, recs, i + 1)
  {
    CompleteIff(root, recs[i], n, stop);
  }

  /** The first i regions of the dump have their pages and are loaded and entered in full. */
  ghost predicate AllDone(root: Shadow, recs: seq<RegionRecord>, i: nat, mem0: Mem, supply0: seq<Word>, rs: seq<Region>,
                          supply: seq<Word>, mem: Mem)
  {
    && PagesUpTo(recs, i, supply0, rs, supply) && AllEntered(root, mem0, mem, rs, recs) && AllEnd(root, recs, i)
  }

  lemma NextRegionDone(root: Shadow, recs: seq<RegionRecord>, i: nat, mem0: Mem, supply0: seq<Word>, rs: seq<Region>,
                       supply: seq<Word>, mem: Mem, r: Region, supply': seq<Word>, mem': Mem, stop: InitStop, n: nat)
    requires AllDone(root, recs, i, mem0, supply0, rs, supply, mem) && i < |recs| && FreshSupply(root, mem0, supply0)
    requires recs[i].nents <= |supply| && BuiltFrom(r, recs[i]) && EndsAt(root, recs[i], n, stop)
    requires r.pages == supply[..recs[i].nents] && supply' == supply[recs[i].nents..]
    requires stop.Complete? ==> Entered(root, mem, mem', r, recs[i], Steps(recs[i]))
    ensures PagesUpTo(recs, i + 1, supply0, rs + [r], supply')
    ensures stop.Complete? ==>
      n == Steps(recs[i]) && AllDone(root, recs, i + 1, mem0, supply0, rs + [r], supply', mem')
  {
    PagesStep(recs, i, supply0, rs, supply, r, supply');
    if stop.Complete? {
      NextEnds(root, recs, i, n, stop);
      NextLoaded(root, recs, i, mem0, supply0, rs, supply, mem, r, mem');
    }
  }

  class ReplayContext {
    const m: Machine
    /** user_pgt and new_transtab */
    const root: Shadow
    var regions: seq<Region>
    var totNrPages: nat

    /** The tables are intact. */
    ghost predicate Sound()
      reads this, m
    {
      m.Valid() && root.Shadow? && TablesOk(root, m.mem)
    }

    /** Moreover the regions are disjoint, aligned and covered by the tables. */
    ghost predicate Valid()
      reads this, m
    {
      Sound() && RegionsOk(root, regions)
    }

    constructor (m: Machine, root: Shadow)
      requires m.Valid() && root.Shadow? && TablesOk(root, m.mem)
      ensures Valid() && this.m == m && this.root == root && regions == [] && totNrPages == 0
    {
      this.m := m;
      this.root := root;
      regions := [];
      totNrPages := 0;
    }

    /** One store through a leaf table of the shadow tree. */
    method SetLeaf(va: nat, target: Shadow, pte: Word)
      requires Sound() && target.Shadow? && target == ShadowWalk(root, va, 0, BOTTOM_LEVEL)
      modifies m`mem
      ensures Sound() && LeafWritten(root, old(m.mem), m.mem, Wrapped(va), pte)
    {
      WalkWraps(root, va, 0, BOTTOM_LEVEL);
      IndexWraps(va, BOTTOM_LEVEL);
      LeafIsTable(root, m.mem, Wrapped(va));
      StoreLeafEffect(root, m.mem, Wrapped(va), pte);
      var words := m.mem[Frame(target.phys)].words;
      m.WritePage(target.phys, Table(words[Index(va, BOTTOM_LEVEL) := pte]));
    }

    /**
     gr_restore_pte: whatever the leaf slots hold, afterwards every backed page
     of every region is entered again and nothing else has changed.
     */
    method RestorePte()
      requires Valid()
      modifies m`mem
      ensures Valid() && AllMapped(root, m.mem, regions)
      ensures OnlyBackedWritten(root, old(m.mem), m.mem, regions) && m.mem.Keys == old(m.mem).Keys
    {
      ghost var mem0 := m.mem;
      for i := 0 to |regions|
        invariant Valid() && Restoring(root, mem0, m.mem, regions, i, 0)
      {
        RestoreRegion(i, mem0);
      }
    }

    /** The inner loop of gr_restore_pte. */
    method RestoreRegion(i: nat, ghost mem0: Mem)
      requires Valid() && i < |regions| && Restoring(root, mem0, m.mem, regions, i, 0)
      modifies m`mem
      ensures Valid() && Restoring(root, mem0, m.mem, regions, i + 1, 0)
    {
      var r := regions[i];
      var gaddr, pageCnt: nat := r.gmStart, 0;
      while gaddr < r.gmEnd && pageCnt < |r.pages|
        invariant Valid() && gaddr == PageVa(r, pageCnt) && pageCnt <= Backed(r)
        invariant Restoring(root, mem0, m.mem, regions, i, pageCnt)
      {
        BackedBound(r, pageCnt);
        RestorePage(i, pageCnt, gaddr, mem0);
        gaddr, pageCnt := gaddr + PAGE_SIZE, pageCnt + 1;
      }
      BackedBound(r, pageCnt);
      RegionRestored(root, mem0, m.mem, regions, i, pageCnt);
    }

    /** Enter page pageCnt of region i. */
    method RestorePage(i: nat, pageCnt: nat, gaddr: nat, ghost mem0: Mem)
      requires Valid() && i < |regions| && pageCnt < Backed(regions[i]) && gaddr == PageVa(regions[i], pageCnt)
      requires Restoring(root, mem0, m.mem, regions, i, pageCnt)
      modifies m`mem
      ensures Valid() && Restoring(root, mem0, m.mem, regions, i, pageCnt + 1)
    {
      var r := regions[i];
      assert RegionOk(root, r);
      BackedBound(r, pageCnt);
      ghost var mem1 := m.mem;
      var pte := EntryGetAte(r.pages[pageCnt], r.flags, BOTTOM_LEVEL);
      var target := UserPgdAtLevel(root, gaddr, BOTTOM_LEVEL);
      SetLeaf(gaddr, target, pte);
      EnterPage(root, regions, i, pageCnt, mem1, m.mem);
      EnterBackedOnly(root, regions, i, pageCnt, mem0, mem1, m.mem, pte);
    }

    /** Register a region and take its pages from the pool. */
    method AllocRegion(rec: RegionRecord) returns (r: Region)
      requires Sound() && rec.nents <= |m.supply|
      modifies this, m
      ensures Sound() && regions == old(regions) + [r] && BuiltFrom(r, rec)
      ensures r.pages == old(m.supply)[..rec.nents] && m.supply == old(m.supply)[rec.nents..]
      ensures NewPages(root, old(m.mem), r.pages)
      ensures Entered(root, old(m.mem), m.mem, r, rec, 0)
      ensures totNrPages == U32(old(totNrPages) + rec.nents)
    {
      ghost var mem0 := m.mem;
      FreshPages(root, mem0, m.supply, rec.nents);
      var pages := m.GetPages(rec.nents);
      totNrPages := U32(totNrPages + rec.nents);
      r := Region(rec.gmStart, rec.gmEnd, pages, rec.flags, rec.isValid);
      NothingEntered(root, mem0, m.mem, r, rec);
      regions := regions + [r];
    }

    /** Load page pageCnt of region r and enter it at vaddr; returns the address the loop goes on from. */
    method InitPage(rec: RegionRecord, r: Region, pageCnt: nat, vaddr: nat, ghost mem0: Mem)
      returns (stop: InitStop, vaddr': nat)
      requires Sound() && BuiltFrom(r, rec) && NewPages(root, mem0, r.pages)
      requires GoesOn(rec, pageCnt) && vaddr == LoopVa(rec, pageCnt) && Entered(root, mem0, m.mem, r, rec, pageCnt)
      modifies m`mem
      ensures Sound()
      ensures stop == if !Covered(root, vaddr) then NoTable else if !Given(rec, pageCnt) then DumpEnds else Complete
      ensures vaddr' == if rec.isValid && stop.Complete? then rec.records[pageCnt].vaddr else vaddr
      ensures stop.Complete? ==> Entered(root, mem0, m.mem, r, rec, pageCnt + 1)
    {
      stop, vaddr' := Complete, vaddr;
      var target := UserPgdAtLevel(root, vaddr, BOTTOM_LEVEL);
      if target.NoShadow? {
        return NoTable, vaddr;
      }
      var newPage := r.pages[pageCnt];
      ghost var mem1 := m.mem;
      if rec.isValid {
        if |rec.records| <= pageCnt || |rec.records[pageCnt].contents| != PAGE_SIZE {
          return DumpEnds, vaddr;
        }
        vaddr' := rec.records[pageCnt].vaddr;
        assert newPage in r.pages;
        m.WritePage(newPage, Data(rec.records[pageCnt].contents));
      }
      ghost var mem2 := m.mem;
      PageLoaded(root, mem0, mem1, mem2, r, rec, pageCnt);
      SetLeaf(vaddr, target, EntryGetAte(newPage, rec.flags, BOTTOM_LEVEL));
      PageEntered(root, mem0, mem2, m.mem, r, rec, pageCnt);
    }

    /** The page loop of gr_mem_contents_init. */
    method FillRegion(rec: RegionRecord, r: Region, ghost mem0: Mem) returns (stop: InitStop, ghost n: nat)
      requires Sound() && BuiltFrom(r, rec) && NewPages(root, mem0, r.pages)
      requires Entered(root, mem0, m.mem, r, rec, 0)
      modifies m`mem
      ensures Sound() && EndsAt(root, rec, n, stop)
      ensures stop.Complete? ==> Entered(root, mem0, m.mem, r, rec, n)
    {
      var vaddr, pageCnt: nat := rec.gmStart, 0;
      while vaddr < rec.gmEnd && pageCnt < rec.nents
        invariant Sound() && vaddr == LoopVa(rec, pageCnt) && GetsTo(root, rec, pageCnt)
        invariant Entered(root, mem0, m.mem, r, rec, pageCnt)
        decreases rec.nents - pageCnt
      {
        stop, vaddr := InitPage(rec, r, pageCnt, vaddr, mem0);
        if !stop.Complete? {
          return stop, pageCnt;
        }
        vaddr, pageCnt := NextVa(vaddr), pageCnt + 1;
      }
      stop, n := Complete, pageCnt;
    }

    /** One iteration of gr_mem_contents_init: allocate a region's pages, load them, and enter them. */
    method InitRegion(rec: RegionRecord) returns (r: Region, stop: InitStop, ghost n: nat)
      requires Sound() && rec.nents <= |m.supply|
      modifies this, m
      ensures Sound() && regions == old(regions) + [r] && BuiltFrom(r, rec)
      ensures r.pages == old(m.supply)[..rec.nents] && m.supply == old(m.supply)[rec.nents..]
      ensures NewPages(root, old(m.mem), r.pages) && totNrPages == U32(old(totNrPages) + rec.nents)
      ensures EndsAt(root, rec, n, stop)
      ensures stop.Complete? ==> Entered(root, old(m.mem), m.mem, r, rec, Steps(rec))
    {
      r := AllocRegion(rec);
      stop, n := FillRegion(rec, r, old(m.mem));
      CompleteIff(root, rec, n, stop);
    }

    /**
     gr_mem_contents_init on a fresh context, for any dump: the regions take their
     pages from the supply in order; the run stops in the first region whose loop
     leaves the recorded tables or the dump; if there is none, every region is
     loaded and entered as its loop says (see DumpLoop.OwnMapped for what that means
     for dumps in the recorder's format).
     */
    method MemContentsInit(recs: seq<RegionRecord>) returns (stop: InitStop, ghost n: nat)
      requires Sound() && regions == [] && totNrPages == 0
      requires TotalEnts(recs) <= |m.supply|
      modifies this, m
      ensures Sound() && PagesUpTo(recs, |regions|, old(m.supply), regions, m.supply)
      ensures if stop.Complete? then |regions| == |recs| else regions != []
      ensures regions != [] ==> AllEnd(root, recs, |regions| - 1) && EndsAt(root, recs[|regions| - 1], n, stop)
      ensures stop.Complete? ==> AllEntered(root, old(m.mem), m.mem, regions, recs)
      ensures totNrPages == U32(TotalEnts(recs[..|regions|]))
    {
      stop, n := Complete, 0;
      ghost var mem0, supply0 := m.mem, m.supply;
      for i := 0 to |recs|
        invariant stop.Complete? && Loading(recs, i, mem0, supply0)
        invariant i > 0 ==> n == Steps(recs[i - 1])
      {
        stop, n := InitNth(recs, i, mem0, supply0);
        if !stop.Complete? {
          return;
        }
      }
    }

    /** The first i regions of the dump are done. */
    ghost predicate Loading(recs: seq<RegionRecord>, i: nat, mem0: Mem, supply0: seq<Word>)
      reads this, m
    {
      && Sound() && AllDone(root, recs, i, mem0, supply0, regions, m.supply, m.mem)
      && totNrPages == U32(TotalEnts(recs[..i]))
    }

    /** Region number i of the dump. */
    method InitNth(recs: seq<RegionRecord>, i: nat, ghost mem0: Mem, ghost supply0: seq<Word>)
      returns (stop: InitStop, ghost n: nat)
      requires i < |recs| && TotalEnts(recs) <= |supply0| && FreshSupply(root, mem0, supply0)
      requires Loading(recs, i, mem0, supply0)
      modifies this, m
      ensures Sound() && PagesUpTo(recs, i + 1, supply0, regions, m.supply) && EndsAt(root, recs[i], n, stop)
      ensures totNrPages == U32(TotalEnts(recs[..i + 1]))
      ensures stop.Complete? ==> n == Steps(recs[i]) && Loading(recs, i + 1, mem0, supply0)
    {
      NextRecord(recs, i, supply0, regions, m.supply);
      U32Add(TotalEnts(recs[..i]), recs[i].nents);
      ghost var mem1, supply1, rs1 := m.mem, m.supply, regions;
      var r;
      r, stop, n := InitRegion(recs[i]);
      NextRegionDone(root, recs, i, mem0, supply0, rs1, supply1, mem1, r, m.supply, m.mem, stop, n);
    }
  }
}
