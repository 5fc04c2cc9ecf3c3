/**
 The loop of gr_mem_contents_init over one dumped region, for any dump. In a
 valid region the loop variable is overwritten with each page's recorded address,
 so the addresses the pages are entered at come from the dump; they are the
 region's own exactly when the recorded addresses are.
 */
module DumpLoop {
  import opened Collections
  import opened PteCodec
  import opened PhysMem
  import opened TableTree
  import opened PageWalk
  import opened LeafEntries
  import opened Regions

  /** The address the loop enters page k at. */
  function LoopVa(rec: RegionRecord, k: nat): nat {
    if k == 0 then rec.gmStart
    else NextVa(if rec.isValid && k <= |rec.records| then rec.records[k - 1].vaddr else LoopVa(rec, k - 1))
  }

  /** vaddr += PAGE_SIZE, in 64 bits. */
  function NextVa(va: nat): nat {
    (va + PAGE_SIZE) % 0x1_0000_0000_0000_0000
  }

  /**
   The addresses visited in a region without records are one page apart; a recorded address
   is what the next one follows on.
   */
  lemma {:induction false} LoopAddresses(rec: RegionRecord, k: nat)
    requires rec.gmStart < 0x1_0000_0000_0000_0000
    ensures !rec.isValid ==> LoopVa(rec, k) == (rec.gmStart + 4096 * k) % 0x1_0000_0000_0000_0000
    ensures rec.isValid && k < |rec.records| ==>
      LoopVa(rec, k + 1) == (rec.records[k].vaddr + 4096) % 0x1_0000_0000_0000_0000
  {
    if !rec.isValid && k > 0 {
      LoopAddresses(rec, k - 1);
      NextWraps(rec.gmStart + 4096 * (k - 1));
    }
  }

  lemma NextWraps(va: nat)
    ensures NextVa(va % 0x1_0000_0000_0000_0000) == (va + 4096) % 0x1_0000_0000_0000_0000
  {
    var m := 0x1_0000_0000_0000_0000;
    assert va == va / m * m + va % m;
    assert (va + 4096) % m == (va % m + 4096) % m;
  }

  predicate GoesOn(rec: RegionRecord, k: nat) {
    LoopVa(rec, k) < rec.gmEnd && k < rec.nents
  }

  /** The dump holds what the loop reads for page k. */
  predicate Given(rec: RegionRecord, k: nat) {
    rec.isValid ==> k < |rec.records| && |rec.records[k].contents| == PAGE_SIZE
  }

  function StepsFrom(rec: RegionRecord, k: nat): (n: nat)
    requires k <= rec.nents
    ensures n >= k && !GoesOn(rec, n) && forall j :: k <= j < n ==> GoesOn(rec, j)
    decreases rec.nents - k
  {
    if GoesOn(rec, k) then StepsFrom(rec, k + 1) else k
  }

  /** How many pages the loop enters when nothing stops it. */
  function Steps(rec: RegionRecord): (n: nat)
    ensures !GoesOn(rec, n) && forall j :: 0 <= j < n ==> GoesOn(rec, j)
  {
    StepsFrom(rec, 0)
  }

  /**
   How the loop ends: as it should; at an address the recorded tables do not reach,
   where the code reads an uninitialised slot; or where the dump has no more pages,
   where the code goes on with stale data. The model stops there.
   */
  datatype InitStop = Complete | NoTable | DumpEnds

  /** The loop gets through the first n pages. */
  ghost predicate GetsTo(root: Shadow, rec: RegionRecord, n: nat) {
    forall k :: 0 <= k < n ==> GoesOn(rec, k) && Covered(root, LoopVa(rec, k)) && Given(rec, k)
  }

  /** The loop ends after n pages. */
  ghost predicate EndsAt(root: Shadow, rec: RegionRecord, n: nat, stop: InitStop) {
    && GetsTo(root, rec, n)
    && match stop
       case Complete => !GoesOn(rec, n)
       case NoTable => GoesOn(rec, n) && !Covered(root, LoopVa(rec, n))
       case DumpEnds => GoesOn(rec, n) && Covered(root, LoopVa(rec, n)) && !Given(rec, n)
  }

  /** The loop runs to its end exactly when every address it visits has a table and every page is in the dump. */
  lemma CompleteIff(root: Shadow, rec: RegionRecord, n: nat, stop: InitStop)
    requires EndsAt(root, rec, n, stop)
    ensures stop.Complete? <==> GetsTo(root, rec, Steps(rec))
    ensures stop.Complete? <==> n == Steps(rec)
  {
    assert n < Steps(rec) ==> GoesOn(rec, n);
    assert Steps(rec) < n ==> GoesOn(rec, Steps(rec));
  }

  /** va's leaf word after n pages, if it was w before: the last page entered there wins. */
  function SlotAfter(r: Region, rec: RegionRecord, n: nat, va: nat, w: Word): Word {
    if n == 0 then w
    else if Wrapped(LoopVa(rec, n - 1)) / PAGE_SIZE == va / PAGE_SIZE then Pte(r, n - 1)
    else SlotAfter(r, rec, n - 1, va, w)
  }

  /** Page k is the last of the first n to be entered at va, or k is -1 and none is. */
  predicate LastAt(rec: RegionRecord, n: nat, va: nat, k: int) {
    && -1 <= k < n && (k >= 0 ==> LoopVa(rec, k) % 0x1_0000_0000_0000 / 4096 == va / 4096)
    && forall j :: k < j < n ==> LoopVa(rec, j) % 0x1_0000_0000_0000 / 4096 != va / 4096
  }

  lemma {:induction false} LastEntered(r: Region, rec: RegionRecord, n: nat, va: nat, w: Word, k: int)
    requires LastAt(rec, n, va, k)
    ensures SlotAfter(r, rec, n, va, w) == if k >= 0 then Pte(r, k) else w
  {
    if k < n - 1 {
      LastEntered(r, rec, n - 1, va, w, k);
    }
  }

  /** From mem0 to mem region r has got its pages, and the first n have been loaded and entered. */
  ghost predicate Entered(root: Shadow, mem0: Mem, mem: Mem, r: Region, rec: RegionRecord, n: nat) {
    && TablesOk(root, mem) && Loaded(mem, r, rec, n)
    && (forall f :: f in mem0 && f.base !in Pages(root) ==> f in mem && mem[f] == mem0[f])
    && SlotsAfter(root, mem0, mem, r, rec, n)
  }

  ghost predicate SlotsAfter(root: Shadow, mem0: Mem, mem: Mem, r: Region, rec: RegionRecord, n: nat) {
    forall va: nat :: va < VA_LIMIT ==> SlotWord(root, mem, va) == SlotAfter(r, rec, n, va, SlotWord(root, mem0, va))
  }

  lemma NothingEntered(root: Shadow, mem0: Mem, mem: Mem, r: Region, rec: RegionRecord)
    requires TablesOk(root, mem0) && Extends(mem0, mem)
    requires forall p :: p in r.pages ==> Frame(p) in mem && mem[Frame(p)] == ZeroPage()
    ensures Entered(root, mem0, mem, r, rec, 0)
  {
    TablesKept(root, mem0, mem);
  }

  /** Loading page n changes neither the tables nor any older page. */
  lemma PageLoaded(root: Shadow, mem0: Mem, mem: Mem, mem': Mem, r: Region, rec: RegionRecord, n: nat)
    requires Entered(root, mem0, mem, r, rec, n) && NewPages(root, mem0, r.pages) && n < |r.pages| && Given(rec, n)
    requires mem' == if rec.isValid then mem[Frame(r.pages[n]) := Data(rec.records[n].contents)] else mem
    ensures TablesOk(root, mem') && Loaded(mem', r, rec, n + 1) && SlotsAfter(root, mem0, mem', r, rec, n)
    ensures forall f :: f in mem0 && f.base !in Pages(root) ==> f in mem' && mem'[f] == mem0[f]
  {
    assert r.pages[n] in r.pages;
    TablesKept(root, mem, mem');
  }

  /** Entering page n. */
  lemma PageEntered(root: Shadow, mem0: Mem, mem: Mem, mem': Mem, r: Region, rec: RegionRecord, n: nat)
    requires NewPages(root, mem0, r.pages) && n < |r.pages|
    requires Loaded(mem, r, rec, n + 1) && SlotsAfter(root, mem0, mem, r, rec, n)
    requires forall f :: f in mem0 && f.base !in Pages(root) ==> f in mem && mem[f] == mem0[f]
    requires LeafWritten(root, mem, mem', Wrapped(LoopVa(rec, n)), Pte(r, n))
    ensures Entered(root, mem0, mem', r, rec, n + 1)
  {
    LoadedKept(root, mem, mem', r, rec, n + 1);
    forall va: nat | va < VA_LIMIT
      ensures SlotWord(root, mem', va) == SlotAfter(r, rec, n + 1, va, SlotWord(root, mem0, va))
    {
      if va / PAGE_SIZE == Wrapped(LoopVa(rec, n)) / PAGE_SIZE {
        SamePageWord(root, mem', va, Wrapped(LoopVa(rec, n)));
      }
    }
  }

  lemma SamePageWord(root: Shadow, mem: Mem, va: nat, va': nat)
    requires va / PAGE_SIZE == va' / PAGE_SIZE
    ensures Covered(root, va) == Covered(root, va') && SlotWord(root, mem, va) == SlotWord(root, mem, va')
  {
    SamePageSameWalk(root, va, va', 0, BOTTOM_LEVEL);
  }

  lemma LoadedKept(root: Shadow, mem: Mem, mem': Mem, r: Region, rec: RegionRecord, n: nat)
    requires Loaded(mem, r, rec, n) && forall p :: p in r.pages ==> p !in Pages(root)
    requires forall f :: f in mem && f.base !in Pages(root) ==> f in mem' && mem'[f] == mem[f]
    ensures Loaded(mem', r, rec, n)
  {
    forall k | 0 <= k < |r.pages|
      ensures Frame(r.pages[k]) in mem' && mem'[Frame(r.pages[k])] == mem[Frame(r.pages[k])]
    {
      assert r.pages[k] in r.pages;
    }
  }

  /** va's leaf word after all regions, if it was w before. */
  function SlotAfterAll(rs: seq<Region>, recs: seq<RegionRecord>, va: nat, w: Word): Word
    requires |rs| <= |recs|
  {
    if rs == [] then w
    else
      var n := |rs| - 1;
      SlotAfter(rs[n], recs[n], Steps(recs[n]), va, SlotAfterAll(rs[..n], recs, va, w))
  }

  ghost predicate AllSlots(root: Shadow, mem0: Mem, mem: Mem, rs: seq<Region>, recs: seq<RegionRecord>)
    requires |rs| <= |recs|
  {
    forall va: nat :: va < VA_LIMIT ==> SlotWord(root, mem, va) == SlotAfterAll(rs, recs, va, SlotWord(root, mem0, va))
  }

  /** From mem0 to mem the first |rs| dumped regions have been loaded and entered in full. */
  ghost predicate AllEntered(root: Shadow, mem0: Mem, mem: Mem, rs: seq<Region>, recs: seq<RegionRecord>) {
    && |rs| <= |recs| && TablesOk(root, mem)
    && (forall j :: 0 <= j < |rs| ==> Loaded(mem, rs[j], recs[j], Steps(recs[j])))
    && (forall f :: f in mem0 && f.base !in Pages(root) ==> f in mem && mem[f] == mem0[f])
    && AllSlots(root, mem0, mem, rs, recs)
  }

  lemma NextEntered(root: Shadow, mem0: Mem, mem: Mem, mem': Mem, rs: seq<Region>, r: Region, recs: seq<RegionRecord>)
    requires AllEntered(root, mem0, mem, rs, recs) && |rs| < |recs|
    requires Entered(root, mem, mem', r, recs[|rs|], Steps(recs[|rs|]))
    requires forall p :: p in AllPages(rs) ==> p !in Pages(root)
    ensures AllEntered(root, mem0, mem', rs + [r], recs)
  {
    NextSlots(root, mem0, mem, mem', rs, r, recs);
    forall j | 0 <= j < |rs|
      ensures Loaded(mem', rs[j], recs[j], Steps(recs[j]))
    {
      forall p | p in rs[j].pages
        ensures p !in Pages(root)
      {
        RegionPagesIn(rs, j, p);
      }
      LoadedKept(root, mem, mem', rs[j], recs[j], Steps(recs[j]));
    }
  }

  lemma NextSlots(root: Shadow, mem0: Mem, mem: Mem, mem': Mem, rs: seq<Region>, r: Region, recs: seq<RegionRecord>)
    requires |rs| < |recs| && AllSlots(root, mem0, mem, rs, recs)
    requires SlotsAfter(root, mem, mem', r, recs[|rs|], Steps(recs[|rs|]))
    ensures AllSlots(root, mem0, mem', rs + [r], recs)
  {
    var rs' := rs + [r];
    assert rs'[..|rs|] == rs;
    forall va: nat | va < VA_LIMIT
      ensures SlotWord(root, mem', va) == SlotAfterAll(rs', recs, va, SlotWord(root, mem0, va))
    {
      assert SlotWord(root, mem, va) == SlotAfterAll(rs, recs, va, SlotWord(root, mem0, va));
    }
  }

  /** The loop is at the region's own address for each of pages 0 to n. */
  predicate AtOwn(rec: RegionRecord, n: nat) {
    forall k :: 0 <= k <= n ==> LoopVa(rec, k) == rec.gmStart + PAGE_SIZE * k
  }

  /** The first n pages of a valid region were recorded at their own addresses. */
  predicate RecordedOwn(rec: RegionRecord, n: nat)
    requires rec.isValid ==> n <= |rec.records|
  {
    rec.isValid ==> forall k :: 0 <= k < n ==> rec.records[k].vaddr == rec.gmStart + PAGE_SIZE * k
  }

  /** Each page is entered at its own address exactly when every page before it was recorded at its own. */
  lemma {:induction false} OwnAddressIff(rec: RegionRecord, n: nat)
    requires rec.gmStart + PAGE_SIZE * n < 0x1_0000_0000_0000_0000 && (rec.isValid ==> n <= |rec.records|)
    requires forall k :: 0 <= k < |rec.records| ==> rec.records[k].vaddr < 0x1_0000_0000_0000_0000
    ensures AtOwn(rec, n) <==> RecordedOwn(rec, n)
  {
    if n > 0 {
      OwnAddressIff(rec, n - 1);
      if AtOwn(rec, n - 1) {
        NextOwn(rec, n);
      }
      assert AtOwn(rec, n) <==> AtOwn(rec, n - 1) && LoopVa(rec, n) == rec.gmStart + PAGE_SIZE * n;
      var own := rec.isValid ==> rec.records[n - 1].vaddr == rec.gmStart + PAGE_SIZE * (n - 1);
      assert RecordedOwn(rec, n) <==> RecordedOwn(rec, n - 1) && own;
    }
  }

  lemma NextOwn(rec: RegionRecord, n: nat)
    requires n > 0 && rec.gmStart + PAGE_SIZE * n < 0x1_0000_0000_0000_0000 && (rec.isValid ==> n <= |rec.records|)
    requires rec.isValid ==> rec.records[n - 1].vaddr < 0x1_0000_0000_0000_0000
    requires LoopVa(rec, n - 1) == rec.gmStart + PAGE_SIZE * (n - 1)
    ensures LoopVa(rec, n) == rec.gmStart + PAGE_SIZE * n <==>
      (rec.isValid ==> rec.records[n - 1].vaddr == rec.gmStart + PAGE_SIZE * (n - 1))
  {
  }

  /** A region dumped in the recorder's format is entered page by page at its own addresses. */
  lemma {:induction false} OwnAddresses(rec: RegionRecord, n: nat)
    requires RecordShape(rec) && n <= BackedPages(rec.gmStart, rec.gmEnd, rec.nents)
    ensures LoopVa(rec, n) == rec.gmStart + PAGE_SIZE * n
  {
    if n > 0 {
      OwnAddresses(rec, n - 1);
      if rec.isValid {
        assert RecordedAt(rec.records[n - 1], rec.gmStart + PAGE_SIZE * (n - 1));
      }
    }
  }

  lemma OwnSteps(rec: RegionRecord)
    requires RecordShape(rec)
    ensures Steps(rec) == BackedPages(rec.gmStart, rec.gmEnd, rec.nents)
  {
    var n := BackedPages(rec.gmStart, rec.gmEnd, rec.nents);
    if Steps(rec) < n {
      OwnAddresses(rec, Steps(rec));
    }
    OwnAddresses(rec, n);
    assert !GoesOn(rec, n);
  }

  /** Such a region, covered by the tables, is entered in full. */
  lemma OwnComplete(root: Shadow, rec: RegionRecord, n: nat, stop: InitStop)
    requires RecordOk(root, rec) && EndsAt(root, rec, n, stop)
    ensures stop.Complete? && n == BackedPages(rec.gmStart, rec.gmEnd, rec.nents)
  {
    OwnSteps(rec);
    CompleteIff(root, rec, n, stop);
    forall k | 0 <= k < Steps(rec)
      ensures GoesOn(rec, k) && Covered(root, LoopVa(rec, k)) && Given(rec, k)
    {
      OwnAddresses(rec, k);
      if rec.isValid {
        assert RecordedAt(rec.records[k], rec.gmStart + PAGE_SIZE * k);
      }
    }
  }

  lemma {:induction false} OwnSlot(r: Region, rec: RegionRecord, n: nat, va: nat, w: Word)
    requires RecordShape(rec) && BuiltFrom(r, rec) && n <= Backed(r)
    ensures forall k: nat :: k < n && PageVa(r, k) / PAGE_SIZE == va / PAGE_SIZE ==>
      SlotAfter(r, rec, n, va, w) == Pte(r, k)
    ensures !InPages(r, n, va) ==> SlotAfter(r, rec, n, va, w) == w
  {
    if n > 0 {
      OwnSlot(r, rec, n - 1, va, w);
      OwnAddresses(rec, n - 1);
      BackedBound(r, n - 1);
      forall k: nat | k < n && PageVa(r, k) / PAGE_SIZE == va / PAGE_SIZE
        ensures SlotAfter(r, rec, n, va, w) == Pte(r, k)
      {
        assert PageVa(r, k) / PAGE_SIZE == r.gmStart / PAGE_SIZE + k;
        assert PageVa(r, n - 1) / PAGE_SIZE == r.gmStart / PAGE_SIZE + (n - 1);
      }
    }
  }

  /** Disjoint regions in the recorder's format: each backed page's slot holds its page. */
  lemma {:induction false} OwnSlots(root: Shadow, rs: seq<Region>, recs: seq<RegionRecord>, i: nat, k: nat, w: Word)
    requires RegionsOk(root, rs) && |rs| <= |recs| && RecordsOk(root, recs)
    requires forall i :: 0 <= i < |rs| ==> BuiltFrom(rs[i], recs[i])
    requires i < |rs| && k < Backed(rs[i])
    ensures SlotAfterAll(rs, recs, PageVa(rs[i], k), w) == Pte(rs[i], k)
    decreases |rs|
  {
    var n, va := |rs| - 1, PageVa(rs[i], k);
    if i < n {
      PrefixBuilt(root, rs, recs, n);
      OwnSlots(root, rs[..n], recs, i, k, w);
      NotInLast(root, rs, i, k, va);
    }
    assert RecordOk(root, recs[n]);
    LastSlots(rs, recs, va, w);
  }

  lemma PrefixBuilt(root: Shadow, rs: seq<Region>, recs: seq<RegionRecord>, n: nat)
    requires RegionsOk(root, rs) && n <= |rs| <= |recs| && forall i :: 0 <= i < |rs| ==> BuiltFrom(rs[i], recs[i])
    ensures RegionsOk(root, rs[..n]) && forall i :: 0 <= i < n ==> rs[..n][i] == rs[i] && BuiltFrom(rs[..n][i], recs[i])
  {
  }

  /** What the last region's loop does to a slot. */
  lemma LastSlots(rs: seq<Region>, recs: seq<RegionRecord>, va: nat, w: Word)
    requires 0 < |rs| <= |recs| && RecordShape(recs[|rs| - 1]) && BuiltFrom(rs[|rs| - 1], recs[|rs| - 1])
    ensures var r := rs[|rs| - 1];
            && (forall k: nat :: k < Backed(r) && PageVa(r, k) / PAGE_SIZE == va / PAGE_SIZE ==>
              SlotAfterAll(rs, recs, va, w) == Pte(r, k))
            && (!InPages(r, Backed(r), va) ==>
              SlotAfterAll(rs, recs, va, w) == SlotAfterAll(rs[..|rs| - 1], recs, va, w))
  {
    var n := |rs| - 1;
    OwnSteps(recs[n]);
    OwnSlot(rs[n], recs[n], Backed(rs[n]), va, SlotAfterAll(rs[..n], recs, va, w));
  }

  /** All other slots keep their words. */
  lemma {:induction false} OtherSlots(root: Shadow, rs: seq<Region>, recs: seq<RegionRecord>, va: nat, w: Word)
    requires |rs| <= |recs| && RecordsOk(root, recs) && !BackedVa(rs, va)
    requires forall i :: 0 <= i < |rs| ==> BuiltFrom(rs[i], recs[i])
    ensures SlotAfterAll(rs, recs, va, w) == w
    decreases |rs|
  {
    if rs != [] {
      var n := |rs| - 1;
      forall i | 0 <= i < n
        ensures !InPages(rs[..n][i], Backed(rs[..n][i]), va)
      {
        assert rs[..n][i] == rs[i];
      }
      OtherSlots(root, rs[..n], recs, va, w);
      OwnSteps(recs[n]);
      OwnSlot(rs[n], recs[n], Backed(rs[n]), va, w);
    }
  }

  lemma NotInLast(root: Shadow, rs: seq<Region>, i: nat, k: nat, va: nat)
    requires RegionsOk(root, rs) && i < |rs| - 1 && k < Backed(rs[i]) && PageVa(rs[i], k) / PAGE_SIZE == va / PAGE_SIZE
    ensures !InPages(rs[|rs| - 1], Backed(rs[|rs| - 1]), va)
  {
    var last := rs[|rs| - 1];
    forall k': nat | k' < Backed(last)
      ensures PageVa(last, k') / PAGE_SIZE != va / PAGE_SIZE
    {
      PagesApart(root, rs[i], k, last, k');
    }
  }

  /** So the initialised tables map every backed page and keep every other leaf slot. */
  lemma OwnMapped(root: Shadow, mem0: Mem, mem: Mem, rs: seq<Region>, recs: seq<RegionRecord>)
    requires AllEntered(root, mem0, mem, rs, recs) && RegionsOk(root, rs) && RecordsOk(root, recs)
    requires forall i :: 0 <= i < |rs| ==> BuiltFrom(rs[i], recs[i])
    ensures AllMapped(root, mem, rs) && OnlyBackedWritten(root, mem0, mem, rs)
    ensures forall i :: 0 <= i < |rs| ==> Loaded(mem, rs[i], recs[i], Backed(rs[i]))
  {
    forall i | 0 <= i < |rs|
      ensures Mapped(root, mem, rs[i], Backed(rs[i])) && Loaded(mem, rs[i], recs[i], Backed(rs[i]))
    {
      OwnSteps(recs[i]);
      forall k: nat | k < Backed(rs[i])
        ensures SlotWord(root, mem, PageVa(rs[i], k)) == Pte(rs[i], k)
      {
        BackedBound(rs[i], k);
        assert RegionOk(root, rs[i]);
        OwnSlots(root, rs, recs, i, k, SlotWord(root, mem0, PageVa(rs[i], k)));
      }
    }
    forall va: nat | va < VA_LIMIT && !BackedVa(rs, va)
      ensures SlotWord(root, mem, va) == SlotWord(root, mem0, va)
    {
      OtherSlots(root, rs, recs, va, SlotWord(root, mem0, va));
    }
  }

  /** The regions built from a dump in the recorder's format are in order. */
  lemma OwnRegionsOk(root: Shadow, rs: seq<Region>, recs: seq<RegionRecord>)
    requires |rs| <= |recs| && RecordsOk(root, recs) && forall i :: 0 <= i < |rs| ==> BuiltFrom(rs[i], recs[i])
    ensures RegionsOk(root, rs)
  {
    forall i | 0 <= i < |rs|
      ensures RegionOk(root, rs[i])
    {
      assert RecordOk(root, recs[i]);
    }
  }
}
