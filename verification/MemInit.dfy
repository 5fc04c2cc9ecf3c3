/**
 gr_mem_init as a whole: from a table dump and a memory dump to an address
 space in which every backed page translates to the page that backs it.
 */
module MemInit {
  import opened Collections
  import opened PteCodec
  import opened PhysMem
  import opened TableTree
  import opened TableDump
  import opened ConstructPgt
  import opened PageWalk
  import opened LeafEntries
  import opened Regions
  import opened DumpLoop
  import opened AddressSpace

  /** Every region's pages survive the entry masks. */
  ghost predicate PagesGood(rs: seq<Region>) {
    forall p :: p in AllPages(rs) ==> GoodPage(p)
  }

  /** Every byte address of every backed page translates to the same byte of the page that backs it. */
  ghost predicate TranslatesAll(mem: Mem, pgd: Word, rs: seq<Region>) {
    forall i, k: nat, o: nat :: 0 <= i < |rs| && k < Backed(rs[i]) && o < PAGE_SIZE ==>
        TranslatesTo(mem, pgd, rs[i], k, o)
  }

  /** Byte o of page k of region r translates to byte o of the k-th backing page. */
  ghost predicate TranslatesTo(mem: Mem, pgd: Word, r: Region, k: nat, o: nat)
    requires k < |r.pages| && o < PAGE_SIZE
  {
    Translate(mem, pgd, PageVa(r, k) + o) == Some(Paddr(r.pages[k], o))
  }

  /** A page's translation is the page itself exactly when the entry decodes to it. */
  lemma TranslatePage(root: Shadow, mem: Mem, rs: seq<Region>, i: nat, k: nat, o: nat)
    requires TablesOk(root, mem) && RegionsOk(root, rs) && AllMapped(root, mem, rs)
    requires i < |rs| && k < Backed(rs[i]) && o < PAGE_SIZE
    ensures PageAddr(rs[i].pages[k]) ==>
      Translate(mem, root.phys, PageVa(rs[i], k) + o) == Some(Paddr(rs[i].pages[k], o))
    ensures Translate(mem, root.phys, PageVa(rs[i], k)) == Some(rs[i].pages[k]) <==> PageAddr(rs[i].pages[k])
  {
    assert RegionOk(root, rs[i]) && Mapped(root, mem, rs[i], Backed(rs[i]));
    PageTranslates(root, mem, rs[i], k, o);
  }

  lemma PageTranslates(root: Shadow, mem: Mem, r: Region, k: nat, o: nat)
    requires TablesOk(root, mem) && r.gmStart % PAGE_SIZE == 0 && k < |r.pages| && o < PAGE_SIZE
    requires Covered(root, PageVa(r, k)) && SlotWord(root, mem, PageVa(r, k)) == Pte(r, k)
    ensures PageAddr(r.pages[k]) ==> Translate(mem, root.phys, PageVa(r, k) + o) == Some(Paddr(r.pages[k], o))
    ensures Translate(mem, root.phys, PageVa(r, k)) == Some(r.pages[k]) <==> PageAddr(r.pages[k])
  {
    SlotTranslates(root, mem, r, k, o);
    SlotTranslates(root, mem, r, k, 0);
    PteDecodes(r, k);
  }

  lemma PteDecodes(r: Region, k: nat)
    requires k < |r.pages|
    ensures PageAddr(r.pages[k]) ==> PteToPhysAddr(Pte(r, k)) == r.pages[k]
    ensures Paddr(PteToPhysAddr(Pte(r, k)), 0) == r.pages[k] <==> PageAddr(r.pages[k])
  {
    PaddrZero(PteToPhysAddr(Pte(r, k)));
    AteRoundTrip(r.pages[k], r.flags, BOTTOM_LEVEL);
  }

  lemma SlotTranslates(root: Shadow, mem: Mem, r: Region, k: nat, o: nat)
    requires TablesOk(root, mem) && r.gmStart % PAGE_SIZE == 0 && o < PAGE_SIZE
    requires Covered(root, PageVa(r, k)) && SlotWord(root, mem, PageVa(r, k)) == Pte(r, k)
    ensures Translate(mem, root.phys, PageVa(r, k) + o) == Some(Paddr(PteToPhysAddr(Pte(r, k)), o))
  {
    OffsetInPage(r.gmStart, k, o);
    TranslateInSlot(root, mem, PageVa(r, k), o);
  }

  lemma OffsetInPage(start: nat, k: nat, o: nat)
    requires start % PAGE_SIZE == 0 && o < PAGE_SIZE
    ensures (start + PAGE_SIZE * k) % PAGE_SIZE == 0
  {
  }

  lemma TranslateInSlot(root: Shadow, mem: Mem, va: nat, o: nat)
    requires TablesOk(root, mem) && Covered(root, va) && va % PAGE_SIZE == 0 && o < PAGE_SIZE
    ensures Translate(mem, root.phys, va + o) == Some(Paddr(PteToPhysAddr(SlotWord(root, mem, va)), o))
  {
    assert (va + o) / PAGE_SIZE == va / PAGE_SIZE && (va + o) % PAGE_SIZE == o;
    SamePageWord(root, mem, va, va + o);
    TranslateSlot(root, mem, va + o);
  }

  lemma PaddrZero(p: Word)
    ensures Paddr(p, 0) == p
  {
  }

  /** The hardware's walk for va ends at a leaf word that is, bit by bit, that of page for a region with these flags. */
  ghost predicate LeafWord(mem: Mem, pgd: Word, va: nat, page: Word, flags: Word) {
    var table := HwWalk(mem, pgd, va, 0, 3);
    && table.Some? && IsTable(mem, table.value)
    && LeafBits(mem[Frame(table.value)].words[va / 4096 % 512], page, flags)
  }

  /** The leaf words of all backed pages of r. */
  ghost predicate LeafWords(mem: Mem, pgd: Word, r: Region, flags: Word) {
    forall k: nat :: k < Backed(r) ==> LeafWord(mem, pgd, PageVa(r, k), r.pages[k], flags)
  }

  lemma MappedLeafWords(root: Shadow, mem: Mem, rs: seq<Region>, i: nat)
    requires TablesOk(root, mem) && RegionsOk(root, rs) && AllMapped(root, mem, rs) && PagesGood(rs) && i < |rs|
    ensures LeafWords(mem, root.phys, rs[i], rs[i].flags)
  {
    assert RegionOk(root, rs[i]) && Mapped(root, mem, rs[i], Backed(rs[i]));
    forall k: nat | k < Backed(rs[i])
      ensures LeafWord(mem, root.phys, PageVa(rs[i], k), rs[i].pages[k], rs[i].flags)
    {
      assert rs[i].pages[k] in rs[i].pages;
      RegionPagesIn(rs, i, rs[i].pages[k]);
      PteBits(rs[i], k);
      LeafIsTable(root, mem, PageVa(rs[i], k));
    }
  }

  lemma AllLeafWords(root: Shadow, mem: Mem, rs: seq<Region>)
    requires TablesOk(root, mem) && RegionsOk(root, rs) && AllMapped(root, mem, rs) && PagesGood(rs)
    ensures forall i :: 0 <= i < |rs| ==> LeafWords(mem, root.phys, rs[i], rs[i].flags)
  {
    forall i | 0 <= i < |rs|
      ensures LeafWords(mem, root.phys, rs[i], rs[i].flags)
    {
      MappedLeafWords(root, mem, rs, i);
    }
  }

  lemma MappedTranslates(root: Shadow, mem: Mem, rs: seq<Region>)
    requires TablesOk(root, mem) && RegionsOk(root, rs) && AllMapped(root, mem, rs) && PagesGood(rs)
    ensures TranslatesAll(mem, root.phys, rs)
  {
    forall i, k: nat, o: nat | 0 <= i < |rs| && k < Backed(rs[i]) && o < PAGE_SIZE
      ensures TranslatesTo(mem, root.phys, rs[i], k, o)
    {
      assert rs[i].pages[k] in rs[i].pages;
      RegionPagesIn(rs, i, rs[i].pages[k]);
      TranslatePage(root, mem, rs, i, k, o);
    }
  }

  /** The recorded regions are disjoint, well shaped, and lie under valid entries of the recorded table. */
  ghost predicate DumpsAgree(t: Tree, recs: seq<RegionRecord>) {
    && (forall i :: 0 <= i < |recs| ==> RecordShape(recs[i]) && RecordCovered(t, recs[i]))
    && (forall i, j :: 0 <= i < j < |recs| ==> recs[i].gmEnd <= recs[j].gmStart || recs[j].gmEnd <= recs[i].gmStart)
  }

  ghost predicate RecordCovered(t: Tree, rec: RegionRecord) {
    forall k: nat :: k < BackedPages(rec.gmStart, rec.gmEnd, rec.nents) ==>
        ValidPath(t, rec.gmStart + PAGE_SIZE * k, 0, BOTTOM_LEVEL)
  }

  lemma DumpsReady(t: Tree, root: Shadow, mem: Mem, recs: seq<RegionRecord>)
    requires WfTree(t, 0) && Iso(t, root, mem) && DumpsAgree(t, recs)
    ensures RecordsOk(root, recs)
  {
    forall i | 0 <= i < |recs|
      ensures RecordOk(root, recs[i])
    {
      forall k: nat | k < BackedPages(recs[i].gmStart, recs[i].gmEnd, recs[i].nents)
        ensures Covered(root, recs[i].gmStart + PAGE_SIZE * k)
      {
        assert RecordCovered(t, recs[i]);
        WalkFollowsValidEntries(t, root, mem, recs[i].gmStart + PAGE_SIZE * k, 0, BOTTOM_LEVEL);
      }
    }
  }

  lemma ConstructedTablesOk(t: Tree, root: Shadow, mem: Mem, supply: seq<Word>)
    requires t.Node? && WfTree(t, 0) && Iso(t, root, mem) && Count(t) <= |supply| && Pages(root) == supply[..Count(t)]
    requires NoDup(supply) && forall p :: p in supply ==> GoodPage(p)
    ensures TablesOk(root, mem)
  {
    IsoLinked(t, root, 0, mem);
  }

  /** The recorded table reached from t on the way to va. */
  ghost function TreeWalk(t: Tree, va: nat, l: nat, level: nat): Tree
    requires l <= level <= BOTTOM_LEVEL
    decreases level - l
  {
    if l == level || t.Absent? || |t.kids| != PAGE_ENTRIES then t
    else TreeWalk(t.kids[Index(va, l)], va, l + 1, level)
  }

  /** The word the recording has in va's leaf slot. */
  ghost function RecordedWord(t: Tree, va: nat): Word {
    var leaf := TreeWalk(t, va, 0, BOTTOM_LEVEL);
    if leaf.Node? && |leaf.entries| == PAGE_ENTRIES then leaf.entries[Index(va, BOTTOM_LEVEL)] else 0
  }

  /** A rebuilt leaf table holds the recorded words. */
  lemma {:induction false} LeafVerbatim(t: Tree, s: Shadow, mem: Mem, va: nat, l: nat)
    requires l <= BOTTOM_LEVEL && WfTree(t, l) && Iso(t, s, mem) && ShadowWalk(s, va, l, BOTTOM_LEVEL).Shadow?
    ensures var leaf, table := TreeWalk(t, va, l, BOTTOM_LEVEL), ShadowWalk(s, va, l, BOTTOM_LEVEL).phys;
            && leaf.Node? && |leaf.entries| == PAGE_ENTRIES && IsTable(mem, table)
            && mem[Frame(table)].words[Index(va, BOTTOM_LEVEL)] == leaf.entries[Index(va, BOTTOM_LEVEL)]
    decreases BOTTOM_LEVEL - l
  {
    var i := Index(va, l);
    assert SlotIso(t, s, mem, i);
    WfKidAt(t.kids, t.entries, l, i);
    if l < BOTTOM_LEVEL {
      LeafVerbatim(t.kids[i], s.pgd[i], mem, va, l + 1);
    }
  }

  lemma SlotsVerbatim(t: Tree, root: Shadow, mem: Mem, va: nat)
    requires WfTree(t, 0) && Iso(t, root, mem)
    ensures Covered(root, va) ==> SlotWord(root, mem, va) == RecordedWord(t, va)
  {
    if Covered(root, va) {
      LeafVerbatim(t, root, mem, va, 0);
    }
  }

  /** Leaf slots outside every backed page hold the recorded words. */
  ghost predicate OthersVerbatim(t: Tree, root: Shadow, mem: Mem, rs: seq<Region>) {
    forall va: nat :: va < VA_LIMIT && Covered(root, va) && !BackedVa(rs, va) ==>
      SlotWord(root, mem, va) == RecordedWord(t, va)
  }

  /** The regions are built from their records, hold the recorded contents, and are entered in the tables. */
  ghost predicate Initialised(t: Tree, root: Shadow, mem: Mem, rs: seq<Region>, recs: seq<RegionRecord>) {
    && TablesOk(root, mem) && RegionsOk(root, rs) && PagesGood(rs) && AllMapped(root, mem, rs)
    && |rs| == |recs|
    && (forall i :: 0 <= i < |recs| ==> BuiltFrom(rs[i], recs[i]) && Loaded(mem, rs[i], recs[i], Backed(rs[i])))
    && OthersVerbatim(t, root, mem, rs)
  }

  lemma TakeTwice(s: seq<Word>, p: seq<Word>, q: seq<Word>, a: nat, b: nat)
    requires a + b <= |s| && NoDup(s) && p == s[..a] && q == s[a..][..b]
    ensures p + q == s[..a + b] && NoDup(p + q)
  {
  }

  /**
   What gr_mem_contents_init makes of any dump: every region's pages are loaded,
   and the leaf slot of every address holds the last page its region's loop entered
   there, or else the recorded word.
   */
  ghost predicate LoadedAs(t: Tree, root: Shadow, mem: Mem, rs: seq<Region>, recs: seq<RegionRecord>) {
    && TablesOk(root, mem) && |rs| == |recs|
    && (forall i :: 0 <= i < |recs| ==> BuiltFrom(rs[i], recs[i]) && Loaded(mem, rs[i], recs[i], Steps(recs[i])))
    && forall va: nat :: va < VA_LIMIT && Covered(root, va) ==>
      SlotWord(root, mem, va) == SlotAfterAll(rs, recs, va, RecordedWord(t, va))
  }

  /** Where the run over the dump has ended: in the last region of rs, after n of its pages. */
  ghost predicate RunEnds(root: Shadow, rs: seq<Region>, recs: seq<RegionRecord>, stop: InitStop, n: nat) {
    && |rs| <= |recs| && (if stop.Complete? then |rs| == |recs| else rs != [])
    && (rs != [] ==> AllEnd(root, recs, |rs| - 1) && EndsAt(root, recs[|rs| - 1], n, stop))
  }

  /** A dump in the recorder's format never stops the run. */
  lemma AgreeComplete(root: Shadow, rs: seq<Region>, recs: seq<RegionRecord>, stop: InitStop, n: nat)
    requires RunEnds(root, rs, recs, stop, n) && RecordsOk(root, recs)
    ensures stop.Complete?
  {
    if rs != [] {
      OwnComplete(root, recs[|rs| - 1], n, stop);
    }
  }

  lemma EnteredLoaded(t: Tree, root: Shadow, mem0: Mem, mem: Mem, rs: seq<Region>, recs: seq<RegionRecord>)
    requires WfTree(t, 0) && Iso(t, root, mem0) && AllEntered(root, mem0, mem, rs, recs) && |rs| == |recs|
    requires forall i :: 0 <= i < |rs| ==> BuiltFrom(rs[i], recs[i])
    ensures LoadedAs(t, root, mem, rs, recs)
  {
    forall va: nat
      ensures Covered(root, va) ==> SlotWord(root, mem0, va) == RecordedWord(t, va)
    {
      SlotsVerbatim(t, root, mem0, va);
    }
  }

  /** For dumps in the recorder's format this is what initialisation is for. */
  lemma EnteredInitialised(t: Tree, root: Shadow, mem0: Mem, mem: Mem, rs: seq<Region>, recs: seq<RegionRecord>)
    requires WfTree(t, 0) && Iso(t, root, mem0) && AllEntered(root, mem0, mem, rs, recs) && |rs| == |recs|
    requires forall i :: 0 <= i < |rs| ==> BuiltFrom(rs[i], recs[i])
    requires RecordsOk(root, recs) && PagesGood(rs)
    ensures Initialised(t, root, mem, rs, recs)
  {
    OwnRegionsOk(root, rs, recs);
    OwnMapped(root, mem0, mem, rs, recs);
    forall va: nat
      ensures Covered(root, va) ==> SlotWord(root, mem0, va) == RecordedWord(t, va)
    {
      SlotsVerbatim(t, root, mem0, va);
    }
  }

  /** gr_mem_contents_init on a rebuilt table. */
  method LoadContents(m: Machine, root: Shadow, ghost t: Tree, recs: seq<RegionRecord>)
    returns (ctx: ReplayContext, stop: InitStop, ghost n: nat)
    requires m.Valid() && root.Shadow? && TablesOk(root, m.mem) && WfTree(t, 0) && Iso(t, root, m.mem)
    requires TotalEnts(recs) <= |m.supply|
    modifies m
    ensures ctx.m == m && ctx.root == root && ctx.Sound()
    ensures RunEnds(root, ctx.regions, recs, stop, n)
    ensures stop.Complete? ==> LoadedAs(t, root, m.mem, ctx.regions, recs)
    ensures var ents := TotalEnts(recs[..|ctx.regions|]);
            && ctx.totNrPages == U32(ents) && ents <= |old(m.supply)| && AllPages(ctx.regions) == old(m.supply)[..ents]
    ensures DumpsAgree(t, recs) ==> stop.Complete? && ctx.Valid() && Initialised(t, root, m.mem, ctx.regions, recs)
  {
    ghost var mem0, supply0 := m.mem, m.supply;
    ctx := new ReplayContext(m, root);
    stop, n := ctx.MemContentsInit(recs);
    if stop.Complete? {
      EnteredLoaded(t, root, mem0, m.mem, ctx.regions, recs);
    }
    if DumpsAgree(t, recs) {
      DumpsReady(t, root, mem0, recs);
      AgreeComplete(root, ctx.regions, recs, stop, n);
      EnteredInitialised(t, root, mem0, m.mem, ctx.regions, recs);
    }
  }

  /** So every translation is right, and every leaf word is, bit by bit, the one of its page and its record's flags. */
  lemma InitialisedMeans(t: Tree, root: Shadow, mem: Mem, rs: seq<Region>, recs: seq<RegionRecord>)
    requires Initialised(t, root, mem, rs, recs) && root.Shadow?
    ensures TranslatesAll(mem, root.phys, rs)
    ensures |rs| == |recs| && forall i :: 0 <= i < |recs| ==> LeafWords(mem, root.phys, rs[i], recs[i].flags)
  {
    MappedTranslates(root, mem, rs);
    AllLeafWords(root, mem, rs);
  }

  /** gr_pgt_init on the dump of t. */
  method Rebuild(m: Machine, dump: seq<Word>, ghost t: Tree) returns (root: Shadow)
    requires t.Node? && WfTree(t, 0) && DumpAt(dump, 0, t) && m.Valid() && Count(t) <= |m.supply|
    modifies m
    ensures m.Valid() && root.Shadow? && TablesOk(root, m.mem) && Iso(t, root, m.mem)
    ensures Pages(root) == old(m.supply)[..Count(t)] && m.supply == old(m.supply)[Count(t)..]
  {
    ghost var supply0 := m.supply;
    var pgd, last;
    pgd, last, root := Construct(m, dump, 0, 0, t);
    ConstructedTablesOk(t, root, m.mem, supply0);
  }

  /**
   gr_pgt_init followed by gr_mem_contents_init, for any dump of the contents: no
   page is used twice, and unless the run stops the tables are the recorded ones
   rebuilt with the pages entered as LoadedAs says. When the dumps agree it does not
   stop, every backed page translates to the page that backs it, and all other
   leaf slots keep the recorded word.
   */
  method Init(m: Machine, dump: seq<Word>, ghost t: Tree, recs: seq<RegionRecord>)
    returns (ctx: ReplayContext, stop: InitStop, ghost n: nat)
    requires t.Node? && WfTree(t, 0) && DumpAt(dump, 0, t)
    requires m.Valid() && Count(t) + TotalEnts(recs) <= |m.supply|
    modifies m
    ensures ctx.m == m && ctx.Sound() && RunEnds(ctx.root, ctx.regions, recs, stop, n)
    ensures stop.Complete? ==> LoadedAs(t, ctx.root, m.mem, ctx.regions, recs)
    ensures DumpsAgree(t, recs) ==> stop.Complete? && ctx.Valid()
    ensures DumpsAgree(t, recs) ==> Initialised(t, ctx.root, m.mem, ctx.regions, recs)
    ensures DumpsAgree(t, recs) ==> TranslatesAll(m.mem, ctx.root.phys, ctx.regions)
    ensures DumpsAgree(t, recs) ==> |ctx.regions| == |recs|
    ensures DumpsAgree(t, recs) ==>
      forall i :: 0 <= i < |recs| ==> LeafWords(m.mem, ctx.root.phys, ctx.regions[i], recs[i].flags)
    ensures var ents := TotalEnts(recs[..|ctx.regions|]);
            && ctx.totNrPages == U32(ents) && Count(t) + ents <= |old(m.supply)|
            && Pages(ctx.root) + AllPages(ctx.regions) == old(m.supply)[..Count(t) + ents]
    ensures NoDup(Pages(ctx.root) + AllPages(ctx.regions))
  {
    ghost var supply0 := m.supply;
    var root := Rebuild(m, dump, t);
    ctx, stop, n := LoadContents(m, root, t, recs);
    PrefixEnts(recs, |ctx.regions|);
    TakeTwice(supply0, Pages(root), AllPages(ctx.regions), Count(t), TotalEnts(recs[..|ctx.regions|]));
    if DumpsAgree(t, recs) {
      InitialisedMeans(t, root, m.mem, ctx.regions, recs);
    }
  }

  lemma PrefixEnts(recs: seq<RegionRecord>, i: nat)
    requires i <= |recs|
    ensures TotalEnts(recs[..i]) <= TotalEnts(recs)
  {
    if i > 0 {
      TotalEntsSplit(recs, i - 1);
    }
  }

  /**
   From mem to mem' only words of leaf tables have changed: interior tables are as
   they were, leaf tables still tables.
   */
  ghost predicate OnlyLeavesChanged(s: Shadow, l: nat, mem: Mem, mem': Mem)
    decreases s
  {
    s.Shadow? ==>
      && IsTable(mem', s.phys)
      && (l < BOTTOM_LEVEL ==> Frame(s.phys) in mem && mem'[Frame(s.phys)] == mem[Frame(s.phys)])
      && forall i :: 0 <= i < |s.pgd| ==> OnlyLeavesChanged(s.pgd[i], l + 1, mem, mem')
  }

  /** Whatever happens to leaf words, the context stays fit for restoring. */
  lemma {:induction false} CorruptionKeepsTables(s: Shadow, l: nat, mem: Mem, mem': Mem)
    requires Linked(s, l, mem) && OnlyLeavesChanged(s, l, mem, mem')
    ensures Linked(s, l, mem')
    decreases s
  {
    forall i | 0 <= i < PAGE_ENTRIES && s.pgd[i].Shadow?
      ensures SlotLinked(s, l, mem', i)
    {
      assert SlotLinked(s, l, mem, i);
      CorruptionKeepsTables(s.pgd[i], l + 1, mem, mem');
    }
  }

  /**
   Whatever has happened to the leaf words, gr_restore_pte brings every translation
   back, and changes no other leaf slot and no page outside the tables.
   */
  method Restore(ctx: ReplayContext)
    requires ctx.Valid() && PagesGood(ctx.regions)
    modifies ctx.m`mem
    ensures ctx.Valid() && AllMapped(ctx.root, ctx.m.mem, ctx.regions)
    ensures TranslatesAll(ctx.m.mem, ctx.root.phys, ctx.regions)
    ensures forall i :: 0 <= i < |ctx.regions| ==>
      LeafWords(ctx.m.mem, ctx.root.phys, ctx.regions[i], ctx.regions[i].flags)
    ensures OnlyBackedWritten(ctx.root, old(ctx.m.mem), ctx.m.mem, ctx.regions)
    ensures ctx.m.mem.Keys == old(ctx.m.mem).Keys
  {
    ctx.RestorePte();
    MappedTranslates(ctx.root, ctx.m.mem, ctx.regions);
    AllLeafWords(ctx.root, ctx.m.mem, ctx.regions);
  }

  /** The same with the corruption spelt out: any change from the present memory to leaf tables only is undone. */
  method CorruptAndRestore(ctx: ReplayContext, corrupted: Mem)
    requires ctx.Valid() && PagesGood(ctx.regions)
    requires corrupted.Keys == ctx.m.mem.Keys && OnlyLeavesChanged(ctx.root, 0, ctx.m.mem, corrupted)
    modifies ctx.m`mem
    ensures ctx.Valid() && TranslatesAll(ctx.m.mem, ctx.root.phys, ctx.regions)
    ensures OnlyBackedWritten(ctx.root, corrupted, ctx.m.mem, ctx.regions)
  {
    CorruptionKeepsTables(ctx.root, 0, ctx.m.mem, corrupted);
    ctx.m.mem := corrupted;
    Restore(ctx);
  }
}
