/**
 The GPU regions of a replay context: their pages, the leaf entries they need,
 and the dump records they are built from.
 */
module Regions {
  import opened Collections
  import opened PteCodec
  import opened PhysMem
  import opened TableTree
  import opened PageWalk
  import opened LeafEntries

  /** struct gpu_mem_region. */
  datatype Region = Region(gmStart: nat, gmEnd: nat, pages: seq<Word>, flags: Word, isValid: bool)

  /** One recorded page of a valid region, with the address it was recorded at. */
  datatype PageRecord = PageRecord(vaddr: nat, contents: seq<bv8>)

  /** One region of the memory dump. */
  datatype RegionRecord = RegionRecord(gmStart: nat, gmEnd: nat, nents: nat, flags: Word, isValid: bool,
                                       records: seq<PageRecord>)

  /** Pages the loop `vaddr < gm_end && page_cnt < nents` visits. */
  function BackedPages(gmStart: nat, gmEnd: nat, nents: nat): nat {
    var span := if gmEnd <= gmStart then 0 else (gmEnd - gmStart + PAGE_SIZE - 1) / PAGE_SIZE;
    if nents < span then nents else span
  }

  function Backed(r: Region): nat {
    BackedPages(r.gmStart, r.gmEnd, |r.pages|)
  }

  function PageVa(r: Region, k: nat): nat {
    r.gmStart + PAGE_SIZE * k
  }

  lemma BackedBound(r: Region, k: nat)
    ensures k < Backed(r) <==> k < |r.pages| && PageVa(r, k) < r.gmEnd
  {
  }

  /** Page-aligned, below 2^48, and covered by the recorded tables. */
  ghost predicate RegionOk(root: Shadow, r: Region) {
    && r.gmStart % PAGE_SIZE == 0 && r.gmEnd <= VA_LIMIT
    && forall k: nat :: k < Backed(r) ==> Covered(root, PageVa(r, k))
  }

  predicate Disjoint(r: Region, r': Region) {
    r.gmEnd <= r'.gmStart || r'.gmEnd <= r.gmStart
  }

  ghost predicate RegionsOk(root: Shadow, rs: seq<Region>) {
    && (forall i :: 0 <= i < |rs| ==> RegionOk(root, rs[i]))
    && (forall i, j :: 0 <= i < j < |rs| ==> Disjoint(rs[i], rs[j]))
  }

  /** The first n pages of r are entered in the leaf tables. */
  ghost predicate Mapped(root: Shadow, mem: Mem, r: Region, n: nat) {
    n <= Backed(r) && forall k: nat :: k < n ==> SlotWord(root, mem, PageVa(r, k)) == Pte(r, k)
  }

  /** The leaf entry of page k of region r. */
  function Pte(r: Region, k: nat): Word {
    if k < |r.pages| then EntryGetAte(r.pages[k], r.flags, BOTTOM_LEVEL) else 0
  }

  /** Its word follows the region's flags bit by bit. */
  lemma PteBits(r: Region, k: nat)
    requires k < |r.pages| && PageAddr(r.pages[k])
    ensures LeafBits(Pte(r, k), r.pages[k], r.flags)
  {
    AteFields(r.pages[k], r.flags);
  }

  ghost predicate AllMapped(root: Shadow, mem: Mem, rs: seq<Region>) {
    forall i :: 0 <= i < |rs| ==> Mapped(root, mem, rs[i], Backed(rs[i]))
  }

  /** va lies in one of the first n pages of r. */
  predicate InPages(r: Region, n: nat, va: nat) {
    exists k: nat :: k < n && PageVa(r, k) / PAGE_SIZE == va / PAGE_SIZE
  }

  /** va lies in a backed page of some region. */
  ghost predicate BackedVa(rs: seq<Region>, va: nat) {
    exists i :: 0 <= i < |rs| && InPages(rs[i], Backed(rs[i]), va)
  }

  /** Different backed pages of disjoint regions, or of one region, are different virtual pages. */
  lemma PagesApart(root: Shadow, r: Region, k: nat, r': Region, k': nat)
    requires RegionOk(root, r) && RegionOk(root, r') && k < Backed(r) && k' < Backed(r')
    requires Disjoint(r, r') || (r == r' && k != k')
    ensures PageVa(r, k) / PAGE_SIZE != PageVa(r', k') / PAGE_SIZE
  {
    BackedBound(r, k);
    BackedBound(r', k');
    assert PageVa(r, k) / PAGE_SIZE == r.gmStart / PAGE_SIZE + k;
    assert PageVa(r', k') / PAGE_SIZE == r'.gmStart / PAGE_SIZE + k';
  }

  /** Leaf slots outside every backed page keep their words, and so does existing memory outside the tables. */
  ghost predicate OnlyBackedWritten(root: Shadow, mem: Mem, mem': Mem, rs: seq<Region>) {
    && TablesOk(root, mem')
    && (forall f :: f in mem && f.base !in Pages(root) ==> f in mem' && mem'[f] == mem[f])
    && (forall va: nat :: va < VA_LIMIT && !BackedVa(rs, va) ==> SlotWord(root, mem', va) == SlotWord(root, mem, va))
  }

  /** Memory that agrees on the table pages has the same links and the same leaf words. */
  lemma TablesKept(root: Shadow, mem: Mem, mem': Mem)
    requires TablesOk(root, mem) && AgreeOn(mem, mem', Pages(root))
    ensures TablesOk(root, mem')
    ensures forall va: nat :: SlotWord(root, mem', va) == SlotWord(root, mem, va)
  {
    LinkedFrame(root, 0, mem, mem');
    forall va: nat
      ensures SlotWord(root, mem', va) == SlotWord(root, mem, va)
    {
      if Covered(root, va) {
        LeafIsTable(root, mem, va);
      }
    }
  }

  predicate RecordedAt(p: PageRecord, va: nat) {
    p.vaddr == va && |p.contents| == PAGE_SIZE
  }

  /** Page-aligned below 2^48, each recorded page stored under its own address. */
  ghost predicate RecordShape(rec: RegionRecord) {
    var n := BackedPages(rec.gmStart, rec.gmEnd, rec.nents);
    && rec.gmStart % PAGE_SIZE == 0 && rec.gmEnd <= VA_LIMIT
    && (rec.isValid ==> n <= |rec.records|)
    && (rec.isValid ==> forall k :: 0 <= k < n ==> RecordedAt(rec.records[k], rec.gmStart + PAGE_SIZE * k))
  }

  /** A dump entry the initialiser accepts: well shaped and covered by the tables. */
  ghost predicate RecordOk(root: Shadow, rec: RegionRecord) {
    && RecordShape(rec)
    && forall k: nat :: k < BackedPages(rec.gmStart, rec.gmEnd, rec.nents) ==>
        Covered(root, rec.gmStart + PAGE_SIZE * k)
  }

  /** Region r is the one built from rec. */
  ghost predicate BuiltFrom(r: Region, rec: RegionRecord) {
    && r.gmStart == rec.gmStart && r.gmEnd == rec.gmEnd && |r.pages| == rec.nents
    && r.flags == rec.flags && r.isValid == rec.isValid
  }

  /** What the loop leaves in page k: the recorded contents in a valid region, zeros in another. */
  function LoadedPage(rec: RegionRecord, k: nat): Page {
    if rec.isValid && k < |rec.records| then Data(rec.records[k].contents) else ZeroPage()
  }

  /** The first n pages are loaded, the others still zero. */
  ghost predicate Loaded(mem: Mem, r: Region, rec: RegionRecord, n: nat) {
    && (forall k :: 0 <= k < |r.pages| ==> Frame(r.pages[k]) in mem)
    && (forall k :: 0 <= k < |r.pages| ==>
      mem[Frame(r.pages[k])] == if k < n then LoadedPage(rec, k) else ZeroPage())
  }

  function TotalEnts(recs: seq<RegionRecord>): nat {
    if recs == [] then 0 else recs[0].nents + TotalEnts(recs[1..])
  }

  lemma {:induction false} TotalEntsSplit(recs: seq<RegionRecord>, i: nat)
    requires i < |recs|
    ensures TotalEnts(recs[..i + 1]) == TotalEnts(recs[..i]) + recs[i].nents <= TotalEnts(recs)
  {
    if i == 0 {
      assert recs[..1][1..] == [];
    } else {
      TotalEntsSplit(recs[1..], i - 1);
      assert recs[1..][..i - 1] == recs[..i][1..] && recs[1..][..i] == recs[..i + 1][1..];
    }
  }

  /** n as a uint32_t counter holds it: reduced modulo 2^32. */
  function U32(n: nat): (r: nat)
    ensures r < 0x1_0000_0000 && (n < 0x1_0000_0000 ==> r == n)
  {
    if n < 0x1_0000_0000 then n else U32(n - 0x1_0000_0000)
  }

  lemma {:induction false} U32Add(a: nat, b: nat)
    ensures U32(U32(a) + b) == U32(a + b)
  {
    if a >= 0x1_0000_0000 {
      U32Add(a - 0x1_0000_0000, b);
    }
  }

  /** All pages of all regions, region after region. */
  function AllPages(rs: seq<Region>): seq<Word> {
    if rs == [] then [] else AllPages(rs[..|rs| - 1]) + rs[|rs| - 1].pages
  }

  lemma AllPagesAppend(rs: seq<Region>, r: Region)
    ensures AllPages(rs + [r]) == AllPages(rs) + r.pages
  {
    assert (rs + [r])[..|rs|] == rs;
  }

  /** The records describe disjoint regions the tables cover. */
  ghost predicate RecordsOk(root: Shadow, recs: seq<RegionRecord>) {
    && (forall i :: 0 <= i < |recs| ==> RecordOk(root, recs[i]))
    && (forall i, j :: 0 <= i < j < |recs| ==> recs[i].gmEnd <= recs[j].gmStart || recs[j].gmEnd <= recs[i].gmStart)
  }

  lemma {:induction false} RegionPagesIn(rs: seq<Region>, i: nat, p: Word)
    requires i < |rs| && p in rs[i].pages
    ensures p in AllPages(rs)
    decreases rs
  {
    if i < |rs| - 1 {
      RegionPagesIn(rs[..|rs| - 1], i, p);
    }
  }

  /** Pages just taken from the supply: distinct, new, and not in any table. */
  ghost predicate NewPages(root: Shadow, mem0: Mem, pages: seq<Word>) {
    NoDup(pages) && forall p :: p in pages ==> GoodPage(p) && p !in Pages(root) && Frame(p) !in mem0
  }

  /** The tables are intact, and the pages still to be handed out are usable and exist nowhere yet. */
  ghost predicate FreshSupply(root: Shadow, mem: Mem, supply: seq<Word>) {
    TablesOk(root, mem) && NoDup(supply) && forall p :: p in supply ==> GoodPage(p) && Frame(p) !in mem
  }

  lemma FreshPages(root: Shadow, mem: Mem, supply: seq<Word>, n: nat)
    requires FreshSupply(root, mem, supply) && n <= |supply|
    ensures NewPages(root, mem, supply[..n])
  {
    TablePagesExist(root, 0, mem);
  }

  lemma {:induction false} TablePagesExist(s: Shadow, l: nat, mem: Mem)
    requires Linked(s, l, mem)
    ensures forall p :: p in Pages(s) ==> Frame(p) in mem
    decreases s
  {
    forall i | 0 <= i < |s.pgd| && s.pgd[i].Shadow?
      ensures forall p :: p in Pages(s.pgd[i]) ==> Frame(p) in mem
    {
      assert SlotLinked(s, l, mem, i);
      TablePagesExist(s.pgd[i], l + 1, mem);
    }
    KidPagesExist(s.pgd, mem);
  }

  lemma {:induction false} KidPagesExist(ks: seq<Shadow>, mem: Mem)
    requires forall i :: 0 <= i < |ks| && ks[i].Shadow? ==> forall p :: p in Pages(ks[i]) ==> Frame(p) in mem
    ensures forall p :: p in PagesOfKids(ks) ==> Frame(p) in mem
    decreases ks
  {
    if ks != [] {
      KidPagesExist(ks[1..], mem);
    }
  }
}
