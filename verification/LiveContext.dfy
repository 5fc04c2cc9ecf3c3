/**
 A replay context in use: what initialisation leaves behind and every transfer
 through the page lists keeps. The regions share no page with each other or with
 the tables, so the page lists and the page tables stay two views of the same bytes.
 */
module LiveContext {
  import opened Collections
  import opened PteCodec
  import opened PhysMem
  import opened TableTree
  import opened LeafEntries
  import opened Regions
  import opened AddressSpace
  import opened MemInit
  import opened GpuIo

  /** All pages are usable data pages, no page backs two regions, and none holds a table. */
  ghost predicate Separate(root: Shadow, mem: Mem, rs: seq<Region>) {
    && AllUsable(mem, rs)
    && (forall i, j, p :: 0 <= i < j < |rs| && p in rs[i].pages ==> p !in rs[j].pages)
    && (forall i, p :: 0 <= i < |rs| && p in rs[i].pages ==> p !in Pages(root))
  }

  ghost predicate Live(root: Shadow, mem: Mem, rs: seq<Region>) {
    && TablesOk(root, mem) && RegionsOk(root, rs) && PagesGood(rs)
    && AllMapped(root, mem, rs) && Separate(root, mem, rs)
  }

  lemma NoDupParts(a: seq<Word>, b: seq<Word>)
    requires NoDup(a + b)
    ensures NoDup(a) && NoDup(b) && forall p :: p in b ==> p !in a
  {
    forall i, j | 0 <= i < j < |a|
      ensures a[i] != a[j]
    {
      assert (a + b)[i] != (a + b)[j];
    }
    forall i, j | 0 <= i < j < |b|
      ensures b[i] != b[j]
    {
      assert (a + b)[|a| + i] != (a + b)[|a| + j];
    }
    forall i, j | 0 <= i < |a| && 0 <= j < |b|
      ensures a[i] != b[j]
    {
      assert (a + b)[i] != (a + b)[|a| + j];
    }
  }

  /** Distinct pages overall: distinct in each region, and no page in two regions. */
  lemma {:induction false} PagesSeparate(rs: seq<Region>)
    requires NoDup(AllPages(rs))
    ensures forall i :: 0 <= i < |rs| ==> NoDup(rs[i].pages)
    ensures forall i, j, p :: 0 <= i < j < |rs| && p in rs[i].pages ==> p !in rs[j].pages
    decreases |rs|
  {
    if rs != [] {
      var n := |rs| - 1;
      NoDupParts(AllPages(rs[..n]), rs[n].pages);
      PagesSeparate(rs[..n]);
      forall i | 0 <= i < |rs|
        ensures NoDup(rs[i].pages)
      {
        assert i < n ==> rs[..n][i] == rs[i];
      }
      forall i, j, p | 0 <= i < j < |rs| && p in rs[i].pages
        ensures p !in rs[j].pages
      {
        if j < n {
          assert rs[..n][i] == rs[i] && rs[..n][j] == rs[j];
        } else {
          assert rs[..n][i] == rs[i];
          RegionPagesIn(rs[..n], i, p);
        }
      }
    }
  }

  lemma LoadedData(mem: Mem, rs: seq<Region>, recs: seq<RegionRecord>, i: nat)
    requires i < |rs| == |recs| && PagesGood(rs) && NoDup(rs[i].pages)
    requires RecordShape(recs[i]) && BuiltFrom(rs[i], recs[i]) && Loaded(mem, rs[i], recs[i], Backed(rs[i]))
    ensures DataPages(mem, rs[i].pages)
  {
    var rec := recs[i];
    forall k | 0 <= k < |rs[i].pages|
      ensures PageAddr(rs[i].pages[k]) && IsData(mem, rs[i].pages[k])
    {
      assert rs[i].pages[k] in rs[i].pages;
      RegionPagesIn(rs, i, rs[i].pages[k]);
      if rec.isValid && k < Backed(rs[i]) {
        assert RecordedAt(rec.records[k], rec.gmStart + PAGE_SIZE * k);
      }
    }
  }

  /** Initialisation leaves a live context. */
  lemma InitialisedLive(root: Shadow, mem: Mem, rs: seq<Region>, recs: seq<RegionRecord>)
    requires TablesOk(root, mem) && RegionsOk(root, rs) && AllMapped(root, mem, rs) && PagesGood(rs)
    requires NoDup(Pages(root) + AllPages(rs)) && |rs| == |recs|
    requires forall i :: 0 <= i < |rs| ==>
      RecordShape(recs[i]) && BuiltFrom(rs[i], recs[i]) && Loaded(mem, rs[i], recs[i], Backed(rs[i]))
    ensures Live(root, mem, rs)
  {
    NoDupParts(Pages(root), AllPages(rs));
    PagesSeparate(rs);
    forall i | 0 <= i < |rs|
      ensures Usable(mem, rs[i])
    {
      assert RegionOk(root, rs[i]);
      LoadedData(mem, rs, recs, i);
    }
    forall i, p | 0 <= i < |rs| && p in rs[i].pages
      ensures p !in Pages(root)
    {
      RegionPagesIn(rs, i, p);
    }
  }

  /** A context stays live when only data in the pages of one region changes; the other regions keep their bytes. */
  lemma RegionChanged(root: Shadow, mem: Mem, mem': Mem, rs: seq<Region>, i: nat)
    requires Live(root, mem, rs) && i < |rs| && DataPages(mem', rs[i].pages) && OthersKept(mem, mem', rs[i].pages)
    ensures Live(root, mem', rs)
    ensures forall j :: 0 <= j < |rs| && j != i ==> Flat(mem', rs[j].pages) == Flat(mem, rs[j].pages)
  {
    IoKeepsTranslations(root, mem, mem', rs, rs[i].pages);
    forall j | 0 <= j < |rs| && j != i
      ensures Usable(mem', rs[j]) && Flat(mem', rs[j].pages) == Flat(mem, rs[j].pages)
    {
      assert Usable(mem, rs[j]);
      FlatKept(mem, mem', rs[j].pages, rs[i].pages);
    }
    assert Usable(mem, rs[i]);
  }

  /** So does every transfer, however it ends. */
  lemma TransferKeepsLive(root: Shadow, mem: Mem, mem': Mem, rs: seq<Region>, i: nat, b: seq<Byte>, b': seq<Byte>,
                          gaddr: nat, size: nat, isRead: bool)
    requires Live(root, mem, rs) && i < |rs| && Transferred(mem, mem', rs[i], b, b', gaddr, size, isRead)
    ensures Live(root, mem', rs)
    ensures forall j :: 0 <= j < |rs| && j != i ==> Flat(mem', rs[j].pages) == Flat(mem, rs[j].pages)
  {
    if Starts(rs[i], gaddr, size) {
      RegionChanged(root, mem, mem', rs, i);
    }
  }
}
