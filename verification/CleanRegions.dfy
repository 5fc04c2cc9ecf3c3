/**
 gr_clean_invalid_region: before a further replay, zero every page of the
 regions that were invalid when they were recorded, by copying a zero page to each
 of the addresses gm_start, gm_start + PAGE_SIZE, and so on, as many as the region
 has pages. The copies look their region up again and again, and nothing holds
 them inside the region.
 */
module CleanRegions {
  import opened Collections
  import opened PteCodec
  import opened PhysMem
  import opened TableTree
  import opened TableDump
  import opened Regions
  import opened DumpLoop
  import opened AddressSpace
  import opened MemInit
  import opened GpuIo
  import opened LiveContext
  import opened EndToEnd
  import opened JobHead

  /**
   How often the inner loop copies before its 32-bit counter returns to 0; from then
   on it would only repeat the same copies, without end, and the model stops there.
   */
  function Copies(r: Region): (n: nat)
    ensures n <= |r.pages|
  {
    if |r.pages| < 0x1_0000_0000 then |r.pages| else 0x1_0000_0000
  }

  /** The inner loop ends in every region it is entered for. */
  predicate Ends(rs: seq<Region>) {
    forall i :: 0 <= i < |rs| && !rs[i].isValid ==> |rs[i].pages| < 0x1_0000_0000
  }

  /** The addresses copied to for one region. */
  function VasOf(r: Region): seq<nat> {
    if r.isValid then [] else seq(Copies(r), j requires 0 <= j => PageVa(r, j))
  }

  /** All copies, in order, up to and including those for the first region without end. */
  function CleanVas(rs: seq<Region>): seq<nat> {
    if rs == [] then []
    else CleanVas(rs[..|rs| - 1]) + if Ends(rs[..|rs| - 1]) then VasOf(rs[|rs| - 1]) else []
  }

  /** The page a copy of one page to va overwrites, if it succeeds. */
  function Target(rs: seq<Region>, va: nat): Option<Word> {
    var i := RegionAt(rs, va);
    if i >= 0 && OutcomeAt(rs, va, PAGE_SIZE).Done? && (va - rs[i].gmStart) / PAGE_SIZE < |rs[i].pages|
    then Some(rs[i].pages[(va - rs[i].gmStart) / PAGE_SIZE]) else None
  }

  /** One of the copies overwrites p. */
  ghost predicate Hit(rs: seq<Region>, vas: seq<nat>, p: Word) {
    exists n :: 0 <= n < |vas| && Target(rs, vas[n]) == Some(p)
  }

  /** The pages the copies go to are zero, and everything else is as it was. */
  ghost predicate ZeroedBy(mem0: Mem, mem: Mem, rs: seq<Region>, vas: seq<nat>) {
    forall f :: f in mem0 ==> f in mem && mem[f] == if Hit(rs, vas, f.base) then ZeroPage() else mem0[f]
  }

  /** The copies to vas succeed one after the other and leave mem. */
  ghost predicate CopiedTo(mem0: Mem, mem: Mem, rs: seq<Region>, vas: seq<nat>) {
    && AllUsable(mem, rs) && ZeroedBy(mem0, mem, rs, vas)
    && forall n :: 0 <= n < |vas| ==> OutcomeAt(rs, vas[n], PAGE_SIZE).Done?
  }

  function Zeros(n: nat): (z: seq<Byte>)
    ensures |z| == n
  {
    seq(n, _ => 0)
  }

  /** A copy of one page is one aligned page, or nothing. */
  lemma AlignedCopy(r: Region, va: nat)
    requires r.gmStart % PAGE_SIZE == 0 && va % PAGE_SIZE == 0 && Encloses(r, va)
    ensures var k := (va - r.gmStart) / PAGE_SIZE;
            && va == PageVa(r, k) && va - r.gmStart == PAGE_SIZE * k
            && (Starts(r, va, PAGE_SIZE) <==> va + PAGE_SIZE <= r.gmEnd && k < |r.pages|)
            && (RegionOutcome(r, va, PAGE_SIZE).Done? <==> Starts(r, va, PAGE_SIZE))
            && (Starts(r, va, PAGE_SIZE) ==> BytesMoved(r, va, PAGE_SIZE) == PAGE_SIZE)
  {
  }

  /** A page of zeros written over page k of the list. */
  lemma PageWritten(mem: Mem, mem': Mem, pages: seq<Word>, k: nat, b: seq<Byte>, b': seq<Byte>, g: nat, n: nat)
    requires DataPages(mem, pages) && k < |pages| && b == Zeros(PAGE_SIZE) && g == PAGE_SIZE * k && n == PAGE_SIZE
    requires Moving(mem, mem', pages, b, b', g, n, false)
    ensures b' == b
    ensures forall f :: f in mem ==> f in mem' && mem'[f] == if f.base == pages[k] then ZeroPage() else mem[f]
  {
    forall i | 0 <= i < |pages|
      ensures mem'[Frame(pages[i])] == if i == k then ZeroPage() else mem[Frame(pages[i])]
    {
      PageOfSplice(mem, mem', pages, k, i, b, g);
    }
    forall f | f in mem && f.base in pages
      ensures f in mem' && mem'[f] == if f.base == pages[k] then ZeroPage() else mem[f]
    {
      var i :| 0 <= i < |pages| && pages[i] == f.base;
      assert f == Frame(pages[i]);
    }
  }

  lemma PageOfSplice(mem: Mem, mem': Mem, pages: seq<Word>, k: nat, i: nat, b: seq<Byte>, g: nat)
    requires DataPages(mem, pages) && DataPages(mem', pages) && k < |pages| && i < |pages|
    requires b == Zeros(PAGE_SIZE) && g == PAGE_SIZE * k && g + |b| <= PAGE_SIZE * |pages|
    requires Flat(mem', pages) == Splice(Flat(mem, pages), g, b)
    ensures mem'[Frame(pages[i])] == if i == k then ZeroPage() else mem[Frame(pages[i])]
  {
    var d, d0 := mem'[Frame(pages[i])].bytes, mem[Frame(pages[i])].bytes;
    forall o | 0 <= o < PAGE_SIZE
      ensures d[o] == if i == k then 0 else d0[o]
    {
      var x := PAGE_SIZE * i + o;
      InPage(i, o);
      FlatAt(mem, pages, x);
      FlatAt(mem', pages, x);
    }
    if i == k {
      assert d == Zeros(PAGE_SIZE);
    } else {
      assert d == d0;
    }
  }

  /** What one copy does. */
  lemma OneCopy(mem: Mem, mem': Mem, rs: seq<Region>, i: nat, va: nat, b: seq<Byte>, b': seq<Byte>)
    requires AllUsable(mem, rs) && i == RegionAt(rs, va) && va % PAGE_SIZE == 0 && b == Zeros(PAGE_SIZE)
    requires Transferred(mem, mem', rs[i], b, b', va, PAGE_SIZE, false)
    ensures b' == b && (OutcomeAt(rs, va, PAGE_SIZE).Done? <==> Target(rs, va).Some?)
    ensures forall f :: f in mem ==>
      f in mem' && mem'[f] == if Target(rs, va) == Some(f.base) then ZeroPage() else mem[f]
  {
    assert Usable(mem, rs[i]);
    AlignedCopy(rs[i], va);
    if Starts(rs[i], va, PAGE_SIZE) {
      PageWritten(mem, mem', rs[i].pages, (va - rs[i].gmStart) / PAGE_SIZE, b, b', va - rs[i].gmStart,
        BytesMoved(rs[i], va, PAGE_SIZE));
    }
  }

  /** Zeroed data pages are data pages. */
  lemma StillUsable(mem: Mem, mem': Mem, rs: seq<Region>)
    requires AllUsable(mem, rs)
    requires forall f :: f in mem ==> f in mem' && (mem'[f] == ZeroPage() || mem'[f] == mem[f])
    ensures AllUsable(mem', rs)
  {
    forall i | 0 <= i < |rs|
      ensures Usable(mem', rs[i])
    {
      assert Usable(mem, rs[i]);
    }
  }

  lemma HitNext(rs: seq<Region>, vas: seq<nat>, n: nat, p: Word)
    requires n < |vas|
    ensures Hit(rs, vas[..n + 1], p) <==> Hit(rs, vas[..n], p) || Target(rs, vas[n]) == Some(p)
  {
    if Hit(rs, vas[..n], p) {
      var i :| 0 <= i < n && Target(rs, vas[..n][i]) == Some(p);
      assert vas[..n + 1][i] == vas[..n][i];
    }
    assert vas[..n + 1][n] == vas[n];
  }

  lemma NextCopy(mem0: Mem, mem: Mem, mem': Mem, rs: seq<Region>, vas: seq<nat>, n: nat)
    requires n < |vas| && CopiedTo(mem0, mem, rs, vas[..n])
    requires forall f :: f in mem ==>
      f in mem' && mem'[f] == if Target(rs, vas[n]) == Some(f.base) then ZeroPage() else mem[f]
    ensures OutcomeAt(rs, vas[n], PAGE_SIZE).Done? ==> CopiedTo(mem0, mem', rs, vas[..n + 1])
  {
    StillUsable(mem, mem', rs);
    forall f | f in mem0
      ensures f in mem' && mem'[f] == if Hit(rs, vas[..n + 1], f.base) then ZeroPage() else mem0[f]
    {
      HitNext(rs, vas, n, f.base);
    }
  }

  /** gr_copy_to_gpu of the zero page to vas[n], after the copies before it. */
  method CopyZeros(m: Machine, rs: seq<Region>, va: nat, buf: array<Byte>, ghost mem0: Mem, ghost vas: seq<nat>,
                   ghost n: nat)
    returns (v: Outcome, ghost n': nat)
    requires n < |vas| && va == vas[n] && va % PAGE_SIZE == 0
    requires m.Valid() && buf[..] == Zeros(PAGE_SIZE) && CopiedTo(mem0, m.mem, rs, vas[..n])
    modifies m`mem, buf
    ensures m.Valid() && buf[..] == Zeros(PAGE_SIZE) && v == OutcomeAt(rs, va, PAGE_SIZE)
    ensures n' == (if v.Done? then n + 1 else n) && CopiedTo(mem0, m.mem, rs, vas[..n'])
  {
    ghost var mem, b := m.mem, buf[..];
    assert |b| == buf.Length;
    v := GpuMemIo(m, rs, va, buf, PAGE_SIZE, false);
    if RegionAt(rs, va) >= 0 {
      OneCopy(mem, m.mem, rs, RegionAt(rs, va), va, b, buf[..]);
      NextCopy(mem0, mem, m.mem, rs, vas, n);
    }
    n' := if v.Done? then n + 1 else n;
  }

  lemma {:induction false} CleanVasSplit(rs: seq<Region>, i: nat)
    requires i < |rs|
    ensures Ends(rs[..i]) ==> CleanVas(rs[..i + 1]) == CleanVas(rs[..i]) + VasOf(rs[i])
    ensures CleanVas(rs[..i + 1]) <= CleanVas(rs)
    ensures !Ends(rs[..i + 1]) ==> CleanVas(rs[..i + 1]) == CleanVas(rs)
    decreases |rs| - i
  {
    assert rs[..i + 1][..i] == rs[..i];
    if i + 1 < |rs| {
      CleanVasSplit(rs, i + 1);
      CleanVasNext(rs, i + 1);
    } else {
      assert rs[..i + 1] == rs;
    }
  }

  lemma CleanVasNext(rs: seq<Region>, i: nat)
    requires i < |rs|
    ensures CleanVas(rs[..i]) <= CleanVas(rs[..i + 1])
    ensures !Ends(rs[..i]) ==> !Ends(rs[..i + 1]) && CleanVas(rs[..i + 1]) == CleanVas(rs[..i])
  {
    assert rs[..i + 1][..i] == rs[..i];
    if !Ends(rs[..i]) {
      StillEndless(rs, i);
    }
  }

  lemma StillEndless(rs: seq<Region>, i: nat)
    requires i < |rs| && !Ends(rs[..i])
    ensures !Ends(rs[..i + 1])
  {
    var k :| 0 <= k < i && !rs[..i][k].isValid && |rs[..i][k].pages| >= 0x1_0000_0000;
    assert rs[..i + 1][k] == rs[..i][k];
  }

  lemma EndsNext(rs: seq<Region>, i: nat)
    requires i < |rs| && Ends(rs[..i])
    ensures Ends(rs[..i + 1]) <==> rs[i].isValid || |rs[i].pages| < 0x1_0000_0000
  {
    assert rs[..i + 1][i] == rs[i];
    forall k | 0 <= k < i
      ensures rs[..i + 1][k] == rs[..i][k]
    {
    }
  }

  /** Copy j for region i, in the whole list. */
  lemma CleanVasAt(rs: seq<Region>, i: nat, j: nat)
    requires i < |rs| && !rs[i].isValid && Ends(rs[..i]) && j < Copies(rs[i])
    ensures var n := |CleanVas(rs[..i])| + j; n < |CleanVas(rs)| && CleanVas(rs)[n] == PageVa(rs[i], j)
  {
    CleanVasSplit(rs, i);
    assert CleanVas(rs[..i + 1])[|CleanVas(rs[..i])| + j] == VasOf(rs[i])[j];
  }

  /** The inner loop: one invalid region, after n copies for the regions before it. */
  method CleanOne(m: Machine, rs: seq<Region>, i: nat, buf: array<Byte>, ghost mem0: Mem, ghost vas: seq<nat>,
                  ghost n: nat)
    returns (v: Outcome, endless: bool, ghost n': nat)
    requires i < |rs| && !rs[i].isValid && Ends(rs[..i])
    requires vas == CleanVas(rs) && n == |CleanVas(rs[..i])| && n + Copies(rs[i]) <= |vas|
    requires m.Valid() && buf[..] == Zeros(PAGE_SIZE) && CopiedTo(mem0, m.mem, rs, vas[..n])
    modifies m`mem, buf
    ensures m.Valid() && buf[..] == Zeros(PAGE_SIZE)
    ensures n <= n' <= n + Copies(rs[i]) && CopiedTo(mem0, m.mem, rs, vas[..n'])
    ensures v.Done? <==> n' == n + Copies(rs[i])
    ensures !v.Done? ==> v == OutcomeAt(rs, vas[n'], PAGE_SIZE)
    ensures endless <==> v.Done? && |rs[i].pages| >= 0x1_0000_0000
  {
    n' := n;
    assert Usable(m.mem, rs[i]);
    for j := 0 to Copies(rs[i])
      invariant m.Valid() && buf[..] == Zeros(PAGE_SIZE) && n' == n + j && CopiedTo(mem0, m.mem, rs, vas[..n'])
    {
      CleanVasAt(rs, i, j);
      OffsetInPage(rs[i].gmStart, j, 0);
      v, n' := CopyZeros(m, rs, rs[i].gmStart + PAGE_SIZE * j, buf, mem0, vas, n');
      if !v.Done? {
        endless := false;
        return;
      }
    }
    v, endless := Done, |rs[i].pages| >= 0x1_0000_0000;
  }

  /**
   gr_clean_invalid_region: the copies run in order up to the first that does not
   succeed, or to the end, or for ever in a region with 2^32 or more pages; they have
   zeroed exactly the pages they went to.
   */
  method CleanInvalidRegion(m: Machine, rs: seq<Region>) returns (v: Outcome, endless: bool, ghost n: nat)
    requires m.Valid() && AllUsable(m.mem, rs)
    modifies m`mem
    ensures m.Valid() && n <= |CleanVas(rs)| && CopiedTo(old(m.mem), m.mem, rs, CleanVas(rs)[..n])
    ensures v.Done? <==> n == |CleanVas(rs)|
    ensures !v.Done? ==> v == OutcomeAt(rs, CleanVas(rs)[n], PAGE_SIZE)
    ensures endless <==> v.Done? && !Ends(rs)
  {
    var buf := new Byte[PAGE_SIZE](_ => 0);
    ghost var mem0, vas := m.mem, CleanVas(rs);
    n := |CleanVas(rs[..0])|;
    for i := 0 to |rs|
      invariant m.Valid() && buf[..] == Zeros(PAGE_SIZE) && Ends(rs[..i])
      invariant n == |CleanVas(rs[..i])| <= |vas| && CopiedTo(mem0, m.mem, rs, vas[..n])
    {
      CleanVasSplit(rs, i);
      EndsNext(rs, i);
      if !rs[i].isValid {
        v, endless, n := CleanOne(m, rs, i, buf, mem0, vas, n);
        if !v.Done? || endless {
          return;
        }
      }
    }
    assert rs[..|rs|] == rs;
    v, endless := Done, false;
  }

  predicate InRange(r: Region) {
    r.gmStart + PAGE_SIZE * |r.pages| <= r.gmEnd
  }

  predicate Fits(r: Region) {
    r.pages == [] || (|r.pages| < 0x1_0000_0000 && InRange(r))
  }

  /** No region recorded as invalid has more pages than whole pages of addresses, or 2^32 of them. */
  predicate InvalidFit(rs: seq<Region>) {
    forall i :: 0 <= i < |rs| && !rs[i].isValid ==> Fits(rs[i])
  }

  /** Copy j for region i stays in the region and succeeds. */
  predicate OwnCopy(rs: seq<Region>, i: nat, j: nat)
    requires i < |rs|
  {
    RegionAt(rs, PageVa(rs[i], j)) == i && OutcomeAt(rs, PageVa(rs[i], j), PAGE_SIZE).Done?
  }

  lemma OwnCopyIff(root: Shadow, rs: seq<Region>, i: nat, j: nat)
    requires RegionsOk(root, rs) && i < |rs| && j < |rs[i].pages|
    ensures OwnCopy(rs, i, j) <==> PageVa(rs[i], j + 1) <= rs[i].gmEnd
    ensures OwnCopy(rs, i, j) ==> Target(rs, PageVa(rs[i], j)) == Some(rs[i].pages[j])
  {
    var va := PageVa(rs[i], j);
    assert RegionOk(root, rs[i]);
    OffsetInPage(rs[i].gmStart, j, 0);
    if Encloses(rs[i], va) {
      EnclosingUnique(root, rs, i, va);
      AlignedCopy(rs[i], va);
      InPage(j, 0);
    }
  }

  /** Every copy stays in its own region, none stops the run and all loops end, exactly when the invalid regions fit. */
  lemma OwnRegionIff(root: Shadow, rs: seq<Region>)
    requires RegionsOk(root, rs)
    ensures InvalidFit(rs) <==>
      Ends(rs) && forall i, j: nat :: 0 <= i < |rs| && !rs[i].isValid && j < |rs[i].pages| ==> OwnCopy(rs, i, j)
  {
    forall i, j: nat | 0 <= i < |rs| && j < |rs[i].pages|
      ensures OwnCopy(rs, i, j) <==> PageVa(rs[i], j + 1) <= rs[i].gmEnd
    {
      OwnCopyIff(root, rs, i, j);
    }
    forall i | 0 <= i < |rs| && !rs[i].isValid && rs[i].pages != []
      ensures InRange(rs[i]) <==> OwnCopy(rs, i, |rs[i].pages| - 1)
    {
    }
  }

  /** Every address in the list is one of an invalid region's. */
  lemma {:induction false} CleanVasIn(rs: seq<Region>, n: nat) returns (i: nat, j: nat)
    requires n < |CleanVas(rs)|
    ensures i < |rs| && !rs[i].isValid && j < |rs[i].pages| && CleanVas(rs)[n] == PageVa(rs[i], j)
    decreases |rs|
  {
    var last := |rs| - 1;
    if n < |CleanVas(rs[..last])| {
      i, j := CleanVasIn(rs[..last], n);
    } else {
      i, j := last, n - |CleanVas(rs[..last])|;
    }
  }

  /** p is a page of a region recorded as invalid. */
  ghost predicate InInvalid(rs: seq<Region>, p: Word) {
    exists i :: 0 <= i < |rs| && !rs[i].isValid && p in rs[i].pages
  }

  /** The copies end, all succeed, and go to all pages of the invalid regions and to no other page. */
  ghost predicate CleansExactly(rs: seq<Region>) {
    && Ends(rs)
    && (forall n :: 0 <= n < |CleanVas(rs)| ==> OutcomeAt(rs, CleanVas(rs)[n], PAGE_SIZE).Done?)
    && forall p: Word :: Hit(rs, CleanVas(rs), p) <==> InInvalid(rs, p)
  }

  lemma CopyIsOwn(root: Shadow, rs: seq<Region>, n: nat) returns (i: nat, j: nat)
    requires RegionsOk(root, rs) && InvalidFit(rs) && n < |CleanVas(rs)|
    ensures i < |rs| && !rs[i].isValid && j < |rs[i].pages|
    ensures OutcomeAt(rs, CleanVas(rs)[n], PAGE_SIZE).Done? && Target(rs, CleanVas(rs)[n]) == Some(rs[i].pages[j])
  {
    i, j := CleanVasIn(rs, n);
    OwnCopyIff(root, rs, i, j);
    assert Fits(rs[i]);
  }

  lemma FitCleansExactly(root: Shadow, rs: seq<Region>)
    requires RegionsOk(root, rs) && InvalidFit(rs)
    ensures CleansExactly(rs)
  {
    forall n | 0 <= n < |CleanVas(rs)|
      ensures OutcomeAt(rs, CleanVas(rs)[n], PAGE_SIZE).Done?
    {
      var i, j := CopyIsOwn(root, rs, n);
    }
    forall p: Word
      ensures Hit(rs, CleanVas(rs), p) <==> InInvalid(rs, p)
    {
      if Hit(rs, CleanVas(rs), p) {
        var n :| 0 <= n < |CleanVas(rs)| && Target(rs, CleanVas(rs)[n]) == Some(p);
        var i, j := CopyIsOwn(root, rs, n);
      }
      if InInvalid(rs, p) {
        var i :| 0 <= i < |rs| && !rs[i].isValid && p in rs[i].pages;
        var j :| 0 <= j < |rs[i].pages| && rs[i].pages[j] == p;
        assert Fits(rs[i]) && Ends(rs[..i]);
        OwnCopyIff(root, rs, i, j);
        CleanVasAt(rs, i, j);
      }
    }
  }

  lemma CleanVasAligned(root: Shadow, rs: seq<Region>, n: nat)
    requires RegionsOk(root, rs) && n < |CleanVas(rs)|
    ensures CleanVas(rs)[n] % PAGE_SIZE == 0
  {
    var i, j := CleanVasIn(rs, n);
    assert RegionOk(root, rs[i]);
    OffsetInPage(rs[i].gmStart, j, 0);
  }

  lemma TargetRegion(rs: seq<Region>, va: nat, p: Word)
    requires Target(rs, va) == Some(p)
    ensures RegionAt(rs, va) >= 0 && p in rs[RegionAt(rs, va)].pages
  {
  }

  lemma PageOwner(root: Shadow, mem: Mem, rs: seq<Region>, i: nat, k: nat, p: Word)
    requires Separate(root, mem, rs) && i < |rs| && k < |rs| && p in rs[i].pages && p in rs[k].pages
    ensures i == k
  {
  }

  /** A copy that overwrites the region's last page ends inside the region. */
  lemma LastPageFits(mem: Mem, rs: seq<Region>, i: nat, va: nat, p: Word)
    requires i == RegionAt(rs, va) && va % PAGE_SIZE == 0 && Usable(mem, rs[i]) && rs[i].pages != []
    requires Target(rs, va) == Some(p) && p == rs[i].pages[|rs[i].pages| - 1]
    ensures InRange(rs[i])
  {
    AlignedCopy(rs[i], va);
  }

  /** The last page of a region is reached only by the region's own last copy. */
  lemma LastPageHit(root: Shadow, mem: Mem, rs: seq<Region>, i: nat, p: Word)
    requires RegionsOk(root, rs) && Separate(root, mem, rs) && i < |rs| && rs[i].pages != []
    requires p == rs[i].pages[|rs[i].pages| - 1] && Hit(rs, CleanVas(rs), p)
    ensures InRange(rs[i])
  {
    var n :| 0 <= n < |CleanVas(rs)| && Target(rs, CleanVas(rs)[n]) == Some(p);
    var va := CleanVas(rs)[n];
    CleanVasAligned(root, rs, n);
    TargetRegion(rs, va, p);
    PageOwner(root, mem, rs, i, RegionAt(rs, va), p);
    LastPageFits(mem, rs, i, va, p);
  }

  /** Cleaning does what it is for exactly when every invalid region has an address for each of its pages. */
  lemma CleansExactlyIff(root: Shadow, mem: Mem, rs: seq<Region>)
    requires RegionsOk(root, rs) && Separate(root, mem, rs)
    ensures CleansExactly(rs) <==> InvalidFit(rs)
  {
    if InvalidFit(rs) {
      FitCleansExactly(root, rs);
    }
    if CleansExactly(rs) {
      forall i | 0 <= i < |rs| && !rs[i].isValid && rs[i].pages != []
        ensures Fits(rs[i])
      {
        var p := rs[i].pages[|rs[i].pages| - 1];
        assert InInvalid(rs, p);
        LastPageHit(root, mem, rs, i, p);
      }
    }
  }

  /** Wherever the copies go, no table is touched: the context stays live. */
  lemma CleaningKeepsLive(root: Shadow, mem0: Mem, mem: Mem, rs: seq<Region>, vas: seq<nat>)
    requires Live(root, mem0, rs) && CopiedTo(mem0, mem, rs, vas)
    ensures Live(root, mem, rs)
  {
    forall p | p in Pages(root) && Frame(p) in mem0
      ensures Frame(p) in mem && mem[Frame(p)] == mem0[Frame(p)]
    {
      assert Hit(rs, vas, Frame(p).base) ==> p !in Pages(root) by {
        if Hit(rs, vas, p) {
          var n :| 0 <= n < |vas| && Target(rs, vas[n]) == Some(p);
          TargetRegion(rs, vas[n], p);
        }
      }
    }
    TablesKept(root, mem0, mem);
    forall i | 0 <= i < |rs|
      ensures Mapped(root, mem, rs[i], Backed(rs[i]))
    {
      assert Mapped(root, mem0, rs[i], Backed(rs[i]));
    }
  }

  /** A region's bytes after cleaning: zero if it was recorded as invalid, as before if not. */
  ghost predicate Cleaned(mem0: Mem, mem: Mem, r: Region) {
    Flat(mem, r.pages) == if r.isValid then Flat(mem0, r.pages) else Zeros(PAGE_SIZE * |r.pages|)
  }

  lemma RegionCleaned(root: Shadow, mem0: Mem, mem: Mem, rs: seq<Region>, i: nat)
    requires Separate(root, mem0, rs) && ZeroedBy(mem0, mem, rs, CleanVas(rs)) && CleansExactly(rs) && i < |rs|
    ensures Cleaned(mem0, mem, rs[i])
  {
    var pages := rs[i].pages;
    assert Usable(mem0, rs[i]);
    forall k | 0 <= k < |pages|
      ensures Frame(pages[k]) in mem0 && Frame(pages[k]) in mem
      ensures mem[Frame(pages[k])] == if rs[i].isValid then mem0[Frame(pages[k])] else ZeroPage()
    {
      InvalidPage(root, mem0, rs, i, pages[k]);
      assert Hit(rs, CleanVas(rs), Frame(pages[k]).base) <==> !rs[i].isValid;
    }
    forall x: nat | x < PAGE_SIZE * |pages|
      ensures FlatByte(mem, pages, x) == if rs[i].isValid then FlatByte(mem0, pages, x) else 0
    {
      assert x / PAGE_SIZE < |pages|;
    }
  }

  lemma InvalidPage(root: Shadow, mem: Mem, rs: seq<Region>, i: nat, p: Word)
    requires Separate(root, mem, rs) && i < |rs| && p in rs[i].pages
    ensures InInvalid(rs, p) <==> !rs[i].isValid
  {
    if InInvalid(rs, p) {
      var k :| 0 <= k < |rs| && !rs[k].isValid && p in rs[k].pages;
      PageOwner(root, mem, rs, i, k, p);
    }
  }

  /** What the GPU reads at byte x of a region after cleaning. */
  function CleanedByte(mem0: Mem, r: Region, x: nat): Byte {
    if r.isValid && x < PAGE_SIZE * |r.pages| then Flat(mem0, r.pages)[x] else 0
  }

  /** Through the page tables, too, the invalid regions are zero and the valid ones as before. */
  ghost predicate ReadsCleaned(mem0: Mem, mem: Mem, pgd: Word, rs: seq<Region>) {
    forall i, x: nat :: 0 <= i < |rs| && x < PAGE_SIZE * Backed(rs[i]) ==>
      Reads(mem, pgd, rs[i].gmStart + x, CleanedByte(mem0, rs[i], x))
  }

  lemma CleanedReads(root: Shadow, mem0: Mem, mem: Mem, rs: seq<Region>)
    requires Live(root, mem, rs) && forall i :: 0 <= i < |rs| ==> Cleaned(mem0, mem, rs[i])
    ensures ReadsCleaned(mem0, mem, root.phys, rs)
  {
    forall i, x: nat | 0 <= i < |rs| && x < PAGE_SIZE * Backed(rs[i])
      ensures Reads(mem, root.phys, rs[i].gmStart + x, CleanedByte(mem0, rs[i], x))
    {
      ReadsFlat(root, mem, rs, i, x);
      assert Cleaned(mem0, mem, rs[i]);
    }
  }

  /** What a run of gr_clean_invalid_region on a live context comes to. */
  lemma CleaningDone(root: Shadow, mem0: Mem, mem: Mem, rs: seq<Region>, v: Outcome, n: nat)
    requires Live(root, mem0, rs) && n <= |CleanVas(rs)| && CopiedTo(mem0, mem, rs, CleanVas(rs)[..n])
    requires v.Done? <==> n == |CleanVas(rs)|
    requires !v.Done? ==> v == OutcomeAt(rs, CleanVas(rs)[n], PAGE_SIZE)
    ensures Live(root, mem, rs)
    ensures InvalidFit(rs) ==> v.Done? && Ends(rs) && ReadsCleaned(mem0, mem, root.phys, rs)
    ensures InvalidFit(rs) ==> forall i :: 0 <= i < |rs| ==> Cleaned(mem0, mem, rs[i])
  {
    CleaningKeepsLive(root, mem0, mem, rs, CleanVas(rs)[..n]);
    if InvalidFit(rs) {
      FitCleansExactly(root, rs);
      assert CleanVas(rs)[..n] == CleanVas(rs);
      forall i | 0 <= i < |rs|
        ensures Cleaned(mem0, mem, rs[i])
      {
        RegionCleaned(root, mem0, mem, rs, i);
      }
      CleanedReads(root, mem0, mem, rs);
    }
  }

  /**
   Rebuild, load, let jobs run, clean: when the invalid regions fit, the run ends
   with exactly their bytes zero, through the page lists and through the page
   tables, and every other byte as the jobs left it; whether they fit or not, every
   table and translation is as it was. mem0 is the memory before the jobs, mem1 the
   memory after them.
   */
  method InitThenClean(m: Machine, dump: seq<Word>, ghost t: Tree, recs: seq<RegionRecord>, jobs: seq<PageWrite>)
    returns (ctx: ReplayContext, v: Outcome, endless: bool, ghost mem0: Mem, ghost mem1: Mem)
    requires t.Node? && WfTree(t, 0) && DumpAt(dump, 0, t) && DumpsAgree(t, recs)
    requires m.Valid() && Count(t) + TotalEnts(recs) <= |m.supply|
    modifies m
    ensures ctx.m == m && Live(ctx.root, m.mem, ctx.regions)
    ensures |ctx.regions| == |recs| && forall i :: 0 <= i < |recs| ==> BuiltFrom(ctx.regions[i], recs[i])
    ensures HoldsRecorded(mem0, ctx.regions, recs) && mem1 == GpuWrites(mem0, ctx.regions, jobs)
    ensures InvalidFit(ctx.regions) ==> v.Done? && !endless && ReadsCleaned(mem1, m.mem, ctx.root.phys, ctx.regions)
    ensures InvalidFit(ctx.regions) ==> forall i :: 0 <= i < |recs| ==> Cleaned(mem1, m.mem, ctx.regions[i])
  {
    ctx := InitReady(m, dump, t, recs);
    mem0 := m.mem;
    GpuKeepsLive(ctx.root, mem0, ctx.regions, jobs);
    m.mem := GpuWrites(m.mem, ctx.regions, jobs);
    mem1 := m.mem;
    ghost var n;
    v, endless, n := CleanInvalidRegion(m, ctx.regions);
    CleaningDone(ctx.root, mem1, m.mem, ctx.regions, v, n);
  }

  lemma NeighbourHit(rs: seq<Region>, invalid: Region, valid: Region)
    requires rs == [invalid, valid] && !invalid.isValid && valid.isValid
    requires invalid.gmStart == 0x10000 && invalid.gmEnd == 0x11000 && |invalid.pages| == 2
    requires valid.gmStart == 0x11000 && valid.gmEnd == 0x12000 && |valid.pages| == 1
    ensures CleanVas(rs) == [0x10000, 0x11000]
    ensures OutcomeAt(rs, 0x10000, PAGE_SIZE).Done? && OutcomeAt(rs, 0x11000, PAGE_SIZE).Done?
    ensures Hit(rs, CleanVas(rs), valid.pages[0])
  {
    assert rs[..1] == [invalid] && rs[..0] == [] && Ends(rs[..0]) && Ends(rs[..1]);
    CleanVasSplit(rs, 0);
    CleanVasSplit(rs, 1);
    assert rs[..2] == rs;
    assert VasOf(invalid) == [0x10000, 0x11000];
    assert Target(rs, CleanVas(rs)[1]) == Some(valid.pages[0]);
  }

  /** The second page of an invalid region with one page of addresses: its copy zeroes the valid region next to it. */
  method NeighbourZeroed() returns (v: Outcome, before: Byte, after: Byte)
    ensures v.Done? && before == 1 && after == 0
  {
    var ones := Data(seq(PAGE_SIZE, _ => 1));
    var mem: Mem := map[Frame(0x1000) := ZeroPage(), Frame(0x2000) := ZeroPage(), Frame(0x3000) := ones];
    var m := new Machine(mem, []);
    var invalid := Region(0x10000, 0x11000, [0x1000, 0x2000], 0, false);
    var valid := Region(0x11000, 0x12000, [0x3000], 0, true);
    var rs := [invalid, valid];
    before := Flat(m.mem, valid.pages)[0];
    ghost var n;
    var endless;
    v, endless, n := CleanInvalidRegion(m, rs);
    NeighbourCleaned(mem, m.mem, rs, invalid, valid, v, n);
    after := Flat(m.mem, valid.pages)[0];
  }

  lemma NeighbourCleaned(mem0: Mem, mem: Mem, rs: seq<Region>, invalid: Region, valid: Region, v: Outcome, n: nat)
    requires rs == [invalid, valid] && !invalid.isValid && valid.isValid
    requires invalid.gmStart == 0x10000 && invalid.gmEnd == 0x11000 && |invalid.pages| == 2
    requires valid.gmStart == 0x11000 && valid.gmEnd == 0x12000 && |valid.pages| == 1 && Frame(valid.pages[0]) in mem0
    requires n <= |CleanVas(rs)| && CopiedTo(mem0, mem, rs, CleanVas(rs)[..n]) && (v.Done? <==> n == |CleanVas(rs)|)
    requires !v.Done? ==> v == OutcomeAt(rs, CleanVas(rs)[n], PAGE_SIZE)
    ensures v.Done? && Flat(mem, valid.pages)[0] == 0
  {
    NeighbourHit(rs, invalid, valid);
    assert n == 0 || n == 1 || n == 2;
    assert CleanVas(rs)[..n] == CleanVas(rs);
    assert Hit(rs, CleanVas(rs), Frame(valid.pages[0]).base);
  }
}
