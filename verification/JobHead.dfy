/**
 GPU memory around a job: the eight zero bytes gr_js_tune copies over the status
 word of a job header, and what the GPU may leave behind while a job runs.
 */
module JobHead {
  import opened Collections
  import opened PteCodec
  import opened PhysMem
  import opened TableTree
  import opened LeafEntries
  import opened Regions
  import opened AddressSpace
  import opened MemInit
  import opened GpuIo
  import opened LiveContext
  import opened EndToEnd

  /** sizeof(uint64_t) */
  const HEAD_SIZE: nat := 8

  /** atom_status_unused */
  function HeadZeros(): (z: seq<Byte>)
    ensures |z| == HEAD_SIZE
  {
    seq(HEAD_SIZE, _ => 0)
  }

  /** The eight bytes at gaddr, through the page list of the region that encloses it. */
  function HeadBytes(mem: Mem, rs: seq<Region>, gaddr: nat): (b: seq<Byte>)
    ensures |b| == HEAD_SIZE
  {
    seq(HEAD_SIZE, k requires 0 <= k => HeadByte(mem, rs, gaddr, k))
  }

  function HeadByte(mem: Mem, rs: seq<Region>, gaddr: nat, k: nat): Byte {
    var i := RegionAt(rs, gaddr);
    if i == -1 then 0 else FlatByte(mem, rs[i].pages, gaddr - rs[i].gmStart + k)
  }

  /** What the copy makes of the eight bytes: only those in the first page become zero. */
  function ZeroedHead(gaddr: nat, before: seq<Byte>): (after: seq<Byte>)
    requires |before| == HEAD_SIZE
    ensures |after| == HEAD_SIZE
  {
    seq(HEAD_SIZE, k requires 0 <= k < HEAD_SIZE => if gaddr % PAGE_SIZE + k < PAGE_SIZE then 0 else before[k])
  }

  predicate InOnePage(gaddr: nat) {
    gaddr % PAGE_SIZE + HEAD_SIZE <= PAGE_SIZE
  }

  /** The eight bytes end up zero unless they cross a page, and then only if the part in the next page was zero. */
  lemma ZeroedHeadIff(gaddr: nat, before: seq<Byte>)
    requires |before| == HEAD_SIZE
    ensures ZeroedHead(gaddr, before) == HeadZeros() <==>
      InOnePage(gaddr) || forall k :: PAGE_SIZE - gaddr % PAGE_SIZE <= k < HEAD_SIZE ==> before[k] == 0
  {
    var after := ZeroedHead(gaddr, before);
    if after == HeadZeros() && !InOnePage(gaddr) {
      forall k | PAGE_SIZE - gaddr % PAGE_SIZE <= k < HEAD_SIZE
        ensures before[k] == 0
      {
        assert after[k] == HeadZeros()[k];
      }
    }
  }

  /** A transfer of eight bytes needs one page of the region only. */
  lemma HeadOutcome(r: Region, gaddr: nat)
    requires r.gmStart <= gaddr
    ensures RegionOutcome(r, gaddr, HEAD_SIZE).Done? <==> Starts(r, gaddr, HEAD_SIZE)
    ensures Starts(r, gaddr, HEAD_SIZE) ==>
      BytesMoved(r, gaddr, HEAD_SIZE) == if InOnePage(gaddr) then HEAD_SIZE else PAGE_SIZE - gaddr % PAGE_SIZE
  {
  }

  lemma HeadWritten(mem: Mem, mem': Mem, pages: seq<Word>, gaddr: nat, b': seq<Byte>, g: nat, n: nat, k: nat)
    requires n == (if InOnePage(gaddr) then HEAD_SIZE else PAGE_SIZE - gaddr % PAGE_SIZE) && k < HEAD_SIZE
    requires Moving(mem, mem', pages, HeadZeros(), b', g, n, false)
    ensures FlatByte(mem', pages, g + k) == if gaddr % PAGE_SIZE + k < PAGE_SIZE then 0 else FlatByte(mem, pages, g + k)
  {
    var f, f' := Flat(mem, pages), Flat(mem', pages);
    assert f' == Splice(f, g, HeadZeros()[..n]);
    if g + k < PAGE_SIZE * |pages| {
      assert f'[g + k] == FlatByte(mem', pages, g + k) && f[g + k] == FlatByte(mem, pages, g + k);
    } else {
      PastPages(|pages|, g + k);
    }
  }

  lemma PastPages(n: nat, x: nat)
    requires PAGE_SIZE * n <= x
    ensures n <= x / PAGE_SIZE
  {
  }

  /** What gr_js_tune does for the header at gaddr. */
  ghost predicate HeadTuned(rs: seq<Region>, gaddr: nat, v: Outcome, mem: Mem, mem': Mem) {
    && v == OutcomeAt(rs, gaddr, HEAD_SIZE)
    && Written(mem, mem', rs, gaddr, HeadZeros(), HeadZeros(), HEAD_SIZE)
    && (v.Done? ==> HeadBytes(mem', rs, gaddr) == ZeroedHead(gaddr, HeadBytes(mem, rs, gaddr)))
    && (!v.Done? ==> mem' == mem)
  }

  /** gr_js_tune's copy to the job header at gaddr. */
  method ZeroHead(m: Machine, ghost root: Shadow, rs: seq<Region>, gaddr: nat) returns (v: Outcome)
    requires m.Valid() && Live(root, m.mem, rs)
    modifies m`mem
    ensures m.Valid() && Live(root, m.mem, rs) && HeadTuned(rs, gaddr, v, old(m.mem), m.mem)
  {
    ghost var mem := m.mem;
    v := CopyZeros(m, rs, gaddr);
    WriteKeepsLive(root, mem, m.mem, rs, gaddr, HeadZeros(), HeadZeros(), HEAD_SIZE);
  }

  method CopyZeros(m: Machine, rs: seq<Region>, gaddr: nat) returns (v: Outcome)
    requires m.Valid() && AllUsable(m.mem, rs)
    modifies m`mem
    ensures m.Valid() && HeadTuned(rs, gaddr, v, old(m.mem), m.mem)
  {
    var buf := new Byte[HEAD_SIZE](_ => 0);
    assert buf[..] == HeadZeros();
    ghost var mem := m.mem;
    v := GpuMemIo(m, rs, gaddr, buf, HEAD_SIZE, false);
    if RegionAt(rs, gaddr) >= 0 {
      HeadTransferred(mem, m.mem, rs, RegionAt(rs, gaddr), gaddr, buf[..]);
    }
  }

  lemma HeadTransferred(mem: Mem, mem': Mem, rs: seq<Region>, i: nat, gaddr: nat, b': seq<Byte>)
    requires i == RegionAt(rs, gaddr) && Transferred(mem, mem', rs[i], HeadZeros(), b', gaddr, HEAD_SIZE, false)
    ensures b' == HeadZeros()
    ensures RegionOutcome(rs[i], gaddr, HEAD_SIZE).Done? ==>
      HeadBytes(mem', rs, gaddr) == ZeroedHead(gaddr, HeadBytes(mem, rs, gaddr))
    ensures !RegionOutcome(rs[i], gaddr, HEAD_SIZE).Done? ==> mem' == mem
  {
    HeadOutcome(rs[i], gaddr);
    if Starts(rs[i], gaddr, HEAD_SIZE) {
      var f, f' := HeadBytes(mem, rs, gaddr), HeadBytes(mem', rs, gaddr);
      forall k | 0 <= k < HEAD_SIZE
        ensures f'[k] == ZeroedHead(gaddr, f)[k]
      {
        HeadWritten(mem, mem', rs[i].pages, gaddr, b', gaddr - rs[i].gmStart, BytesMoved(rs[i], gaddr, HEAD_SIZE), k);
        assert f'[k] == HeadByte(mem', rs, gaddr, k) && f[k] == HeadByte(mem, rs, gaddr, k);
      }
    }
  }

  /** What the GPU finds at the job header through its page tables. */
  lemma GpuReadsHead(root: Shadow, mem: Mem, rs: seq<Region>, gaddr: nat, k: nat)
    requires Live(root, mem, rs) && RegionAt(rs, gaddr) >= 0 && k < HEAD_SIZE
    requires gaddr - rs[RegionAt(rs, gaddr)].gmStart + k < PAGE_SIZE * Backed(rs[RegionAt(rs, gaddr)])
    ensures Reads(mem, root.phys, gaddr + k, HeadBytes(mem, rs, gaddr)[k])
  {
    var i := RegionAt(rs, gaddr);
    ReadsFlat(root, mem, rs, i, gaddr - rs[i].gmStart + k);
  }

  /** The GPU rewrites one page of a region. */
  datatype PageWrite = PageWrite(region: nat, page: nat, bytes: seq<Byte>)

  predicate CanWrite(mem: Mem, rs: seq<Region>, w: PageWrite) {
    && w.region < |rs| && w.page < |rs[w.region].pages| && |w.bytes| == PAGE_SIZE
    && IsData(mem, rs[w.region].pages[w.page])
  }

  /** What running jobs leave in the pages of the regions; the GPU writes nothing else. */
  function GpuWrites(mem: Mem, rs: seq<Region>, ws: seq<PageWrite>): Mem {
    if ws == [] then mem
    else
      var mem', w := GpuWrites(mem, rs, ws[..|ws| - 1]), ws[|ws| - 1];
      if CanWrite(mem', rs, w) then mem'[Frame(rs[w.region].pages[w.page]) := Data(w.bytes)] else mem'
  }

  /** Jobs leave the context live. */
  lemma {:induction false} GpuKeepsLive(root: Shadow, mem: Mem, rs: seq<Region>, ws: seq<PageWrite>)
    requires Live(root, mem, rs)
    ensures Live(root, GpuWrites(mem, rs, ws), rs) && GpuWrites(mem, rs, ws).Keys == mem.Keys
  {
    if ws != [] {
      var mem', w := GpuWrites(mem, rs, ws[..|ws| - 1]), ws[|ws| - 1];
      GpuKeepsLive(root, mem, rs, ws[..|ws| - 1]);
      if CanWrite(mem', rs, w) {
        OnePageKeepsLive(root, mem', rs, w);
      }
    }
  }

  lemma OnePageKeepsLive(root: Shadow, mem: Mem, rs: seq<Region>, w: PageWrite)
    requires Live(root, mem, rs) && CanWrite(mem, rs, w)
    ensures Live(root, mem[Frame(rs[w.region].pages[w.page]) := Data(w.bytes)], rs)
  {
    var pages := rs[w.region].pages;
    var mem' := mem[Frame(pages[w.page]) := Data(w.bytes)];
    assert pages[w.page] in pages && Usable(mem, rs[w.region]);
    RegionChanged(root, mem, mem', rs, w.region);
  }
}
