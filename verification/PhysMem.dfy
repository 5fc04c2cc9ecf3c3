/**
 Physical memory as the replayer sees it through /dev/mem, and the supply of
 fresh pages behind the nano driver's page pool.
 */
module PhysMem {
  import opened Collections
  import opened PteCodec

  /** A page holds either 512 table words or 4096 data bytes. */
  datatype Page = Table(words: seq<Word>) | Data(bytes: seq<bv8>)

  /** The physical page that starts at address base. */
  datatype Frame = Frame(base: Word)

  type Mem = map<Frame, Page>

  /** Non-zero, because the walk treats a zero table address as absent. */
  predicate GoodPage(p: Word) {
    PageAddr(p) && p != 0
  }

  predicate IsTable(mem: Mem, p: Word) {
    Frame(p) in mem && mem[Frame(p)].Table? && |mem[Frame(p)].words| == PAGE_ENTRIES
  }

  predicate IsData(mem: Mem, p: Word) {
    Frame(p) in mem && mem[Frame(p)].Data? && |mem[Frame(p)].bytes| == PAGE_SIZE
  }

  /** Both memories hold the same contents at every page of ps. */
  ghost predicate AgreeOn(mem: Mem, mem': Mem, ps: seq<Word>) {
    forall p :: p in ps && Frame(p) in mem ==> Frame(p) in mem' && mem'[Frame(p)] == mem[Frame(p)]
  }

  /** Nothing that existed before has changed. */
  ghost predicate Extends(mem: Mem, mem': Mem) {
    forall f :: f in mem ==> f in mem' && mem'[f] == mem[f]
  }

  function ZeroPage(): Page {
    Data(seq(PAGE_SIZE, _ => 0))
  }

  class Machine {
    var mem: Mem
    /** Pages the kernel will hand out, in order. */
    var supply: seq<Word>

    ghost predicate Valid()
      reads this
    {
      && NoDup(supply)
      && forall p :: p in supply ==> GoodPage(p) && Frame(p) !in mem
    }

    constructor (mem: Mem, supply: seq<Word>)
      requires NoDup(supply) && forall p :: p in supply ==> GoodPage(p) && Frame(p) !in mem
      ensures Valid() && this.mem == mem && this.supply == supply
    {
      this.mem := mem;
      this.supply := supply;
    }

    /** Grow the pool by one zeroed page and take it. */
    method GetPage() returns (p: Word)
      requires Valid() && supply != []
      modifies this
      ensures Valid() && p == old(supply)[0] && supply == old(supply)[1..]
      ensures mem == old(mem)[Frame(p) := ZeroPage()]
    {
      p := supply[0];
      supply := supply[1..];
      mem := mem[Frame(p) := ZeroPage()];
    }

    /** Grow the pool by n pages and take them all. */
    method GetPages(n: nat) returns (pages: seq<Word>)
      requires Valid() && n <= |supply|
      modifies this
      ensures Valid() && pages == old(supply)[..n] && supply == old(supply)[n..]
      ensures forall f :: f in mem <==> f in old(mem) || f.base in pages
      ensures forall p :: p in pages ==> mem[Frame(p)] == ZeroPage()
      ensures Extends(old(mem), mem)
    {
      pages := [];
      for i := 0 to n
        invariant Valid() && pages == old(supply)[..i] && supply == old(supply)[i..]
        invariant forall f :: f in mem <==> f in old(mem) || f.base in pages
        invariant forall p :: p in pages ==> mem[Frame(p)] == ZeroPage()
        invariant Extends(old(mem), mem)
      {
        assert supply[0] in supply;
        var p := GetPage();
        pages := pages + [p];
      }
    }

    /** Overwrite one whole page. */
    method WritePage(p: Word, page: Page)
      requires Frame(p) in mem && Valid()
      modifies this`mem
      ensures Valid() && mem == old(mem)[Frame(p) := page]
    {
      mem := mem[Frame(p) := page];
    }
  }
}
