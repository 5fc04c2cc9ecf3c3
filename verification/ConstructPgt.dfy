/**
 gr_construct_pgt: the recursive reader of a table dump that rebuilds the tree
 in fresh pages and builds the shadow tree beside it.
 */
module ConstructPgt {
  import opened Collections
  import opened PteCodec
  import opened PhysMem
  import opened TableTree
  import opened TableDump

  /** Taking c more pages after 1 + n have been taken. */
  lemma SupplyTaken<T>(supply0: seq<T>, n: nat, c: nat)
    requires 1 + n + c <= |supply0|
    ensures supply0[1 + n..][c..] == supply0[1 + n + c..]
    ensures supply0[1..1 + n] + supply0[1 + n..][..c] == supply0[1..1 + n + c]
  {
  }

  /** Page accounting of the entry loop: the table's own page and those of the first i children are taken. */
  ghost predicate Taken(ks: seq<Tree>, i: nat, supply0: seq<Word>, supply: seq<Word>, pgds: seq<Shadow>) {
    && |pgds| == i <= |ks|
    && 1 + CountKids(ks[..i]) <= |supply0|
    && supply == supply0[1 + CountKids(ks[..i])..]
    && PagesOfKids(pgds) == supply0[1..1 + CountKids(ks[..i])]
  }

  lemma NextTaken(ks: seq<Tree>, i: nat, supply0: seq<Word>, supply: seq<Word>, pgds: seq<Shadow>, supply': seq<Word>,
                  kid: Shadow)
    requires i < |ks| && Taken(ks, i, supply0, supply, pgds)
    requires Count(ks[i]) <= |supply| && supply' == supply[Count(ks[i])..]
    requires Pages(kid) == supply[..Count(ks[i])]
    ensures Taken(ks, i + 1, supply0, supply', pgds + [kid])
    ensures PagesOfKids(pgds + [kid]) == PagesOfKids(pgds) + Pages(kid)
  {
    var pgds' := pgds + [kid];
    KidsSplit(ks, i);
    assert PagesOfKids(pgds') == PagesOfKids(pgds) + Pages(kid) by {
      assert pgds'[..i] == pgds && pgds'[..i + 1] == pgds';
      PagesSplit(pgds', i);
    }
    SupplyTaken(supply0, CountKids(ks[..i]), Count(ks[i]));
  }

  /** Building kid for the tree t took exactly one page per table and changed nothing else. */
  ghost predicate KidTaken(t: Tree, supply: seq<Word>, mem: Mem, kid: Shadow, supply': seq<Word>, mem': Mem) {
    && Count(t) <= |supply|
    && supply' == supply[Count(t)..] && Pages(kid) == supply[..Count(t)]
    && Extends(mem, mem') && forall f :: f in mem' ==> f in mem || f.base in Pages(kid)
  }

  /** Contents side of the entry loop: the first i slots are finished, the others still verbatim. */
  ghost predicate Done(t: Tree, i: nat, mem1: Mem, buffer: seq<Word>, pgds: seq<Shadow>, mem: Mem)
    requires t.Node? && |t.kids| == |t.entries| == PAGE_ENTRIES
  {
    && |pgds| == i <= |buffer| == PAGE_ENTRIES
    && Extends(mem1, mem)
    && (forall f :: f in mem ==> f in mem1 || f.base in PagesOfKids(pgds))
    && (forall j :: i <= j < PAGE_ENTRIES ==> buffer[j] == t.entries[j])
    && (forall j :: 0 <= j < i ==> KidDone(t, j, buffer[j], pgds[j], mem))
  }

  lemma NextDone(t: Tree, i: nat, mem1: Mem, buffer: seq<Word>, pgds: seq<Shadow>, mem: Mem, word: Word, kid: Shadow,
                 mem': Mem)
    requires t.Node? && |t.kids| == |t.entries| == PAGE_ENTRIES && i < PAGE_ENTRIES
    requires Done(t, i, mem1, buffer, pgds, mem)
    requires PagesOfKids(pgds + [kid]) == PagesOfKids(pgds) + Pages(kid)
    requires Extends(mem, mem') && forall f :: f in mem' ==> f in mem || f.base in Pages(kid)
    requires KidDone(t, i, word, kid, mem')
    ensures Done(t, i + 1, mem1, buffer[i := word], pgds + [kid], mem')
  {
    var pgds', buffer' := pgds + [kid], buffer[i := word];
    forall j | 0 <= j < i + 1
      ensures KidDone(t, j, buffer'[j], pgds'[j], mem')
    {
      if j < i {
        KidKept(t, j, buffer[j], pgds[j], mem, mem');
      }
    }
  }

  /** One slot further, whether or not the slot has a child. */
  lemma NextSlot(t: Tree, i: nat, supply0: seq<Word>, mem1: Mem, supply: seq<Word>, buffer: seq<Word>,
                 pgds: seq<Shadow>, mem: Mem, supply': seq<Word>, word: Word, kid: Shadow, mem': Mem)
    requires t.Node? && |t.kids| == |t.entries| == PAGE_ENTRIES && i < PAGE_ENTRIES
    requires Taken(t.kids, i, supply0, supply, pgds) && Done(t, i, mem1, buffer, pgds, mem)
    requires KidTaken(t.kids[i], supply, mem, kid, supply', mem')
    requires KidDone(t, i, word, kid, mem')
    ensures Taken(t.kids, i + 1, supply0, supply', pgds + [kid])
    ensures Done(t, i + 1, mem1, buffer[i := word], pgds + [kid], mem')
  {
    NextTaken(t.kids, i, supply0, supply, pgds, supply', kid);
    NextDone(t, i, mem1, buffer, pgds, mem, word, kid, mem');
  }

  /**
   Rebuild the tree t dumped at offset. The dump is consumed 513 words a table
   (on return the offset stands at the last table read), one fresh page is taken
   per table in dump order, nothing else in memory changes, and the new tables
   are isomorphic to t.
   */
  method Construct(m: Machine, dump: seq<Word>, level: nat, offset: nat, ghost t: Tree)
    returns (pgd: Word, last: nat, shadow: Shadow)
    requires t.Node? && WfTree(t, level) && DumpAt(dump, offset, t)
    requires m.Valid() && Count(t) <= |m.supply|
    modifies m
    ensures m.Valid()
    ensures last == offset + 513 * (Count(t) - 1)
    ensures KidTaken(t, old(m.supply), old(m.mem), shadow, m.supply, m.mem)
    ensures Iso(t, shadow, m.mem) && pgd == shadow.phys
    ensures Rebuilt(dump, offset, level, shadow, m.mem, offset, old(m.supply))
    decreases t, 1
  {
    ghost var supply0, mem0 := m.supply, m.mem;
    assert supply0[0] in supply0;
    pgd := m.GetPage();
    ghost var mem1 := m.mem;
    var buffer, pgds;
    buffer, pgds, last := ConstructEntries(m, dump, level, offset, t, supply0);
    ghost var mem2 := m.mem;
    shadow := Shadow(pgd, pgds);
    assert t.kids[..PAGE_ENTRIES] == t.kids;
    PageFresh(supply0, shadow);
    assert Frame(pgd) in mem1;
    m.WritePage(pgd, Table(buffer));
    FinishIso(t, shadow, buffer, mem2, m.mem);
    PagesUsable(supply0, Pages(shadow), Count(t));
    IsoRebuilt(dump, offset, level, t, shadow, m.mem, offset, supply0, 0);
  }

  lemma PagesUsable(supply: seq<Word>, pages: seq<Word>, n: nat)
    requires n <= |supply| && pages == supply[..n] && forall p :: p in supply ==> GoodPage(p)
    ensures pages == supply[0..n] && forall p :: p in pages ==> PageAddr(p)
  {
    forall p | p in pages
      ensures p in supply
    {
    }
  }

  /** The entry loop of gr_construct_pgt, after the table's own page has been taken. */
  method ConstructEntries(m: Machine, dump: seq<Word>, level: nat, offset: nat, ghost t: Tree, ghost supply0: seq<Word>)
    returns (buffer: seq<Word>, pgds: seq<Shadow>, last: nat)
    requires t.Node? && WfTree(t, level) && DumpAt(dump, offset, t)
    requires m.Valid() && Count(t) <= |supply0| && m.supply == supply0[1..]
    modifies m
    ensures m.Valid() && last == offset + 513 * (Count(t) - 1)
    ensures Taken(t.kids, PAGE_ENTRIES, supply0, m.supply, pgds)
    ensures Done(t, PAGE_ENTRIES, old(m.mem), buffer, pgds, m.mem)
    decreases t, 0, 1
  {
    ghost var mem1 := m.mem;
    EntriesDumpAt(dump, offset, t, level);
    var old_value := dump[offset + 1..offset + 513];
    buffer, last, pgds := old_value, offset, [];
    assert t.kids[..0] == [] && t.kids[..PAGE_ENTRIES] == t.kids;
    if level == BOTTOM_LEVEL {
      NoKids(t, level);
      pgds := seq(PAGE_ENTRIES, _ => NoShadow);
      NoPages(pgds);
      return;
    }
    for i := 0 to PAGE_ENTRIES
      invariant m.Valid() && last == offset + 513 * CountKids(t.kids[..i])
      invariant Taken(t.kids, i, supply0, m.supply, pgds)
      invariant Done(t, i, mem1, buffer, pgds, m.mem)
    {
      ghost var mem0, supply1 := m.mem, m.supply;
      var word, kid;
      word, kid, last := ConstructSlot(m, dump, level, offset, t, i, last, old_value[i]);
      NextSlot(t, i, supply0, mem1, supply1, buffer, pgds, mem0, m.supply, word, kid, m.mem);
      buffer, pgds := buffer[i := word], pgds + [kid];
    }
  }

  /** One iteration of the entry loop: the new word of slot i and its shadow child. */
  method ConstructSlot(m: Machine, dump: seq<Word>, level: nat, offset: nat, ghost t: Tree, i: nat, last: nat,
                       old_entry: Word)
    returns (word: Word, kid: Shadow, last': nat)
    requires t.Node? && WfTree(t, level) && level < BOTTOM_LEVEL && DumpAt(dump, offset, t)
    requires i < PAGE_ENTRIES && old_entry == t.entries[i] && last == offset + 513 * CountKids(t.kids[..i])
    requires m.Valid() && Count(t) <= 1 + CountKids(t.kids[..i]) + |m.supply|
    modifies m
    ensures m.Valid() && last' == offset + 513 * CountKids(t.kids[..i + 1])
    ensures KidTaken(t.kids[i], old(m.supply), old(m.mem), kid, m.supply, m.mem)
    ensures KidDone(t, i, word, kid, m.mem)
    ensures if level < 3 && old_entry & 3 == 3 then kid.Shadow? && PointsTo(word, old_entry, kid.phys)
            else kid.NoShadow? && word == old_entry
    decreases t, 0, 0
  {
    KidFacts(t, level, i);
    word, kid, last' := old_entry, NoShadow, last;
    if PteIsValid(old_entry, level) {
      ChildDumpAt(dump, offset, t, level, i);
      var next;
      next, last', kid := Construct(m, dump, level + 1, last + 513, t.kids[i]);
      word := Relink(old_entry, next);
      RelinkedPointsTo(old_entry, next);
    }
  }

  /** Slot j of the table under construction is finished. */
  ghost predicate KidDone(t: Tree, j: nat, word: Word, s: Shadow, mem: Mem)
    requires t.Node? && j < |t.kids| && j < |t.entries|
  {
    if t.kids[j].Node? then
      s.Shadow? && word == Relink(t.entries[j], s.phys) && Iso(t.kids[j], s, mem)
    else
      s.NoShadow? && word == t.entries[j]
  }

  lemma KidKept(t: Tree, j: nat, word: Word, s: Shadow, mem: Mem, mem': Mem)
    requires t.Node? && j < |t.kids| && j < |t.entries| && KidDone(t, j, word, s, mem) && Extends(mem, mem')
    ensures KidDone(t, j, word, s, mem')
  {
    if t.kids[j].Node? {
      IsoFrame(t.kids[j], s, mem, mem');
    }
  }

  lemma {:induction false} NoPages(ks: seq<Shadow>)
    requires forall i :: 0 <= i < |ks| ==> ks[i].NoShadow?
    ensures PagesOfKids(ks) == []
    decreases ks
  {
    if ks != [] {
      NoPages(ks[1..]);
    }
  }

  /** The page of the new table is none of its children's pages. */
  lemma PageFresh(supply: seq<Word>, s: Shadow)
    requires NoDup(supply) && s.Shadow? && supply != [] && s.phys == supply[0]
    requires |PagesOfKids(s.pgd)| < |supply| && PagesOfKids(s.pgd) == supply[1..1 + |PagesOfKids(s.pgd)|]
    ensures s.phys !in PagesOfKids(s.pgd)
    ensures Pages(s) == supply[..1 + |PagesOfKids(s.pgd)|]
  {
    var n := |PagesOfKids(s.pgd)|;
    forall j | 0 <= j < n
      ensures PagesOfKids(s.pgd)[j] != s.phys
    {
      assert PagesOfKids(s.pgd)[j] == supply[1 + j];
    }
    assert supply[..1 + n] == [supply[0]] + supply[1..1 + n];
  }

  lemma FinishIso(t: Tree, s: Shadow, buffer: seq<Word>, mem: Mem, mem': Mem)
    requires t.Node? && |t.kids| == |t.entries| == |buffer| == PAGE_ENTRIES
    requires s.Shadow? && |s.pgd| == PAGE_ENTRIES && s.phys !in PagesOfKids(s.pgd)
    requires forall j :: 0 <= j < PAGE_ENTRIES ==> KidDone(t, j, buffer[j], s.pgd[j], mem)
    requires mem' == mem[Frame(s.phys) := Table(buffer)]
    ensures Iso(t, s, mem')
  {
    forall i | 0 <= i < PAGE_ENTRIES
      ensures SlotIso(t, s, mem', i)
    {
      assert KidDone(t, i, buffer[i], s.pgd[i], mem);
      if t.kids[i].Node? {
        forall p | p in Pages(s.pgd[i])
          ensures p != s.phys
        {
          PagesOfChild(s, i, p);
        }
        IsoFrame(t.kids[i], s.pgd[i], mem, mem');
      }
    }
  }

  /**
   gr_pgt_init on any words: all the dump has to do is to go on as far as its words
   say. Each table takes one page, in the order of the dump, and every word of every
   rebuilt table is what the dumped word asks for.
   */
  method InitPgt(m: Machine, dump: seq<Word>) returns (pgd: Word, shadow: Shadow)
    requires EndOf(dump, 0, 0) <= |dump| && m.Valid() && EndOf(dump, 0, 0) <= 513 * |m.supply|
    modifies m
    ensures m.Valid() && shadow.Shadow? && pgd == shadow.phys && Extends(old(m.mem), m.mem)
    ensures Rebuilt(dump, 0, 0, shadow, m.mem, 0, old(m.supply))
    ensures m.supply == old(m.supply)[EndOf(dump, 0, 0) / 513..]
  {
    ghost var t := TreeOf(dump, 0, 0);
    EndOfTree(dump, 0, t, 0);
    var last;
    pgd, last, shadow := Construct(m, dump, 0, 0, t);
  }
}
