/**
 The recorded page table as a tree, its flat dump, and the shadow tree the
 replayer keeps beside the rebuilt table.
 */
module TableTree {
  import opened PteCodec
  import opened PhysMem

  /** One recorded table: the dumped header word, 512 entries, and the child table of each slot. */
  datatype Tree = Absent | Node(header: Word, entries: seq<Word>, kids: seq<Tree>)

  /** struct user_pgtable: NoShadow marks a child slot that was never assigned. */
  datatype Shadow = NoShadow | Shadow(phys: Word, pgd: seq<Shadow>)

  /** Exactly the valid interior entries have a child; no table lies below level 3. */
  ghost predicate WfTree(t: Tree, level: nat)
    decreases t, 1
  {
    t.Node? ==>
      && level <= BOTTOM_LEVEL
      && |t.entries| == PAGE_ENTRIES == |t.kids|
      && WfKids(t.kids, t.entries, level)
  }

  ghost predicate WfKids(ks: seq<Tree>, es: seq<Word>, level: nat)
    decreases ks, 0
  {
    && |ks| == |es|
    && (ks != [] ==>
      && (ks[0].Node? <==> PteIsValid(es[0], level))
      && WfTree(ks[0], level + 1)
      && WfKids(ks[1..], es[1..], level))
  }

  lemma {:induction false} WfKidAt(ks: seq<Tree>, es: seq<Word>, level: nat, i: nat)
    requires WfKids(ks, es, level) && i < |ks|
    ensures (ks[i].Node? <==> PteIsValid(es[i], level)) && WfTree(ks[i], level + 1)
    ensures WfKids(ks[..i], es[..i], level)
    decreases ks
  {
    if i > 0 {
      WfKidAt(ks[1..], es[1..], level, i - 1);
      assert ks[1..][..i - 1] == ks[..i][1..] && es[1..][..i - 1] == es[..i][1..];
    }
  }

  /** Pre-order dump: header, entries, then the children in slot order. */
  function Dump(t: Tree): seq<Word>
    decreases t, 1
  {
    match t
    case Absent => []
    case Node(h, es, ks) => [h] + es + DumpKids(ks)
  }

  function DumpKids(ks: seq<Tree>): seq<Word>
    decreases ks, 0
  {
    if ks == [] then [] else Dump(ks[0]) + DumpKids(ks[1..])
  }

  /** Number of tables. */
  function Count(t: Tree): nat
    decreases t, 1
  {
    match t
    case Absent => 0
    case Node(_, _, ks) => 1 + CountKids(ks)
  }

  function CountKids(ks: seq<Tree>): nat
    decreases ks, 0
  {
    if ks == [] then 0 else Count(ks[0]) + CountKids(ks[1..])
  }

  lemma DumpLength(t: Tree, level: nat)
    requires WfTree(t, level)
    ensures |Dump(t)| == 513 * Count(t)
    decreases t, 1
  {
    if t.Node? {
      DumpKidsLength(t.kids, t.entries, level);
    }
  }

  lemma {:induction false} DumpKidsLength(ks: seq<Tree>, es: seq<Word>, level: nat)
    requires WfKids(ks, es, level)
    ensures |DumpKids(ks)| == 513 * CountKids(ks)
    decreases ks, 0
  {
    if ks != [] {
      DumpLength(ks[0], level + 1);
      DumpKidsLength(ks[1..], es[1..], level);
    }
  }

  /** Dump and count of a child list split at child i. */
  lemma KidsSplit(ks: seq<Tree>, i: nat)
    requires i < |ks|
    ensures DumpKids(ks) == DumpKids(ks[..i]) + Dump(ks[i]) + DumpKids(ks[i + 1..])
    ensures CountKids(ks) == CountKids(ks[..i]) + Count(ks[i]) + CountKids(ks[i + 1..])
    ensures DumpKids(ks[..i + 1]) == DumpKids(ks[..i]) + Dump(ks[i])
    ensures CountKids(ks[..i + 1]) == CountKids(ks[..i]) + Count(ks[i])
  {
    KidsSplitAt(ks, i);
    KidsSplitAt(ks[..i + 1], i);
    assert ks[..i + 1][..i] == ks[..i] && ks[..i + 1][i + 1..] == [];
  }

  lemma {:induction false} KidsSplitAt(ks: seq<Tree>, i: nat)
    requires i < |ks|
    ensures DumpKids(ks) == DumpKids(ks[..i]) + Dump(ks[i]) + DumpKids(ks[i + 1..])
    ensures CountKids(ks) == CountKids(ks[..i]) + Count(ks[i]) + CountKids(ks[i + 1..])
  {
    if i == 0 {
      assert ks[..0] == [];
    } else {
      KidsSplitAt(ks[1..], i - 1);
      assert ks[1..][..i - 1] == ks[..i][1..];
      assert ks[1..][i - 1 + 1..] == ks[i + 1..];
    }
  }

  /** Pages of a shadow tree, in the order in which they were allocated. */
  function Pages(s: Shadow): seq<Word>
    decreases s, 1
  {
    match s
    case NoShadow => []
    case Shadow(p, ks) => [p] + PagesOfKids(ks)
  }

  function PagesOfKids(ks: seq<Shadow>): seq<Word>
    decreases ks, 0
  {
    if ks == [] then [] else Pages(ks[0]) + PagesOfKids(ks[1..])
  }

  lemma PagesSplit(ks: seq<Shadow>, i: nat)
    requires i < |ks|
    ensures PagesOfKids(ks) == PagesOfKids(ks[..i]) + Pages(ks[i]) + PagesOfKids(ks[i + 1..])
    ensures PagesOfKids(ks[..i + 1]) == PagesOfKids(ks[..i]) + Pages(ks[i])
  {
    PagesSplitAt(ks, i);
    PagesSplitAt(ks[..i + 1], i);
    assert ks[..i + 1][..i] == ks[..i] && ks[..i + 1][i + 1..] == [];
  }

  lemma {:induction false} PagesSplitAt(ks: seq<Shadow>, i: nat)
    requires i < |ks|
    ensures PagesOfKids(ks) == PagesOfKids(ks[..i]) + Pages(ks[i]) + PagesOfKids(ks[i + 1..])
  {
    if i == 0 {
      assert ks[..0] == [];
    } else {
      PagesSplitAt(ks[1..], i - 1);
      assert ks[1..][..i - 1] == ks[..i][1..];
      assert ks[1..][i - 1 + 1..] == ks[i + 1..];
    }
  }

  /** A table page is among the pages of every tree above it. */
  lemma PagesOfChild(s: Shadow, i: nat, p: Word)
    requires s.Shadow? && i < |s.pgd| && p in Pages(s.pgd[i])
    ensures p in PagesOfKids(s.pgd) && p in Pages(s)
  {
    PagesSplit(s.pgd, i);
  }

  lemma DumpHead(t: Tree, rest: seq<Word>)
    requires t.Node? && |t.entries| == PAGE_ENTRIES
    ensures var d := Dump(t) + rest;
            |d| >= 513 && d[0] == t.header && d[1..513] == t.entries && d[513..] == DumpKids(t.kids) + rest
  {
    assert Dump(t) + rest == [t.header] + t.entries + (DumpKids(t.kids) + rest);
  }

  lemma DumpKidsHead(ks: seq<Tree>, rest: seq<Word>)
    ensures ks == [] ==> DumpKids(ks) + rest == rest
    ensures ks != [] ==> DumpKids(ks) + rest == Dump(ks[0]) + (DumpKids(ks[1..]) + rest)
    ensures ks != [] && ks[0].Absent? ==> DumpKids(ks) + rest == DumpKids(ks[1..]) + rest
  {
  }

  /** Two trees with the same pre-order dump are the same tree. */
  lemma DumpInjective(t: Tree, t': Tree, level: nat, rest: seq<Word>, rest': seq<Word>)
    requires t.Node? && t'.Node? && WfTree(t, level) && WfTree(t', level)
    requires Dump(t) + rest == Dump(t') + rest'
    ensures t == t' && rest == rest'
    decreases t, 1
  {
    DumpHead(t, rest);
    DumpHead(t', rest');
    DumpKidsInjective(t.kids, t'.kids, t.entries, level, rest, rest');
  }

  lemma {:induction false} DumpKidsInjective(ks: seq<Tree>, ks': seq<Tree>, es: seq<Word>, level: nat, rest: seq<Word>,
                                             rest': seq<Word>)
    requires WfKids(ks, es, level) && WfKids(ks', es, level)
    requires DumpKids(ks) + rest == DumpKids(ks') + rest'
    ensures ks == ks' && rest == rest'
    decreases ks, 0
  {
    DumpKidsHead(ks, rest);
    DumpKidsHead(ks', rest');
    if ks != [] {
      if ks[0].Node? {
        DumpInjective(ks[0], ks'[0], level + 1, DumpKids(ks[1..]) + rest, DumpKids(ks'[1..]) + rest');
      }
      DumpKidsInjective(ks[1..], ks'[1..], es[1..], level, rest, rest');
      assert ks == [ks[0]] + ks[1..] && ks' == [ks'[0]] + ks'[1..];
    }
  }

  /**
   The rebuilt table s in mem is isomorphic to the recorded tree t: a slot with
   a child keeps its low 12 bits and points to that child's new page, every
   other entry is the recorded word.
   */
  ghost predicate Iso(t: Tree, s: Shadow, mem: Mem)
    decreases t
  {
    && t.Node? && s.Shadow? && IsTable(mem, s.phys)
    && |t.entries| == PAGE_ENTRIES && |t.kids| == PAGE_ENTRIES && |s.pgd| == PAGE_ENTRIES
    && forall i :: 0 <= i < PAGE_ENTRIES ==> SlotIso(t, s, mem, i)
  }

  ghost predicate SlotIso(t: Tree, s: Shadow, mem: Mem, i: nat)
    requires t.Node? && s.Shadow? && IsTable(mem, s.phys)
    requires i < PAGE_ENTRIES && |t.entries| == PAGE_ENTRIES && |t.kids| == PAGE_ENTRIES && |s.pgd| == PAGE_ENTRIES
    decreases t, 0
  {
    var w := mem[Frame(s.phys)].words[i];
    if t.kids[i].Node? then
      && s.pgd[i].Shadow?
      && w == Relink(t.entries[i], s.pgd[i].phys)
      && Iso(t.kids[i], s.pgd[i], mem)
    else
      s.pgd[i].NoShadow? && w == t.entries[i]
  }

  /** Isomorphism depends on the shadow tree's own pages only. */
  lemma {:induction false} IsoFrame(t: Tree, s: Shadow, mem: Mem, mem': Mem)
    requires Iso(t, s, mem) && AgreeOn(mem, mem', Pages(s))
    ensures Iso(t, s, mem')
    decreases t
  {
    forall i | 0 <= i < PAGE_ENTRIES
      ensures IsTable(mem', s.phys) && SlotIso(t, s, mem', i)
    {
      assert s.phys in Pages(s);
      assert SlotIso(t, s, mem, i);
      if t.kids[i].Node? {
        forall p | p in Pages(s.pgd[i])
          ensures p in Pages(s)
        {
          PagesOfChild(s, i, p);
        }
        IsoFrame(t.kids[i], s.pgd[i], mem, mem');
      }
    }
  }
}
