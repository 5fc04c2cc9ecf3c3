/**
 The words of a table dump: where each table starts, which entries name a table,
 and what they ask to be rebuilt.
 */
module TableDump {
  import opened PteCodec
  import opened PhysMem
  import opened TableTree

  /** The dump holds the tree t at word offset. */
  ghost predicate DumpAt(dump: seq<Word>, offset: nat, t: Tree) {
    offset + |Dump(t)| <= |dump| && dump[offset..offset + |Dump(t)|] == Dump(t)
  }

  lemma SliceOfConcat<T>(a: seq<T>, b: seq<T>, c: seq<T>)
    ensures (a + b + c)[|a|..|a| + |b|] == b
  {
  }

  lemma SliceOfSlice<T>(d: seq<T>, lo: nat, hi: nat, i: nat, j: nat)
    requires lo <= hi <= |d| && i <= j <= hi - lo
    ensures d[lo..hi][i..j] == d[lo + i..lo + j]
  {
    forall k | 0 <= k < j - i
      ensures d[lo..hi][i..j][k] == d[lo + i..lo + j][k]
    {
    }
  }

  /** A part of what is dumped at offset is dumped at the matching later offset. */
  lemma PartDumped<T>(dump: seq<T>, offset: nat, whole: seq<T>, a: seq<T>, b: seq<T>, c: seq<T>)
    requires offset + |whole| <= |dump| && dump[offset..offset + |whole|] == whole
    requires whole == a + b + c
    ensures dump[offset + |a|..offset + |a| + |b|] == b
  {
    SliceOfConcat(a, b, c);
    SliceOfSlice(dump, offset, offset + |whole|, |a|, |a| + |b|);
  }

  /** Child i of a table dumped at offset starts after the children before it. */
  lemma ChildDumpAt(dump: seq<Word>, offset: nat, t: Tree, level: nat, i: nat)
    requires t.Node? && WfTree(t, level) && DumpAt(dump, offset, t) && i < PAGE_ENTRIES
    ensures DumpAt(dump, offset + 513 * (1 + CountKids(t.kids[..i])), t.kids[i])
  {
    assert |DumpKids(t.kids[..i])| == 513 * CountKids(t.kids[..i]) by {
      WfKidAt(t.kids, t.entries, level, i);
      DumpKidsLength(t.kids[..i], t.entries[..i], level);
    }
    KidDumpAt(dump, offset, t, i);
  }

  lemma KidDumpAt(dump: seq<Word>, offset: nat, t: Tree, i: nat)
    requires t.Node? && |t.entries| == PAGE_ENTRIES && i < |t.kids| && DumpAt(dump, offset, t)
    ensures DumpAt(dump, offset + 513 + |DumpKids(t.kids[..i])|, t.kids[i])
  {
    var head := [t.header] + t.entries;
    assert Dump(t) == head + DumpKids(t.kids) + [];
    PartDumped(dump, offset, Dump(t), head, DumpKids(t.kids), []);
    KidsSplit(t.kids, i);
    PartDumped(dump, offset + 513, DumpKids(t.kids), DumpKids(t.kids[..i]), Dump(t.kids[i]), DumpKids(t.kids[i + 1..]));
  }

  lemma EntriesDumpAt(dump: seq<Word>, offset: nat, t: Tree, level: nat)
    requires t.Node? && WfTree(t, level) && DumpAt(dump, offset, t)
    ensures offset + 513 <= |dump| && dump[offset + 1..offset + 513] == t.entries
  {
    PartDumped(dump, offset, Dump(t), [t.header], t.entries, DumpKids(t.kids));
  }

  lemma KidFacts(t: Tree, level: nat, i: nat)
    requires t.Node? && WfTree(t, level) && i < PAGE_ENTRIES
    ensures WfTree(t.kids[i], level + 1) && (t.kids[i].Node? <==> PteIsValid(t.entries[i], level))
    ensures CountKids(t.kids[..i + 1]) == CountKids(t.kids[..i]) + Count(t.kids[i])
    ensures 1 + CountKids(t.kids[..i + 1]) <= Count(t)
  {
    WfKidAt(t.kids, t.entries, level, i);
    KidsSplit(t.kids, i);
  }

  lemma {:induction false} NoneCounted(ks: seq<Tree>)
    requires forall i :: 0 <= i < |ks| ==> ks[i].Absent?
    ensures CountKids(ks) == 0
    decreases ks
  {
    if ks != [] {
      NoneCounted(ks[1..]);
    }
  }

  /** A bottom-level table has no children. */
  lemma NoKids(t: Tree, level: nat)
    requires t.Node? && WfTree(t, level) && level == BOTTOM_LEVEL
    ensures CountKids(t.kids) == 0 && forall i :: 0 <= i < PAGE_ENTRIES ==> t.kids[i].Absent?
  {
    forall i | 0 <= i < PAGE_ENTRIES
      ensures t.kids[i].Absent?
    {
      WfKidAt(t.kids, t.entries, level, i);
    }
    NoneCounted(t.kids);
  }

  /**
   Where the child of slot i of the table at offset starts, read off the dump alone:
   behind the table and everything below its earlier slots. Slot i - 1 is the word
   at offset + i, after the header.
   */
  function ChildOffset(dump: seq<Word>, offset: nat, level: nat, i: nat): (at: nat)
    requires level <= 3 && i <= 512
    ensures at >= offset + 513
    decreases 3 - level, i
  {
    if i == 0 then offset + 513
    else
      var at := ChildOffset(dump, offset, level, i - 1);
      if level < 3 && offset + i < |dump| && dump[offset + i] & 3 == 3 then ChildOffset(dump, at, level + 1, 512)
      else at
  }

  /** Where the dump goes on after the table at offset and everything below it. */
  function EndOf(dump: seq<Word>, offset: nat, level: nat): nat
    requires level <= 3
  {
    ChildOffset(dump, offset, level, 512)
  }

  /**
   The table dumped at offset and everything below it, rebuilt as s: its page is the
   one the supply has for the table's place in the dump, counted from base. A word of
   type 3 above level 3 keeps its low twelve bits and points to the child's page; every
   other word is the dumped one.
   */
  ghost predicate Rebuilt(dump: seq<Word>, offset: nat, level: nat, s: Shadow, mem: Mem, base: nat, supply: seq<Word>)
    decreases s
  {
    && s.Shadow? && |s.pgd| == 512 && level <= 3 && offset + 513 <= |dump|
    && base <= offset && (offset - base) / 513 < |supply| && s.phys == supply[(offset - base) / 513]
    && IsTable(mem, s.phys)
    && forall i :: 0 <= i < 512 ==> SlotRebuilt(dump, offset, level, s, mem, base, supply, i)
  }

  ghost predicate SlotRebuilt(dump: seq<Word>, offset: nat, level: nat, s: Shadow, mem: Mem, base: nat,
                              supply: seq<Word>, i: nat)
    requires s.Shadow? && |s.pgd| == 512 && level <= 3 && offset + 513 <= |dump| && IsTable(mem, s.phys) && i < 512
    decreases s, 0
  {
    var e, w, kid := dump[offset + 1 + i], mem[Frame(s.phys)].words[i], s.pgd[i];
    if level < 3 && e & 3 == 3 then
      && kid.Shadow? && PointsTo(w, e, kid.phys)
      && Rebuilt(dump, ChildOffset(dump, offset, level, i), level + 1, kid, mem, base, supply)
    else kid.NoShadow? && w == e
  }

  /** The dumped words tell which slots have a child. */
  lemma NextOffset(dump: seq<Word>, offset: nat, t: Tree, level: nat, i: nat)
    requires t.Node? && WfTree(t, level) && DumpAt(dump, offset, t) && i < 512
    ensures offset + 513 <= |dump| && dump[offset + 1 + i] == t.entries[i]
    ensures t.kids[i].Node? <==> level < 3 && dump[offset + 1 + i] & 3 == 3
    ensures ChildOffset(dump, offset, level, i + 1) ==
      if t.kids[i].Node? then EndOf(dump, ChildOffset(dump, offset, level, i), level + 1)
      else ChildOffset(dump, offset, level, i)
  {
    EntriesDumpAt(dump, offset, t, level);
    WfKidAt(t.kids, t.entries, level, i);
    assert dump[offset + 1 + i] == dump[offset + 1..offset + 513][i];
  }

  /** The children of a dumped tree are where the dump's words put them. */
  lemma {:induction false} OffsetsOf(dump: seq<Word>, offset: nat, t: Tree, level: nat, i: nat)
    requires t.Node? && WfTree(t, level) && DumpAt(dump, offset, t) && i <= 512
    ensures ChildOffset(dump, offset, level, i) == offset + 513 * (1 + CountKids(t.kids[..i]))
    decreases 3 - level, i
  {
    if i == 0 {
      NoneBefore(t.kids);
    } else {
      OffsetsOf(dump, offset, t, level, i - 1);
      CountNext(t, level, i - 1);
      WfKidAt(t.kids, t.entries, level, i - 1);
      var at := ChildOffset(dump, offset, level, i - 1);
      if t.kids[i - 1].Node? {
        EndOfKid(dump, offset, t, level, i - 1, at);
      }
      OffsetStep(dump, offset, t, level, i - 1, at);
    }
  }

  lemma {:induction false} EndOfKid(dump: seq<Word>, offset: nat, t: Tree, level: nat, i: nat, at: nat)
    requires t.Node? && WfTree(t, level) && DumpAt(dump, offset, t) && i < 512 && t.kids[i].Node? && level < 3
    requires at == offset + 513 * (1 + CountKids(t.kids[..i]))
    ensures EndOf(dump, at, level + 1) == at + 513 * Count(t.kids[i])
    decreases 3 - level, i
  {
    ChildDumpAt(dump, offset, t, level, i);
    WfKidAt(t.kids, t.entries, level, i);
    EndOfTree(dump, at, t.kids[i], level + 1);
  }

  lemma OffsetStep(dump: seq<Word>, offset: nat, t: Tree, level: nat, i: nat, at: nat)
    requires t.Node? && WfTree(t, level) && DumpAt(dump, offset, t) && i < 512
    requires at == ChildOffset(dump, offset, level, i)
    requires level < 3 && t.kids[i].Node? ==> EndOf(dump, at, level + 1) == at + 513 * Count(t.kids[i])
    ensures ChildOffset(dump, offset, level, i + 1) == at + 513 * Count(t.kids[i])
  {
    NextOffset(dump, offset, t, level, i);
  }

  lemma NoneBefore(ks: seq<Tree>)
    ensures CountKids(ks[..0]) == 0
  {
  }

  lemma CountNext(t: Tree, level: nat, i: nat)
    requires t.Node? && WfTree(t, level) && i < 512
    ensures WfTree(t.kids[i], level + 1)
    ensures CountKids(t.kids[..i + 1]) == CountKids(t.kids[..i]) + Count(t.kids[i])
    ensures t.kids[i].Absent? ==> Count(t.kids[i]) == 0
  {
    KidFacts(t, level, i);
  }

  lemma {:induction false} EndOfTree(dump: seq<Word>, offset: nat, t: Tree, level: nat)
    requires t.Node? && WfTree(t, level) && DumpAt(dump, offset, t)
    ensures EndOf(dump, offset, level) == offset + 513 * Count(t)
    decreases 3 - level, 513
  {
    OffsetsOf(dump, offset, t, level, 512);
    assert t.kids[..512] == t.kids;
  }

  /** An isomorphic tree has as many pages as there are tables, child by child. */
  lemma {:induction false} IsoCounts(t: Tree, s: Shadow, mem: Mem, i: nat)
    requires Iso(t, s, mem) && i <= 512
    ensures |PagesOfKids(s.pgd[..i])| == CountKids(t.kids[..i])
    decreases t, i
  {
    if i == 0 {
      assert s.pgd[..0] == [] && t.kids[..0] == [];
    } else {
      IsoCounts(t, s, mem, i - 1);
      KidCount(t, s, mem, i - 1);
      PrefixCounts(t.kids, s.pgd, i - 1);
    }
  }

  lemma {:induction false} KidCount(t: Tree, s: Shadow, mem: Mem, i: nat)
    requires Iso(t, s, mem) && i < 512
    ensures |Pages(s.pgd[i])| == Count(t.kids[i])
    decreases t, i
  {
    assert SlotIso(t, s, mem, i);
    if t.kids[i].Node? {
      var kid, table := t.kids[i], s.pgd[i];
      IsoCounts(kid, table, mem, 512);
      assert kid.kids[..512] == kid.kids && table.pgd[..512] == table.pgd;
    }
  }

  lemma PrefixCounts(ts: seq<Tree>, ss: seq<Shadow>, i: nat)
    requires i < |ts| && i < |ss|
    ensures |PagesOfKids(ss[..i + 1])| == |PagesOfKids(ss[..i])| + |Pages(ss[i])|
    ensures CountKids(ts[..i + 1]) == CountKids(ts[..i]) + Count(ts[i])
  {
    PagesSplit(ss, i);
    KidsSplit(ts, i);
  }

  lemma ChildPages(t: Tree, s: Shadow, mem: Mem, supply: seq<Word>, n: nat, i: nat)
    requires Iso(t, s, mem) && i < 512 && n + Count(t) <= |supply| && Pages(s) == supply[n..n + Count(t)]
    ensures var k, c := n + 1 + CountKids(t.kids[..i]), |Pages(s.pgd[i])|;
            k + c <= n + Count(t) && Pages(s.pgd[i]) == supply[k..k + c] && c == Count(t.kids[i])
  {
    IsoCounts(t, s, mem, i);
    KidCount(t, s, mem, i);
    PagesAround(s, i);
    PartOf(supply, n, n + Count(t), [s.phys] + PagesOfKids(s.pgd[..i]), Pages(s.pgd[i]), PagesOfKids(s.pgd[i + 1..]));
  }

  lemma PagesAround(s: Shadow, i: nat)
    requires s.Shadow? && i < |s.pgd|
    ensures Pages(s) == [s.phys] + PagesOfKids(s.pgd[..i]) + Pages(s.pgd[i]) + PagesOfKids(s.pgd[i + 1..])
  {
    PagesSplit(s.pgd, i);
  }

  lemma PartOf<T>(d: seq<T>, lo: nat, hi: nat, a: seq<T>, b: seq<T>, c: seq<T>)
    requires lo <= hi <= |d| && d[lo..hi] == a + b + c
    ensures lo + |a| + |b| <= hi && d[lo + |a|..lo + |a| + |b|] == b
  {
    SliceOfConcat(a, b, c);
    SliceOfSlice(d, lo, hi, |a|, |a| + |b|);
  }

  /** A tree isomorphic to the dumped one, in the supply's pages, is what the dump's words ask for. */
  lemma {:induction false} IsoRebuilt(dump: seq<Word>, offset: nat, level: nat, t: Tree, s: Shadow, mem: Mem, base: nat,
                                      supply: seq<Word>, n: nat)
    requires t.Node? && WfTree(t, level) && DumpAt(dump, offset, t) && Iso(t, s, mem)
    requires offset == base + 513 * n && n + Count(t) <= |supply| && Pages(s) == supply[n..n + Count(t)]
    requires forall p :: p in Pages(s) ==> PageAddr(p)
    ensures Rebuilt(dump, offset, level, s, mem, base, supply)
    decreases t
  {
    FirstPage(s, supply, n, n + Count(t));
    EntriesDumpAt(dump, offset, t, level);
    forall i | 0 <= i < 512
      ensures SlotRebuilt(dump, offset, level, s, mem, base, supply, i)
    {
      NextOffset(dump, offset, t, level, i);
      assert SlotIso(t, s, mem, i);
      if t.kids[i].Node? {
        ChildWord(t, s, mem, i);
        ChildIso(t, s, mem, i);
        var at, k := ChildOffset(dump, offset, level, i), n + 1 + CountKids(t.kids[..i]);
        ChildReady(dump, offset, level, t, s, mem, supply, n, i, t.kids[i], s.pgd[i], at, k);
        IsoRebuilt(dump, at, level + 1, t.kids[i], s.pgd[i], mem, base, supply, k);
      }
    }
  }

  /** The child of slot i is dumped at, and takes its pages from, where the dump's words say. */
  lemma ChildReady(dump: seq<Word>, offset: nat, level: nat, t: Tree, s: Shadow, mem: Mem, supply: seq<Word>, n: nat,
                   i: nat, kid: Tree, table: Shadow, at: nat, k: nat)
    requires t.Node? && WfTree(t, level) && DumpAt(dump, offset, t) && Iso(t, s, mem) && i < 512
    requires n + Count(t) <= |supply| && Pages(s) == supply[n..n + Count(t)]
    requires kid == t.kids[i] && table == s.pgd[i] && at == ChildOffset(dump, offset, level, i)
    requires k == n + 1 + CountKids(t.kids[..i])
    ensures at == offset + 513 * (k - n) && DumpAt(dump, at, kid) && WfTree(kid, level + 1)
    ensures k + Count(kid) <= |supply| && Pages(table) == supply[k..k + Count(kid)]
  {
    ChildPlace(dump, offset, level, t, i);
    ChildPages(t, s, mem, supply, n, i);
  }

  lemma FirstPage(s: Shadow, supply: seq<Word>, lo: nat, hi: nat)
    requires s.Shadow? && lo < hi <= |supply| && Pages(s) == supply[lo..hi]
    ensures s.phys == supply[lo] && 513 * lo / 513 == lo
  {
    assert s.phys == Pages(s)[0];
  }

  /** Where the child of slot i is dumped. */
  lemma ChildPlace(dump: seq<Word>, offset: nat, level: nat, t: Tree, i: nat)
    requires t.Node? && WfTree(t, level) && DumpAt(dump, offset, t) && i < 512
    ensures var at := ChildOffset(dump, offset, level, i);
            && at == offset + 513 * (1 + CountKids(t.kids[..i])) && DumpAt(dump, at, t.kids[i])
            && WfTree(t.kids[i], level + 1)
  {
    WfKidAt(t.kids, t.entries, level, i);
    ChildDumpAt(dump, offset, t, level, i);
    OffsetsOf(dump, offset, t, level, i);
  }

  lemma ChildIso(t: Tree, s: Shadow, mem: Mem, i: nat)
    requires Iso(t, s, mem) && i < 512 && t.kids[i].Node? && forall p :: p in Pages(s) ==> PageAddr(p)
    ensures Iso(t.kids[i], s.pgd[i], mem) && forall p :: p in Pages(s.pgd[i]) ==> PageAddr(p)
  {
    assert SlotIso(t, s, mem, i);
    forall p | p in Pages(s.pgd[i])
      ensures p in Pages(s)
    {
      PagesOfChild(s, i, p);
    }
  }

  /** The word of a slot with a child. */
  lemma ChildWord(t: Tree, s: Shadow, mem: Mem, i: nat)
    requires Iso(t, s, mem) && i < 512 && t.kids[i].Node? && forall p :: p in Pages(s) ==> PageAddr(p)
    ensures s.pgd[i].Shadow? && PointsTo(mem[Frame(s.phys)].words[i], t.entries[i], s.pgd[i].phys)
  {
    assert SlotIso(t, s, mem, i);
    PagesOfChild(s, i, s.pgd[i].phys);
    RelinkedPointsTo(t.entries[i], s.pgd[i].phys);
  }

  lemma {:induction false} OffsetsGrow(dump: seq<Word>, offset: nat, level: nat, i: nat, j: nat)
    requires level <= 3 && i <= j <= 512
    ensures ChildOffset(dump, offset, level, i) <= ChildOffset(dump, offset, level, j)
    decreases j
  {
    if i < j {
      OffsetsGrow(dump, offset, level, i, j - 1);
    }
  }

  /** The dump has the first i children of the table at offset where its words put them. */
  ghost predicate KidsRead(dump: seq<Word>, offset: nat, level: nat, ks: seq<Tree>)
    requires level <= 3 && offset + 513 <= |dump| && |ks| <= 512
  {
    var end := ChildOffset(dump, offset, level, |ks|);
    && end <= |dump| && WfKids(ks, dump[offset + 1..offset + 1 + |ks|], level)
    && dump[offset + 513..end] == DumpKids(ks)
  }

  lemma {:induction false} WfKidsAppend(ks: seq<Tree>, es: seq<Word>, level: nat, k: Tree, e: Word)
    requires WfKids(ks, es, level) && (k.Node? <==> PteIsValid(e, level)) && WfTree(k, level + 1)
    ensures WfKids(ks + [k], es + [e], level)
    decreases ks
  {
    if ks == [] {
      assert [k][1..] == [] && [e][1..] == [];
      assert ks + [k] == [k] && es + [e] == [e];
    } else {
      WfKidsAppend(ks[1..], es[1..], level, k, e);
      assert (ks + [k])[1..] == ks[1..] + [k] && (es + [e])[1..] == es[1..] + [e];
    }
  }

  lemma DumpKidsAppend(ks: seq<Tree>, k: Tree)
    ensures DumpKids(ks + [k]) == DumpKids(ks) + Dump(k)
  {
    KidsSplit(ks + [k], |ks|);
    assert (ks + [k])[..|ks|] == ks && (ks + [k])[|ks| + 1..] == [];
  }

  lemma SliceJoin<T>(d: seq<T>, a: nat, b: nat, c: nat)
    requires a <= b <= c <= |d|
    ensures d[a..b] + d[b..c] == d[a..c]
  {
  }

  lemma SliceNext<T>(d: seq<T>, a: nat, b: nat)
    requires a <= b < |d|
    ensures d[a..b] + [d[b]] == d[a..b + 1] && (a == b ==> d[a..b + 1] == [d[b]])
  {
  }

  /** What slot i makes of the dump: a child where its word names a table, else nothing. */
  ghost predicate KidAt(dump: seq<Word>, offset: nat, level: nat, i: nat, k: Tree)
    requires level <= 3 && offset + 513 <= |dump| && i < 512
  {
    if level < 3 && dump[offset + 1 + i] & 3 == 3 then
      k.Node? && WfTree(k, level + 1) && DumpAt(dump, ChildOffset(dump, offset, level, i), k)
    else k.Absent?
  }

  lemma KidEnds(dump: seq<Word>, offset: nat, level: nat, i: nat, k: Tree)
    requires level <= 3 && offset + 513 <= |dump| && i < 512 && KidAt(dump, offset, level, i, k)
    ensures var at, end := ChildOffset(dump, offset, level, i), ChildOffset(dump, offset, level, i + 1);
            at <= end && (end <= |dump| ==> dump[at..end] == Dump(k))
    ensures (k.Node? <==> PteIsValid(dump[offset + 1 + i], level)) && WfTree(k, level + 1)
  {
    if k.Node? {
      EndOfTree(dump, ChildOffset(dump, offset, level, i), k, level + 1);
      DumpLength(k, level + 1);
    }
  }

  lemma NextKidRead(dump: seq<Word>, offset: nat, level: nat, ks: seq<Tree>, k: Tree, i: nat, at: nat, end: nat)
    requires level <= 3 && offset + 513 <= |dump| && i == |ks| < 512 && KidsRead(dump, offset, level, ks)
    requires at == ChildOffset(dump, offset, level, i) && end == ChildOffset(dump, offset, level, i + 1)
    requires at <= end <= |dump| && dump[at..end] == Dump(k)
    requires (k.Node? <==> PteIsValid(dump[offset + 1 + i], level)) && WfTree(k, level + 1)
    ensures KidsRead(dump, offset, level, ks + [k])
  {
    NextWords(dump, offset, level, ks, k, i);
    NextDump(dump, offset, level, ks, k, i);
    ReadUpTo(dump, offset, level, ks + [k], i + 1);
  }

  lemma KidRead(dump: seq<Word>, offset: nat, level: nat, ks: seq<Tree>, k: Tree, i: nat)
    requires level <= 3 && offset + 513 <= |dump| && i == |ks| < 512 && KidsRead(dump, offset, level, ks)
    requires ChildOffset(dump, offset, level, i + 1) <= |dump| && KidAt(dump, offset, level, i, k)
    ensures KidsRead(dump, offset, level, ks + [k])
  {
    KidEnds(dump, offset, level, i, k);
    NextKidRead(dump, offset, level, ks, k, i, ChildOffset(dump, offset, level, i),
      ChildOffset(dump, offset, level, i + 1));
  }

  lemma ReadUpTo(dump: seq<Word>, offset: nat, level: nat, ks: seq<Tree>, n: nat)
    requires level <= 3 && offset + 513 <= |dump| && n == |ks| <= 512 && ChildOffset(dump, offset, level, n) <= |dump|
    requires WfKids(ks, dump[offset + 1..offset + 1 + n], level)
    requires dump[offset + 513..ChildOffset(dump, offset, level, n)] == DumpKids(ks)
    ensures KidsRead(dump, offset, level, ks)
  {
  }

  lemma NextWords(dump: seq<Word>, offset: nat, level: nat, ks: seq<Tree>, k: Tree, i: nat)
    requires offset + 513 <= |dump| && i == |ks| < 512 && WfKids(ks, dump[offset + 1..offset + 1 + i], level)
    requires (k.Node? <==> PteIsValid(dump[offset + 1 + i], level)) && WfTree(k, level + 1)
    ensures WfKids(ks + [k], dump[offset + 1..offset + 1 + (i + 1)], level)
  {
    WfKidsAppend(ks, dump[offset + 1..offset + 1 + i], level, k, dump[offset + 1 + i]);
    SliceNext(dump, offset + 1, offset + 1 + i);
  }

  lemma NextDump(dump: seq<Word>, offset: nat, level: nat, ks: seq<Tree>, k: Tree, i: nat)
    requires level <= 3 && offset + 513 <= |dump| && i == |ks| < 512
    requires var at, end := ChildOffset(dump, offset, level, i), ChildOffset(dump, offset, level, i + 1);
             at <= end <= |dump| && dump[offset + 513..at] == DumpKids(ks) && dump[at..end] == Dump(k)
    ensures dump[offset + 513..ChildOffset(dump, offset, level, i + 1)] == DumpKids(ks + [k])
  {
    DumpKidsAppend(ks, k);
    SliceJoin(dump, offset + 513, ChildOffset(dump, offset, level, i), ChildOffset(dump, offset, level, i + 1));
  }

  lemma TableRead(dump: seq<Word>, offset: nat, level: nat, ks: seq<Tree>) returns (t: Tree)
    requires level <= 3 && offset + 513 <= |dump| && |ks| == 512 && KidsRead(dump, offset, level, ks)
    ensures t.Node? && WfTree(t, level) && DumpAt(dump, offset, t)
  {
    t := Node(dump[offset], dump[offset + 1..offset + 513], ks);
    SliceNext(dump, offset, offset);
    SliceJoin(dump, offset, offset + 1, offset + 513);
    SliceJoin(dump, offset, offset + 513, EndOf(dump, offset, level));
  }

  /** Every dump that is long enough for what its words name is the dump of a tree. */
  lemma {:induction false} TreeOf(dump: seq<Word>, offset: nat, level: nat) returns (t: Tree)
    requires level <= 3 && EndOf(dump, offset, level) <= |dump|
    ensures t.Node? && WfTree(t, level) && DumpAt(dump, offset, t)
    decreases 3 - level, 513
  {
    var ks := KidsOf(dump, offset, level, 512);
    t := TableRead(dump, offset, level, ks);
  }

  lemma {:induction false} KidsOf(dump: seq<Word>, offset: nat, level: nat, i: nat) returns (ks: seq<Tree>)
    requires level <= 3 && i <= 512 && offset + 513 <= |dump| && ChildOffset(dump, offset, level, i) <= |dump|
    ensures |ks| == i && KidsRead(dump, offset, level, ks)
    decreases 3 - level, i
  {
    if i == 0 {
      ks := [];
    } else {
      OffsetsGrow(dump, offset, level, i - 1, i);
      ks := KidsOf(dump, offset, level, i - 1);
      var k := Absent;
      if level < 3 && dump[offset + i] & 3 == 3 {
        k := TreeOf(dump, ChildOffset(dump, offset, level, i - 1), level + 1);
      }
      KidRead(dump, offset, level, ks, k, i - 1);
      ks := ks + [k];
    }
  }
}
