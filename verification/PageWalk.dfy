/**
 The two page-table walkers of gr_mem.c: through the shadow tree and through
 the physical tables, and why they agree.
 */
module PageWalk {
  import opened Collections
  import opened PteCodec
  import opened PhysMem
  import opened TableTree

  /** 512 raised to 3 - level: pages covered by one entry of a table at level. */
  function Span(level: nat): nat
    requires level <= BOTTOM_LEVEL
  {
    if level == 3 then 1 else if level == 2 then 512 else if level == 1 then 262144 else 134217728
  }

  /** Slot of va in its level-l table: nine bits of the page frame number. */
  function Index(va: nat, level: nat): (i: nat)
    requires level <= BOTTOM_LEVEL
    ensures i < PAGE_ENTRIES
  {
    va / PAGE_SIZE / Span(level) % PAGE_ENTRIES
  }

  /**
   The shadow table reached from s (a table at level l) at the given level;
   NoShadow if a slot on the way is unassigned.
   */
  function ShadowWalk(s: Shadow, va: nat, l: nat, level: nat): Shadow
    requires l <= level <= BOTTOM_LEVEL
    decreases level - l
  {
    if l == level || s.NoShadow? || |s.pgd| != PAGE_ENTRIES then s
    else ShadowWalk(s.pgd[Index(va, l)], va, l + 1, level)
  }

  /**
   The table page reached in memory. None if the walk meets a zero table address,
   where the walker exits (see HwExits), or a page that holds no table here: an entry
   left verbatim names a page of the recording, which the walker maps and reads all
   the same, and the model stops there.
   */
  function HwWalk(mem: Mem, pgd: Word, va: nat, l: nat, level: nat): Option<Word>
    requires l <= level <= BOTTOM_LEVEL
    decreases level - l
  {
    if l == level then Some(pgd)
    else if !IsTable(mem, pgd) then None
    else
      var next := PteToPhysAddr(mem[Frame(pgd)].words[Index(va, l)]);
      if next == 0 then None else HwWalk(mem, next, va, l + 1, level)
  }

  /** The walk meets a zero table address. */
  predicate HwExits(mem: Mem, pgd: Word, va: nat, l: nat, level: nat)
    requires l <= level <= BOTTOM_LEVEL
    decreases level - l
  {
    l < level && IsTable(mem, pgd) &&
    var next := PteToPhysAddr(mem[Frame(pgd)].words[Index(va, l)]);
    next == 0 || HwExits(mem, next, va, l + 1, level)
  }

  /** Nine bits of the address a level, from bit 39 down. */
  lemma IndexBits(va: nat)
    ensures Index(va, 0) == va / 0x80_0000_0000 % 512
    ensures Index(va, 1) == va / 0x4000_0000 % 512
    ensures Index(va, 2) == va / 0x20_0000 % 512
    ensures Index(va, 3) == va / 0x1000 % 512
  {
    FrameOver(va, 134217728);
    FrameOver(va, 262144);
    FrameOver(va, 512);
  }

  lemma FrameOver(va: nat, span: nat)
    requires span == 512 || span == 262144 || span == 134217728
    ensures va / 4096 / span == va / (4096 * span)
  {
  }

  /** Word i of the table at p is w. */
  predicate Entry(mem: Mem, p: Word, i: nat, w: Word) {
    i < PAGE_ENTRIES && IsTable(mem, p) && mem[Frame(p)].words[i] == w
  }

  /** p is the address the word w names: its low twelve bits and bit 54 do not count. */
  predicate Names(w: Word, p: Word) {
    p == w & 0xFFBF_FFFF_FFFF_F000
  }

  lemma NamesDecoded(w: Word, p: Word)
    requires Names(w, p)
    ensures p == PteToPhysAddr(w)
  {
    DecodeMask(w);
  }

  /**
   The walk of the hardware's tables word by word, for any memory: it exits at the
   first of its three words that names address zero, and otherwise reaches the table
   the third one names.
   */
  lemma WalkSpelledOut(mem: Mem, pgd: Word, va: nat, w0: Word, w1: Word, w2: Word, p0: Word, p1: Word, p2: Word)
    requires Names(w0, p0) && Names(w1, p1) && Names(w2, p2)
    requires Entry(mem, pgd, va / 0x80_0000_0000 % 512, w0)
    requires p0 != 0 ==> Entry(mem, p0, va / 0x4000_0000 % 512, w1)
    requires p0 != 0 && p1 != 0 ==> Entry(mem, p1, va / 0x20_0000 % 512, w2)
    ensures if p0 == 0 || p1 == 0 || p2 == 0 then HwWalk(mem, pgd, va, 0, 3).None? && HwExits(mem, pgd, va, 0, 3)
            else HwWalk(mem, pgd, va, 0, 3) == Some(p2) && !HwExits(mem, pgd, va, 0, 3)
  {
    NamesDecoded(w0, p0);
    NamesDecoded(w1, p1);
    NamesDecoded(w2, p2);
    IndexBits(va);
    WalkWords(mem, pgd, va, w0, w1, w2, p0, p1, p2, 0, 3);
  }

  lemma WalkWords(mem: Mem, pgd: Word, va: nat, w0: Word, w1: Word, w2: Word, p0: Word, p1: Word, p2: Word, l: nat,
                  level: nat)
    requires l == 0 && level == 3 && p0 == PteToPhysAddr(w0) && p1 == PteToPhysAddr(w1) && p2 == PteToPhysAddr(w2)
    requires Entry(mem, pgd, Index(va, l), w0)
    requires p0 != 0 ==> Entry(mem, p0, Index(va, l + 1), w1)
    requires p0 != 0 && p1 != 0 ==> Entry(mem, p1, Index(va, l + 2), w2)
    ensures if p0 == 0 || p1 == 0 || p2 == 0
            then HwWalk(mem, pgd, va, l, level).None? && HwExits(mem, pgd, va, l, level)
            else HwWalk(mem, pgd, va, l, level) == Some(p2) && !HwExits(mem, pgd, va, l, level)
  {
    WalkStep(mem, pgd, va, l, level, w0, p0);
    if p0 != 0 {
      WalkStep(mem, p0, va, l + 1, level, w1, p1);
      if p1 != 0 {
        WalkStep(mem, p1, va, l + 2, level, w2, p2);
      }
    }
  }

  /** One word of the walk. */
  lemma WalkStep(mem: Mem, p: Word, va: nat, l: nat, level: nat, w: Word, next: Word)
    requires l < level <= 3 && Entry(mem, p, Index(va, l), w) && next == PteToPhysAddr(w)
    ensures next == 0 ==> HwWalk(mem, p, va, l, level).None? && HwExits(mem, p, va, l, level)
    ensures next != 0 ==> HwWalk(mem, p, va, l, level) == HwWalk(mem, next, va, l + 1, level)
    ensures next != 0 ==> HwExits(mem, p, va, l, level) == HwExits(mem, next, va, l + 1, level)
  {
  }

  /**
   gr_get_user_pgd_at_level. NoShadow is an unassigned slot on the way: the nodes are
   not cleared when they are allocated, so the code's test for NULL there, and its
   abort, depend on what the memory happens to hold. The model stops there.
   */
  method UserPgdAtLevel(root: Shadow, va: nat, level: nat) returns (current: Shadow)
    requires level <= BOTTOM_LEVEL && root.Shadow? && WellShaped(root, 0)
    ensures current == ShadowWalk(root, va, 0, level)
  {
    current := root;
    for l := 0 to level
      invariant ShadowWalk(current, va, l, level) == ShadowWalk(root, va, 0, level)
      invariant current.Shadow? && WellShaped(current, l)
    {
      current := current.pgd[Index(va, l)];
      if current.NoShadow? {
        return;
      }
    }
  }

  /** gr_get_pgd_at_level; exits is its exit on a zero table address. */
  method PgdAtLevel(mem: Mem, pgd: Word, va: nat, level: nat) returns (r: Option<Word>, exits: bool)
    requires level <= BOTTOM_LEVEL
    ensures r == HwWalk(mem, pgd, va, 0, level) && (exits <==> HwExits(mem, pgd, va, 0, level))
    ensures exits ==> r.None?
  {
    var current := pgd;
    for l := 0 to level
      invariant HwWalk(mem, current, va, l, level) == HwWalk(mem, pgd, va, 0, level)
      invariant HwExits(mem, current, va, l, level) <==> HwExits(mem, pgd, va, 0, level)
    {
      if !IsTable(mem, current) {
        return None, false;
      }
      var target := PteToPhysAddr(mem[Frame(current)].words[Index(va, l)]);
      if target == 0 {
        return None, true;
      }
      current := target;
    }
    r, exits := Some(current), false;
  }

  /** Every table of the shadow tree has 512 slots; level-3 tables have no children. */
  ghost predicate WellShaped(s: Shadow, l: nat)
    decreases s
  {
    s.Shadow? ==>
      && |s.pgd| == PAGE_ENTRIES
      && l <= BOTTOM_LEVEL
      && forall i :: 0 <= i < PAGE_ENTRIES ==> (l == BOTTOM_LEVEL ==> s.pgd[i].NoShadow?) && WellShaped(s.pgd[i], l + 1)
  }

  /**
   The tables in memory carry the shadow tree: each page is a table, and each
   assigned child slot holds an entry that decodes to the child's page.
   */
  ghost predicate Linked(s: Shadow, l: nat, mem: Mem)
    decreases s
  {
    && s.Shadow? && |s.pgd| == PAGE_ENTRIES && l <= BOTTOM_LEVEL
    && GoodPage(s.phys) && IsTable(mem, s.phys)
    && forall i :: 0 <= i < PAGE_ENTRIES && s.pgd[i].Shadow? ==> SlotLinked(s, l, mem, i)
  }

  ghost predicate SlotLinked(s: Shadow, l: nat, mem: Mem, i: nat)
    requires s.Shadow? && i < |s.pgd| && IsTable(mem, s.phys) && i < PAGE_ENTRIES && s.pgd[i].Shadow?
    decreases s, 0
  {
    && l < BOTTOM_LEVEL
    && PteToPhysAddr(mem[Frame(s.phys)].words[i]) == s.pgd[i].phys
    && Linked(s.pgd[i], l + 1, mem)
  }

  /** Wherever the shadow walk succeeds, the walk through memory reaches the same table. */
  lemma {:induction false} WalksAgree(s: Shadow, mem: Mem, va: nat, l: nat, level: nat)
    requires l <= level <= BOTTOM_LEVEL && Linked(s, l, mem)
    requires ShadowWalk(s, va, l, level).Shadow?
    ensures HwWalk(mem, s.phys, va, l, level) == Some(ShadowWalk(s, va, l, level).phys)
    ensures Linked(ShadowWalk(s, va, l, level), level, mem)
    decreases level - l
  {
    if l < level {
      var i := Index(va, l);
      assert s.pgd[i].Shadow?;
      assert SlotLinked(s, l, mem, i);
      WalksAgree(s.pgd[i], mem, va, l + 1, level);
    }
  }

  /** The rebuilt table carries its shadow tree, provided the allocator's pages survive the entry masks. */
  lemma {:induction false} IsoLinked(t: Tree, s: Shadow, l: nat, mem: Mem)
    requires WfTree(t, l) && Iso(t, s, mem) && forall p :: p in Pages(s) ==> GoodPage(p)
    ensures Linked(s, l, mem) && WellShaped(s, l)
    decreases t
  {
    assert s.phys in Pages(s);
    forall i | 0 <= i < PAGE_ENTRIES
      ensures s.pgd[i].Shadow? ==> SlotLinked(s, l, mem, i)
      ensures (l == BOTTOM_LEVEL ==> s.pgd[i].NoShadow?) && WellShaped(s.pgd[i], l + 1)
    {
      assert SlotIso(t, s, mem, i);
      WfKidAt(t.kids, t.entries, l, i);
      if t.kids[i].Node? {
        forall p | p in Pages(s.pgd[i])
          ensures GoodPage(p)
        {
          PagesOfChild(s, i, p);
        }
        IsoLinked(t.kids[i], s.pgd[i], l + 1, mem);
        assert s.pgd[i].phys in Pages(s.pgd[i]);
        RelinkRoundTrip(t.entries[i], s.pgd[i].phys);
      }
    }
  }

  /** The shadow walk stays inside the recorded tree: it succeeds exactly along valid entries. */
  lemma {:induction false} WalkFollowsValidEntries(t: Tree, s: Shadow, mem: Mem, va: nat, l: nat, level: nat)
    requires l <= level <= BOTTOM_LEVEL && WfTree(t, l) && Iso(t, s, mem)
    ensures ShadowWalk(s, va, l, level).Shadow? <==> ValidPath(t, va, l, level)
    decreases level - l
  {
    if l < level {
      var i := Index(va, l);
      assert SlotIso(t, s, mem, i);
      WfKidAt(t.kids, t.entries, l, i);
      if t.kids[i].Node? {
        WalkFollowsValidEntries(t.kids[i], s.pgd[i], mem, va, l + 1, level);
      }
    }
  }

  /** Every word on the way down to level names a table: it is of type 3. */
  ghost predicate ValidPath(t: Tree, va: nat, l: nat, level: nat)
    requires l <= level <= BOTTOM_LEVEL
    decreases level - l
  {
    t.Node? && (l < level ==>
      && Index(va, l) < |t.entries| && Index(va, l) < |t.kids|
      && t.entries[Index(va, l)] & 3 == 3
      && ValidPath(t.kids[Index(va, l)], va, l + 1, level))
  }

  /** The table a walk reaches is one of the tree's own pages. */
  lemma {:induction false} WalkInPages(s: Shadow, va: nat, l: nat, level: nat)
    requires l <= level <= BOTTOM_LEVEL && WellShaped(s, l) && ShadowWalk(s, va, l, level).Shadow?
    ensures ShadowWalk(s, va, l, level).phys in Pages(s)
    decreases level - l
  {
    if l < level {
      var i := Index(va, l);
      WalkInPages(s.pgd[i], va, l + 1, level);
      PagesOfChild(s, i, ShadowWalk(s, va, l, level).phys);
    }
  }

  lemma DisjointParts(a: seq<Word>, b: seq<Word>, p: Word)
    requires NoDup(a + b) && p in a
    ensures p !in b && NoDup(a) && NoDup(b)
  {
    var i :| 0 <= i < |a| && a[i] == p;
    forall j | 0 <= j < |b|
      ensures b[j] != p
    {
      assert (a + b)[i] == p && (a + b)[|a| + j] == b[j];
    }
    forall j, k | 0 <= j < k < |b|
      ensures b[j] != b[k]
    {
      assert (a + b)[|a| + j] == b[j] && (a + b)[|a| + k] == b[k];
    }
    forall j, k | 0 <= j < k < |a|
      ensures a[j] != a[k]
    {
      assert (a + b)[j] == a[j] && (a + b)[k] == a[k];
    }
  }

  /** Distinct children of a duplicate-free tree share no page. */
  lemma {:induction false} ChildrenDisjoint(ks: seq<Shadow>, i: nat, j: nat, p: Word)
    requires i < j < |ks| && NoDup(PagesOfKids(ks)) && p in Pages(ks[i])
    ensures p !in Pages(ks[j])
  {
    PagesSplit(ks, j);
    var front := PagesOfKids(ks[..j]);
    assert p in front by {
      PagesSplit(ks[..j], i);
    }
    assert PagesOfKids(ks) == front + (Pages(ks[j]) + PagesOfKids(ks[j + 1..]));
    DisjointParts(front, Pages(ks[j]) + PagesOfKids(ks[j + 1..]), p);
  }

  lemma ChildNoDup(s: Shadow, i: nat)
    requires s.Shadow? && i < |s.pgd| && NoDup(Pages(s))
    ensures NoDup(PagesOfKids(s.pgd)) && NoDup(Pages(s.pgd[i]))
  {
    DisjointParts([s.phys], PagesOfKids(s.pgd), s.phys);
    PagesSplit(s.pgd, i);
    var a, b, c := PagesOfKids(s.pgd[..i]), Pages(s.pgd[i]), PagesOfKids(s.pgd[i + 1..]);
    forall j, k | 0 <= j < k < |b|
      ensures b[j] != b[k]
    {
      assert (a + b + c)[|a| + j] == b[j] && (a + b + c)[|a| + k] == b[k];
    }
  }

  /** Two addresses that reach the same leaf table take the same slot at every interior level. */
  lemma {:induction false} LeafDeterminesPath(s: Shadow, va: nat, va': nat, l: nat)
    requires l <= BOTTOM_LEVEL && WellShaped(s, l) && NoDup(Pages(s))
    requires ShadowWalk(s, va, l, BOTTOM_LEVEL).Shadow? && ShadowWalk(s, va', l, BOTTOM_LEVEL).Shadow?
    requires ShadowWalk(s, va, l, BOTTOM_LEVEL).phys == ShadowWalk(s, va', l, BOTTOM_LEVEL).phys
    ensures forall j :: l <= j < BOTTOM_LEVEL ==> Index(va, j) == Index(va', j)
    decreases BOTTOM_LEVEL - l
  {
    if l < BOTTOM_LEVEL {
      var i, i' := Index(va, l), Index(va', l);
      var p := ShadowWalk(s, va, l, BOTTOM_LEVEL).phys;
      WalkInPages(s.pgd[i], va, l + 1, BOTTOM_LEVEL);
      WalkInPages(s.pgd[i'], va', l + 1, BOTTOM_LEVEL);
      ChildNoDup(s, i);
      if i < i' {
        ChildrenDisjoint(s.pgd, i, i', p);
      } else if i' < i {
        ChildrenDisjoint(s.pgd, i', i, p);
      } else {
        LeafDeterminesPath(s.pgd[i], va, va', l + 1);
      }
    }
  }

  const VA_LIMIT: nat := 0x1_0000_0000_0000

  /** Below 2^48 the four slots determine the page. */
  lemma IndicesDeterminePage(va: nat, va': nat)
    requires va < VA_LIMIT && va' < VA_LIMIT
    requires forall j :: 0 <= j <= BOTTOM_LEVEL ==> Index(va, j) == Index(va', j)
    ensures va / PAGE_SIZE == va' / PAGE_SIZE
  {
    FrameFromIndices(va);
    FrameFromIndices(va');
  }

  lemma FrameFromIndices(va: nat)
    requires va < VA_LIMIT
    ensures va / PAGE_SIZE == Index(va, 0) * 134217728 + Index(va, 1) * 262144 + Index(va, 2) * 512 + Index(va, 3)
  {
    FrameDigits(va / 4096);
  }

  lemma FrameDigits(v: nat)
    requires v < 68719476736
    ensures v == v / 134217728 % 512 * 134217728 + v / 262144 % 512 * 262144 + v / 512 % 512 * 512 + v % 512
  {
    Digit(v, 1);
    Digit(v, 512);
    Digit(v, 262144);
    assert v / 134217728 < 512;
  }

  lemma Digit(v: nat, p: nat)
    requires p == 1 || p == 512 || p == 262144
    ensures v / p == v / (p * 512) * 512 + v / p % 512
  {
  }

  /** Different pages below 2^48 have different leaf slots. */
  lemma SlotsInjective(s: Shadow, va: nat, va': nat)
    requires WellShaped(s, 0) && NoDup(Pages(s)) && va < VA_LIMIT && va' < VA_LIMIT
    requires ShadowWalk(s, va, 0, BOTTOM_LEVEL).Shadow? && ShadowWalk(s, va', 0, BOTTOM_LEVEL).Shadow?
    requires va / PAGE_SIZE != va' / PAGE_SIZE
    ensures ShadowWalk(s, va, 0, BOTTOM_LEVEL).phys != ShadowWalk(s, va', 0, BOTTOM_LEVEL).phys
         || Index(va, BOTTOM_LEVEL) != Index(va', BOTTOM_LEVEL)
  {
    if ShadowWalk(s, va, 0, BOTTOM_LEVEL).phys == ShadowWalk(s, va', 0, BOTTOM_LEVEL).phys
      && Index(va, BOTTOM_LEVEL) == Index(va', BOTTOM_LEVEL)
    {
      LeafDeterminesPath(s, va, va', 0);
      IndicesDeterminePage(va, va');
      assert false;
    }
  }

  /** All offsets inside one page share the walk. */
  lemma {:induction false} SamePageSameWalk(s: Shadow, va: nat, va': nat, l: nat, level: nat)
    requires l <= level <= BOTTOM_LEVEL && va / PAGE_SIZE == va' / PAGE_SIZE
    ensures ShadowWalk(s, va, l, level) == ShadowWalk(s, va', l, level)
    decreases level - l
  {
    if l < level && s.Shadow? && |s.pgd| == PAGE_ENTRIES {
      SamePageSameWalk(s.pgd[Index(va, l)], va, va', l + 1, level);
    }
  }

  /** The 48 bits of an address the tables look at. */
  function Wrapped(va: nat): (w: nat)
    ensures w < VA_LIMIT && (va < VA_LIMIT ==> w == va)
  {
    va % VA_LIMIT
  }

  lemma IndexWraps(va: nat, level: nat)
    requires level <= BOTTOM_LEVEL
    ensures Index(Wrapped(va), level) == Index(va, level)
  {
    var q, w := va / VA_LIMIT, Wrapped(va);
    assert va / PAGE_SIZE == w / PAGE_SIZE + q * 0x10_0000_0000;
    SpanWraps(w / PAGE_SIZE, q, level);
  }

  lemma SpanWraps(pfn: nat, q: nat, level: nat)
    requires level <= BOTTOM_LEVEL
    ensures (pfn + q * 0x10_0000_0000) / Span(level) % PAGE_ENTRIES == pfn / Span(level) % PAGE_ENTRIES
  {
    var turns := if level == 3 then 0x800_0000 else if level == 2 then 0x4_0000 else if level == 1 then 0x200 else 1;
    assert (pfn + q * 0x10_0000_0000) / Span(level) == pfn / Span(level) + q * turns * PAGE_ENTRIES;
    TurnsVanish(pfn / Span(level), q * turns);
  }

  lemma TurnsVanish(a: nat, n: nat)
    ensures (a + n * PAGE_ENTRIES) % PAGE_ENTRIES == a % PAGE_ENTRIES
  {
  }

  lemma {:induction false} WalkWraps(s: Shadow, va: nat, l: nat, level: nat)
    requires l <= level <= BOTTOM_LEVEL
    ensures ShadowWalk(s, Wrapped(va), l, level) == ShadowWalk(s, va, l, level)
    decreases level - l
  {
    if l < level && s.Shadow? && |s.pgd| == PAGE_ENTRIES {
      IndexWraps(va, l);
      WalkWraps(s.pgd[Index(va, l)], va, l + 1, level);
    }
  }
}
