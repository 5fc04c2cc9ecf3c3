/**
 Leaf entries of the rebuilt page table: what one write through the shadow tree
 changes, and what an address translates to.
 */
module LeafEntries {
  import opened Collections
  import opened PteCodec
  import opened PhysMem
  import opened TableTree
  import opened PageWalk

  /** The recorded tables reach down to va's leaf table. */
  ghost predicate Covered(root: Shadow, va: nat) {
    ShadowWalk(root, va, 0, BOTTOM_LEVEL).Shadow?
  }

  function Leaf(root: Shadow, va: nat): Word
    requires Covered(root, va)
  {
    ShadowWalk(root, va, 0, BOTTOM_LEVEL).phys
  }

  /** The tables in memory carry the shadow tree, and no page holds two tables. */
  ghost predicate TablesOk(root: Shadow, mem: Mem) {
    Linked(root, 0, mem) && WellShaped(root, 0) && NoDup(Pages(root))
  }

  /** The leaf word of va's page. */
  ghost function SlotWord(root: Shadow, mem: Mem, va: nat): Word {
    if Covered(root, va) && IsTable(mem, Leaf(root, va)) then
      mem[Frame(Leaf(root, va))].words[Index(va, BOTTOM_LEVEL)]
    else 0
  }

  lemma LeafIsTable(root: Shadow, mem: Mem, va: nat)
    requires TablesOk(root, mem) && Covered(root, va)
    ensures IsTable(mem, Leaf(root, va)) && Leaf(root, va) in Pages(root)
    ensures HwWalk(mem, root.phys, va, 0, BOTTOM_LEVEL) == Some(Leaf(root, va))
  {
    WalksAgree(root, mem, va, 0, BOTTOM_LEVEL);
    WalkInPages(root, va, 0, BOTTOM_LEVEL);
  }

  lemma {:induction false} LinkedFrame(s: Shadow, l: nat, mem: Mem, mem': Mem)
    requires Linked(s, l, mem) && AgreeOn(mem, mem', Pages(s))
    ensures Linked(s, l, mem')
    decreases s
  {
    assert s.phys in Pages(s);
    forall i | 0 <= i < PAGE_ENTRIES && s.pgd[i].Shadow?
      ensures SlotLinked(s, l, mem', i)
    {
      assert SlotLinked(s, l, mem, i);
      forall p | p in Pages(s.pgd[i])
        ensures p in Pages(s)
      {
        PagesOfChild(s, i, p);
      }
      LinkedFrame(s.pgd[i], l + 1, mem, mem');
    }
  }

  /** Rewriting the leaf table below va leaves every interior link in place. */
  lemma {:induction false} LinkedAfterLeafWrite(s: Shadow, l: nat, va: nat, mem: Mem, mem': Mem, leaf: Word)
    requires l <= BOTTOM_LEVEL && Linked(s, l, mem) && WellShaped(s, l) && NoDup(Pages(s))
    requires ShadowWalk(s, va, l, BOTTOM_LEVEL).Shadow? && leaf == ShadowWalk(s, va, l, BOTTOM_LEVEL).phys
    requires IsTable(mem', leaf)
    requires forall f :: f in mem && f.base != leaf ==> f in mem' && mem'[f] == mem[f]
    ensures Linked(s, l, mem')
    decreases BOTTOM_LEVEL - l
  {
    if l < BOTTOM_LEVEL {
      var i := Index(va, l);
      WalkInPages(s.pgd[i], va, l + 1, BOTTOM_LEVEL);
      PagesOfChild(s, i, leaf);
      DisjointParts([s.phys], PagesOfKids(s.pgd), s.phys);
      assert s.phys != leaf;
      forall j | 0 <= j < PAGE_ENTRIES && s.pgd[j].Shadow?
        ensures SlotLinked(s, l, mem', j)
      {
        assert SlotLinked(s, l, mem, j);
        ChildNoDup(s, j);
        if j == i {
          LinkedAfterLeafWrite(s.pgd[i], l + 1, va, mem, mem', leaf);
        } else {
          OtherChildLinked(s.pgd, i, j, l + 1, mem, mem', leaf);
        }
      }
    }
  }

  /** A write to a page of one child leaves the others linked. */
  lemma OtherChildLinked(ks: seq<Shadow>, i: nat, j: nat, l: nat, mem: Mem, mem': Mem, leaf: Word)
    requires i < |ks| && j < |ks| && i != j && NoDup(PagesOfKids(ks)) && leaf in Pages(ks[i]) && Linked(ks[j], l, mem)
    requires forall f :: f in mem && f.base != leaf ==> f in mem' && mem'[f] == mem[f]
    ensures Linked(ks[j], l, mem')
  {
    if j < i {
      LeafElsewhere(ks, j, i, leaf);
    } else {
      ChildrenDisjoint(ks, i, j, leaf);
    }
    LinkedFrame(ks[j], l, mem, mem');
  }

  lemma LeafElsewhere(ks: seq<Shadow>, i: nat, j: nat, p: Word)
    requires i < j < |ks| && NoDup(PagesOfKids(ks)) && p in Pages(ks[j])
    ensures p !in Pages(ks[i])
  {
    if p in Pages(ks[i]) {
      ChildrenDisjoint(ks, i, j, p);
    }
  }

  /**
   mem' is mem after storing w in the leaf slot of va: the tables still carry
   the shadow tree, the leaf slots of all other pages keep their word, and no
   page outside the tables changes.
   */
  ghost predicate LeafWritten(root: Shadow, mem: Mem, mem': Mem, va: nat, w: Word) {
    && TablesOk(root, mem')
    && SlotWord(root, mem', va) == w
    && (forall va': nat :: va' < VA_LIMIT && va' / PAGE_SIZE != va / PAGE_SIZE ==>
        SlotWord(root, mem', va') == SlotWord(root, mem, va'))
    && mem'.Keys == mem.Keys
    && (forall f :: f in mem && f.base !in Pages(root) ==> mem'[f] == mem[f])
  }

  /** The store pgd_page[index] = pte through the shadow tree's mapping. */
  function StoreLeaf(root: Shadow, mem: Mem, va: nat, w: Word): Mem
    requires Covered(root, va) && IsTable(mem, Leaf(root, va))
  {
    var f := Frame(Leaf(root, va));
    mem[f := Table(mem[f].words[Index(va, BOTTOM_LEVEL) := w])]
  }

  lemma StoreLeafEffect(root: Shadow, mem: Mem, va: nat, w: Word)
    requires TablesOk(root, mem) && Covered(root, va) && va < VA_LIMIT && IsTable(mem, Leaf(root, va))
    ensures LeafWritten(root, mem, StoreLeaf(root, mem, va, w), va, w)
  {
    var mem' := StoreLeaf(root, mem, va, w);
    LeafIsTable(root, mem, va);
    LinkedAfterLeafWrite(root, 0, va, mem, mem', Leaf(root, va));
    forall va': nat | va' < VA_LIMIT && va' / PAGE_SIZE != va / PAGE_SIZE
      ensures SlotWord(root, mem', va') == SlotWord(root, mem, va')
    {
      OtherSlotKept(root, mem, va, va', w);
    }
  }

  /** A store in va's slot is none in the slot of another page. */
  lemma OtherSlotKept(root: Shadow, mem: Mem, va: nat, va': nat, w: Word)
    requires TablesOk(root, mem) && Covered(root, va) && IsTable(mem, Leaf(root, va))
    requires va < VA_LIMIT && va' < VA_LIMIT && va' / PAGE_SIZE != va / PAGE_SIZE
    ensures SlotWord(root, StoreLeaf(root, mem, va, w), va') == SlotWord(root, mem, va')
  {
    if Covered(root, va') {
      SlotsInjective(root, va, va');
    }
  }

  /** gr_trans_va_to_pa; exits is the walker's exit, and no result without it a page that holds no table here. */
  method TransVaToPa(mem: Mem, pgd: Word, va: nat) returns (pa: Option<Word>, exits: bool)
    ensures pa == Translate(mem, pgd, va) && (exits <==> HwExits(mem, pgd, va, 0, BOTTOM_LEVEL))
    ensures exits ==> pa.None?
  {
    var target;
    target, exits := PgdAtLevel(mem, pgd, va, BOTTOM_LEVEL);
    if target.None? || !IsTable(mem, target.value) {
      return None, exits;
    }
    var pte := mem[Frame(target.value)].words[va / PAGE_SIZE % PAGE_ENTRIES];
    pa := Some(Paddr(PteToPhysAddr(pte), va % PAGE_SIZE));
  }

  function Translate(mem: Mem, pgd: Word, va: nat): Option<Word> {
    var target := HwWalk(mem, pgd, va, 0, BOTTOM_LEVEL);
    if target.None? || !IsTable(mem, target.value) then None
    else Some(Paddr(PteToPhysAddr(mem[Frame(target.value)].words[va / PAGE_SIZE % PAGE_ENTRIES]), va % PAGE_SIZE))
  }

  /**
   The translation word by word, for any memory: four words, each taken from nine bits
   of the address whatever the types of the words are, and the address's low twelve bits.
   */
  lemma TranslationSpelledOut(mem: Mem, pgd: Word, va: nat, w0: Word, w1: Word, w2: Word, w3: Word, p0: Word,
                              p1: Word, p2: Word)
    requires Names(w0, p0) && p0 != 0 && Names(w1, p1) && p1 != 0 && Names(w2, p2) && p2 != 0
    requires Entry(mem, pgd, va / 0x80_0000_0000 % 512, w0) && Entry(mem, p0, va / 0x4000_0000 % 512, w1)
    requires Entry(mem, p1, va / 0x20_0000 % 512, w2) && Entry(mem, p2, va / 0x1000 % 512, w3)
    ensures var pa := Translate(mem, pgd, va);
            pa.Some? && Names(w3, PaddrPage(pa.value)) && PaddrOffset(pa.value) == va % 4096
  {
    WalkSpelledOut(mem, pgd, va, w0, w1, w2, p0, p1, p2);
    DecodedAligned(w3);
    SplitPaddr(PteToPhysAddr(w3), va % 4096);
  }

  lemma DecodedAligned(w: Word)
    ensures PteToPhysAddr(w) & OFFSET_MASK == 0 && Names(w, PteToPhysAddr(w))
  {
    DecodeMask(w);
  }

  /** Through intact tables the translation is decided by the leaf slot alone. */
  lemma TranslateSlot(root: Shadow, mem: Mem, va: nat)
    requires TablesOk(root, mem) && Covered(root, va)
    ensures Translate(mem, root.phys, va) == Some(Paddr(PteToPhysAddr(SlotWord(root, mem, va)), va % PAGE_SIZE))
  {
    LeafIsTable(root, mem, va);
  }
}
