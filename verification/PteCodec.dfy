/**
 Page-table entry encoding of the replayer: the constants and the bit-level
 helpers of gr_mem.h and gr_mem.c.
 */
module PteCodec {

  const OFFSET_MASK: bv64 := 0xFFF
  const PAGE_MASK: bv64 := 0xFFFF_FFFF_FFFF_F000
  const PAGE_SIZE: nat := 4096
  const PAGE_ENTRIES: nat := 512
  const BOTTOM_LEVEL: nat := 3

  const ENTRY_TYPE_MASK: bv64 := 3
  const ENTRY_IS_ATE_L3: bv64 := 3
  const ENTRY_IS_ATE_L02: bv64 := 1
  const ENTRY_IS_PTE: bv64 := 3
  const ENTRY_ACCESS_RW: bv64 := 0x40
  const ENTRY_ACCESS_RO: bv64 := 0xC0
  const SHARE_BOTH_BITS: bv64 := 0x200
  const SHARE_INNER_BITS: bv64 := 0x300
  const ENTRY_ACCESS_BIT: bv64 := 0x400
  const ENTRY_NX_BIT: bv64 := 0x0040_0000_0000_0000

  const REG_GPU_WR: bv64 := 0x4
  const REG_GPU_NX: bv64 := 0x8
  const REG_SHARE_IN: bv64 := 0x200
  const REG_SHARE_BOTH: bv64 := 0x400
  const REG_GPU_RD: bv64 := 0x2000
  const REG_MEMATTR_MASK: bv64 := 0x70000

  /** A physical (or recorded) 64-bit word or address. */
  type Word = bv64

  /** A page address the decoder gives back unchanged: page-aligned, execute-never bit clear. */
  predicate PageAddr(p: Word) {
    p & OFFSET_MASK == 0 && p & ENTRY_NX_BIT == 0
  }

  function PteToPhysAddr(entry: Word): Word {
    (if entry & ENTRY_NX_BIT != 0 then entry & !ENTRY_NX_BIT else entry) & PAGE_MASK
  }

  /** Interior entries are followed only above the bottom level. */
  predicate PteIsValid(pte: Word, level: nat) {
    level != BOTTOM_LEVEL && pte & ENTRY_TYPE_MASK == ENTRY_IS_PTE
  }

  function MmuFlags(flags: Word): Word {
    var attr := ((flags & REG_MEMATTR_MASK) >> 16) << 2;
    var access := if flags & REG_GPU_WR != 0 then ENTRY_ACCESS_RW
                  else if flags & REG_GPU_RD != 0 then ENTRY_ACCESS_RO else 0;
    var nx := if flags & REG_GPU_NX != 0 then ENTRY_NX_BIT else 0;
    var share := if flags & REG_SHARE_BOTH != 0 then SHARE_BOTH_BITS
                 else if flags & REG_SHARE_IN != 0 then SHARE_INNER_BITS else 0;
    attr | access | nx | share
  }

  function EntryGetAte(paddr: Word, flags: Word, level: nat): Word {
    paddr | MmuFlags(flags) | ENTRY_ACCESS_BIT |
    (if level == BOTTOM_LEVEL then ENTRY_IS_ATE_L3 else ENTRY_IS_ATE_L02)
  }

  /** The relinked interior entry: old low 12 bits, new table address. */
  function Relink(entry: Word, next: Word): Word {
    (entry & OFFSET_MASK) | next
  }

  /** The address bits that survive decoding. */
  const ADDR_BITS: bv64 := 0xFFBF_FFFF_FFFF_F000

  lemma DecodeMask(e: Word)
    ensures PteToPhysAddr(e) == e & ADDR_BITS
  {
    ClearBits(e);
  }

  lemma ClearBits(e: Word)
    ensures e & 0x0040_0000_0000_0000 == 0 ==> e & 0xFFFF_FFFF_FFFF_F000 == e & 0xFFBF_FFFF_FFFF_F000
    ensures (e & !0x0040_0000_0000_0000) & 0xFFFF_FFFF_FFFF_F000 == e & 0xFFBF_FFFF_FFFF_F000
  {
  }

  lemma PageAddrMask(p: Word)
    ensures p & ADDR_BITS == p <==> PageAddr(p)
  {
  }

  /** Attribute bits or-ed into an entry never reach the decoded address. */
  lemma OrAttributes(p: Word, f: Word)
    requires f & ADDR_BITS == 0
    ensures PteToPhysAddr(p | f) == p & ADDR_BITS
  {
    DecodeMask(p | f);
    OrMask(p, f);
  }

  lemma OrMask(p: Word, f: Word)
    requires f & ADDR_BITS == 0
    ensures (p | f) & ADDR_BITS == p & ADDR_BITS
  {
  }

  lemma MmuFlagsMask(flags: Word)
    ensures MmuFlags(flags) & ADDR_BITS == 0
  {
  }

  /** Decoding a leaf entry gives the page back exactly when the page survives the two masks. */
  lemma AteRoundTrip(paddr: Word, flags: Word, level: nat)
    ensures PteToPhysAddr(EntryGetAte(paddr, flags, level)) == paddr <==> PageAddr(paddr)
  {
    MmuFlagsMask(flags);
    var tail := if level == BOTTOM_LEVEL then ENTRY_IS_ATE_L3 else ENTRY_IS_ATE_L02;
    var f := MmuFlags(flags) | ENTRY_ACCESS_BIT | tail;
    assert f & ADDR_BITS == 0;
    assert EntryGetAte(paddr, flags, level) == paddr | f;
    OrAttributes(paddr, f);
    PageAddrMask(paddr);
  }

  /**
   w is the level-3 word of page for a region with these flags: type 3 in bits 1:0,
   the memory attribute in 4:2, bit 6 for access, bit 7 for read-only, shareability
   in 9:8, bit 10 set, bits 5 and 11 clear, the page above them, execute-never in bit 54.
   */
  predicate LeafBits(w: Word, page: Word, flags: Word) {
    && w & 3 == 3 && (w >> 2) & 7 == (flags >> 16) & 7 && w & 0x20 == 0
    && (w & 0x40 != 0 <==> flags & 0x2004 != 0)
    && (w & 0x80 != 0 <==> flags & 0x4 == 0 && flags & 0x2000 != 0)
    && w & 0x300 == (if flags & 0x400 != 0 then 0x200 else if flags & 0x200 != 0 then 0x300 else 0)
    && w & 0x400 != 0 && w & 0x800 == 0
    && w & 0xFFBF_FFFF_FFFF_F000 == page
    && (w & 0x40_0000_0000_0000 != 0 <==> flags & 0x8 != 0)
  }

  /** The encoder sets exactly these bits, for every page the decoder accepts. */
  lemma AteFields(paddr: Word, flags: Word)
    requires PageAddr(paddr)
    ensures LeafBits(EntryGetAte(paddr, flags, BOTTOM_LEVEL), paddr, flags)
  {
  }

  /** w is the word e with its low twelve bits kept and, for its address, the page p. */
  predicate PointsTo(w: Word, e: Word, p: Word) {
    w == (e & 0xFFF) | p && w & 0xFFBF_FFFF_FFFF_F000 == p
  }

  lemma RelinkedPointsTo(e: Word, p: Word)
    requires PageAddr(p)
    ensures PointsTo(Relink(e, p), e, p)
  {
    RelinkedAddress(e, p);
  }

  lemma RelinkedAddress(e: Word, p: Word)
    requires PageAddr(p)
    ensures Relink(e, p) & 0xFFBF_FFFF_FFFF_F000 == p
  {
    LinkHigh(e, p);
  }

  lemma LinkHigh(e: Word, p: Word)
    requires p & 0xFFF == 0 && p & 0x40_0000_0000_0000 == 0
    ensures ((e & 0xFFF) | p) & 0xFFBF_FFFF_FFFF_F000 == p
  {
  }

  /** A relinked entry decodes to the new table, keeps its low 12 bits and stays a table entry. */
  lemma RelinkRoundTrip(entry: Word, next: Word)
    ensures PteToPhysAddr(Relink(entry, next)) == next <==> PageAddr(next)
    ensures PageAddr(next) ==> Relink(entry, next) & OFFSET_MASK == entry & OFFSET_MASK
  {
    LowBits(entry, next);
    OrAttributes(next, entry & OFFSET_MASK);
    PageAddrMask(next);
  }

  lemma LowBits(entry: Word, next: Word)
    ensures entry & 0xFFF & 0xFFBF_FFFF_FFFF_F000 == 0
    ensures (entry & 0xFFF) | next == next | (entry & 0xFFF)
    ensures next & 0xFFF == 0 ==> ((entry & 0xFFF) | next) & 0xFFF == entry & 0xFFF
  {
  }

  lemma OffsetSuccessor(b: bv12)
    requires b as nat < 4095
    ensures (b + 1) as nat == b as nat + 1
  {
  }

  /** The 12-bit word with value off, counted up so that no integer-to-word conversion is needed. */
  function OffsetWord(off: nat): bv12
    requires off < PAGE_SIZE
  {
    if off == 0 then 0 else OffsetWord(off - 1) + 1
  }

  lemma {:induction false} OffsetValue(off: nat)
    requires off < PAGE_SIZE
    ensures OffsetWord(off) as nat == off
  {
    if off != 0 {
      OffsetValue(off - 1);
      OffsetSuccessor(OffsetWord(off - 1));
    }
  }

  /** Page plus offset, as the callers form it, and the split gr_read_phys and gr_write_phys make. */
  function Paddr(page: Word, off: nat): Word
    requires off < PAGE_SIZE
  {
    page + OffsetWord(off) as Word
  }

  function PaddrPage(paddr: Word): Word { paddr & PAGE_MASK }

  function PaddrOffset(paddr: Word): nat { OffsetBits(paddr) as nat }

  function OffsetBits(paddr: Word): bv12 { (paddr & OFFSET_MASK) as bv12 }

  /** Splitting page + offset back into its two parts loses nothing. */
  lemma SplitPaddr(page: Word, off: nat)
    requires page & OFFSET_MASK == 0 && off < PAGE_SIZE
    ensures PaddrPage(Paddr(page, off)) == page && PaddrOffset(Paddr(page, off)) == off
  {
    SplitWord(page, OffsetWord(off));
    OffsetBitsValue(Paddr(page, off), off);
  }

  lemma OffsetBitsValue(paddr: Word, off: nat)
    requires off < PAGE_SIZE && OffsetBits(paddr) == OffsetWord(off)
    ensures PaddrOffset(paddr) == off
  {
    OffsetValue(off);
  }

  lemma SplitWord(page: Word, b: bv12)
    requires page & OFFSET_MASK == 0
    ensures (page + b as Word) & PAGE_MASK == page && ((page + b as Word) & OFFSET_MASK) as bv12 == b
  {
  }
}
