/**
 The address-space scheduler (mali_kbase_ctx_sched.c): a bitmap of free hardware
 slots, sticky assignment of slots to contexts, eviction of idle owners and
 restoration after a GPU reset.
 */
module CtxSched {
  const MAX_SLOTS: nat := 16
  const INVALID: int := -1

  /** The bitmap (1 << n) - 1. */
  function Upto(n: nat): (r: set<nat>)
    ensures |r| == n && forall i: nat :: i in r <==> i < n
  {
    if n == 0 then {} else Upto(n - 1) + {n - 1}
  }

  class KbaseContext {
    var asNr: int
    var refcount: int

    constructor ()
      ensures asNr == INVALID && refcount == 0
    {
      asNr, refcount := INVALID, 0;
    }
  }

  /** What a hardware address space translates for. */
  datatype Hw = Unknown | Disabled | Programmed(ctx: KbaseContext)

  ghost predicate Held(c: KbaseContext?)
    reads c
  {
    c != null && c.refcount > 0
  }

  /** What restoration makes of a slot: its owner, whether that one is active, and its hardware, before and after. */
  ghost predicate Restored(owner: KbaseContext?, active: bool, hw: Hw, owner': KbaseContext?, hw': Hw) {
    if owner == null then owner' == null && hw' == Disabled
    else if active then owner' == owner && hw' == Programmed(owner)
    else owner' == null && hw' == hw
  }

  class Device {
    /** nr_hw_address_spaces */
    const slots: nat
    /** The bits set in as_free. */
    var asFree: set<nat>
    var asToKctx: seq<KbaseContext?>
    var powered: bool
    var hw: seq<Hw>
    /** Some WARN_ON inside the scheduler has fired. */
    var warned: bool
    ghost var contexts: set<KbaseContext>

    /**
     Slot owners and the contexts' own slot numbers are inverse to each other, a
     slot's bit is clear exactly while its owner is active, and every active
     context has a slot.
     */
    ghost predicate Valid()
      reads this, contexts
    {
      ValidBut(null)
    }

    /** Valid, but for a reference just counted on entering. */
    ghost predicate ValidBut(entering: KbaseContext?)
      reads this, contexts
    {
      && slots <= MAX_SLOTS && |asToKctx| == |hw| == slots
      && (forall i :: 0 <= i < slots && asToKctx[i] != null ==> asToKctx[i] in contexts && asToKctx[i].asNr == i)
      && (forall i: nat :: i in asFree <==>
        i < slots && (asToKctx[i] == null || asToKctx[i] == entering || asToKctx[i].refcount == 0))
      && (forall c :: c in contexts ==>
        && c.refcount >= 0 && (c.refcount > 0 && c != entering ==> c.asNr != INVALID)
        && (c.asNr == INVALID || (0 <= c.asNr < slots && asToKctx[c.asNr] == c)))
    }

    /** Every bound slot is programmed for its owner. */
    ghost predicate InSync()
      reads this
    {
      |asToKctx| == |hw| && forall i :: 0 <= i < |hw| && asToKctx[i] != null ==> hw[i] == Programmed(asToKctx[i])
    }

    /** kbase_ctx_sched_init. */
    constructor (slots: nat)
      requires slots <= MAX_SLOTS
      ensures Valid() && InSync() && this.slots == slots && contexts == {} && !warned
      ensures asFree == Upto(slots) && asToKctx == seq(slots, _ => null)
    {
      this.slots := slots;
      asFree := Upto(slots);
      asToKctx := seq(slots, _ => null);
      powered := true;
      hw := seq(slots, _ => Disabled);
      warned := false;
      contexts := {};
    }

    method WarnOn(bad: bool)
      modifies this`warned
      ensures warned == (old(warned) || bad)
    {
      warned := warned || bad;
    }

    /** kbase_ctx_sched_term: warns exactly when some context is still bound. */
    method Term()
      requires Valid()
      modifies this`warned
      ensures warned <==> old(warned) || exists i :: 0 <= i < slots && asToKctx[i] != null
    {
      for i := 0 to slots
        invariant Valid()
        invariant warned <==> old(warned) || exists j :: 0 <= j < i && asToKctx[j] != null
      {
        WarnOn(asToKctx[i] != null);
        WarnOn(i !in asFree);
      }
    }

    /** A context of this device that has not been scheduled yet. */
    ghost method Add(c: KbaseContext)
      requires Valid() && c !in contexts && c.asNr == INVALID && c.refcount == 0
      modifies this`contexts
      ensures Valid() && contexts == old(contexts) + {c}
    {
      contexts := contexts + {c};
    }

    /** ffs(as_free) - 1. */
    method FirstFree() returns (i: int)
      requires forall i :: i in asFree ==> 0 <= i < slots
      ensures i == INVALID ==> asFree == {}
      ensures i != INVALID ==> i in asFree && forall j :: 0 <= j < i ==> j !in asFree
    {
      i := 0;
      while i < slots
        invariant 0 <= i <= slots && forall j :: 0 <= j < i ==> j !in asFree
      {
        if i in asFree {
          return;
        }
        i := i + 1;
      }
      i := INVALID;
    }

    /** kbasep_ctx_sched_find_as_for_ctx. */
    method FindAsForCtx(c: KbaseContext) returns (i: int)
      requires forall i :: i in asFree ==> 0 <= i < slots
      ensures if c.asNr in asFree then i == c.asNr
              else if asFree == {} then i == INVALID
              else i in asFree && forall j :: 0 <= j < i ==> j !in asFree
    {
      if c.asNr != INVALID && c.asNr in asFree {
        return c.asNr;
      }
      i := FirstFree();
    }

    /** kbase_mmu_update and kbase_mmu_disable_as, as far as the scheduler can tell. */
    method Program(i: nat, what: Hw)
      requires i < |hw|
      modifies this`hw
      ensures hw == old(hw)[i := what]
    {
      hw := hw[i := what];
    }

    /** Unbind the idle owner of a slot about to be reused. */
    method Evict(prev: KbaseContext)
      requires 0 <= prev.asNr < |hw| && prev.refcount == 0
      modifies prev`asNr, this`hw, this`warned
      ensures prev.asNr == INVALID && hw == old(hw)[old(prev.asNr) := Disabled] && warned == old(warned)
    {
      WarnOn(prev.refcount != 0);
      Program(prev.asNr, Disabled);
      prev.asNr := INVALID;
    }

    method Bind(c: KbaseContext, i: nat)
      requires i < |hw| == |asToKctx|
      modifies c`asNr, this`asToKctx, this`hw
      ensures c.asNr == i && asToKctx == old(asToKctx)[i := c] && hw == old(hw)[i := Programmed(c)]
    {
      c.asNr := i;
      asToKctx := asToKctx[i := c];
      Program(c.asNr, Programmed(c));
    }

    /** Give free slot number free to c, whose first reference has just been counted. */
    method TakeSlot(c: KbaseContext, free: nat)
      requires ValidBut(c) && c in contexts && c.refcount == 1
      requires free in asFree && (c.asNr == INVALID || c.asNr == free)
      modifies this`asFree, this`asToKctx, this`hw, this`warned, (set d | d in contexts)`asNr
      ensures Valid() && free == c.asNr && warned == old(warned)
      ensures old(InSync()) ==> InSync()
      ensures asToKctx == old(asToKctx)[free := c] && asFree == old(asFree) - {free}
      ensures hw == if old(c.asNr) == INVALID then old(hw)[free := Programmed(c)] else old(hw)
      ensures forall d :: d in contexts && d != c ==> d.asNr == if old(d.asNr) == free then INVALID else old(d.asNr)
    {
      asFree := asFree - {free};
      if free != c.asNr {
        Reassign(c, free, asToKctx[free]);
      }
    }

    /** Slot number free goes from its idle previous owner to c. */
    method Reassign(c: KbaseContext, free: nat, prev: KbaseContext?)
      requires free < |hw| == |asToKctx| && prev != c
      requires prev != null ==> prev in contexts && prev.asNr == free && prev.refcount == 0
      modifies this`asToKctx, this`hw, this`warned, c`asNr, contexts`asNr
      ensures c.asNr == free && warned == old(warned)
      ensures asToKctx == old(asToKctx)[free := c] && hw == old(hw)[free := Programmed(c)]
      ensures forall d :: d in contexts && d != c ==> d.asNr == if d == prev then INVALID else old(d.asNr)
    {
      if prev != null {
        Evict(prev);
      }
      Bind(c, free);
    }

    /**
     kbase_ctx_sched_retain_ctx. A further retain only counts. A first retain
     fails, changing nothing, exactly when every slot is held by an active
     context; it gives a context its old slot back without touching the
     hardware, and otherwise takes the first free slot over from its idle owner.
     The only warning that can fire is the one about a GPU without power.
     */
    method RetainCtx(c: KbaseContext) returns (r: int)
      requires Valid() && c in contexts
      modifies this`asFree, this`asToKctx, this`hw, this`warned, contexts
      ensures Valid() && r == c.asNr && -1 <= r < slots
      ensures warned == (old(warned) || !powered)
      ensures old(InSync()) ==> InSync()
      ensures r == INVALID <==> old(asFree) == {} && old(c.refcount) == 0
      ensures r == INVALID ==>
        c.refcount == old(c.refcount) && asToKctx == old(asToKctx) && hw == old(hw) && asFree == old(asFree)
      ensures r != INVALID ==>
        c.refcount == old(c.refcount) + 1 && asToKctx == old(asToKctx)[r := c] && asFree == old(asFree) - {r}
      ensures old(c.asNr) != INVALID ==> r == old(c.asNr) && hw == old(hw)
      ensures old(c.asNr) == INVALID && r != INVALID ==>
        hw == old(hw)[r := Programmed(c)] && r in old(asFree) && forall j :: 0 <= j < r ==> j !in old(asFree)
      ensures forall d :: d in contexts && d != c ==>
        d.refcount == old(d.refcount) && d.asNr == if old(d.asNr) == r then INVALID else old(d.asNr)
    {
      WarnOn(!powered);
      c.refcount := c.refcount + 1;
      if c.refcount == 1 {
        FirstRetain(c);
      }
      r := c.asNr;
    }

    /** The part of a retain that follows a count of one. */
    method FirstRetain(c: KbaseContext)
      requires ValidBut(c) && c in contexts && c.refcount == 1
      modifies this`asFree, this`asToKctx, this`hw, this`warned, contexts`asNr, c`refcount
      ensures Valid() && -1 <= c.asNr < slots && warned == old(warned)
      ensures old(InSync()) ==> InSync()
      ensures c.asNr == INVALID <==> old(asFree) == {}
      ensures c.asNr == INVALID ==> c.refcount == 0 && asToKctx == old(asToKctx) && hw == old(hw) && asFree == {}
      ensures c.asNr != INVALID ==>
        c.refcount == 1 && asToKctx == old(asToKctx)[c.asNr := c] && asFree == old(asFree) - {c.asNr}
      ensures old(c.asNr) != INVALID ==> c.asNr == old(c.asNr) && hw == old(hw)
      ensures old(c.asNr) == INVALID && c.asNr != INVALID ==>
        && hw == old(hw)[c.asNr := Programmed(c)] && c.asNr in old(asFree)
        && forall j :: 0 <= j < c.asNr ==> j !in old(asFree)
      ensures forall d :: d in contexts && d != c ==> d.asNr == if old(d.asNr) == c.asNr then INVALID else old(d.asNr)
    {
      var free := FindAsForCtx(c);
      if free != INVALID {
        TakeSlot(c, free);
      } else {
        c.refcount := c.refcount - 1;
        WarnOn(c.asNr != INVALID);
      }
    }

    /**
     kbase_ctx_sched_retain_ctx_refcount. It warns, and breaks the invariant,
     exactly when nobody holds a reference yet.
     */
    method RetainCtxRefcount(c: KbaseContext)
      requires Valid() && c in contexts
      modifies c`refcount, this`warned
      ensures c.refcount == old(c.refcount) + 1
      ensures warned == (old(warned) || old(c.refcount) == 0)
      ensures Valid() <==> old(c.refcount) > 0
      ensures old(InSync()) ==> InSync()
    {
      WarnOn(c.refcount == 0);
      WarnOn(c.asNr == INVALID);
      if c.asNr != INVALID {
        WarnOn(asToKctx[c.asNr] != c);
      }
      c.refcount := c.refcount + 1;
    }

    /**
     kbase_ctx_sched_release_ctx: the context keeps its slot; only the bit tells
     that it may be taken. An unmatched release goes unnoticed and leaves a negative
     count, the only way in which it breaks the invariant.
     */
    method ReleaseCtx(c: KbaseContext)
      requires Valid() && c in contexts
      modifies c`refcount, this`asFree
      ensures c.refcount == old(c.refcount) - 1
      ensures asFree == if c.refcount == 0 then old(asFree) + {c.asNr} else old(asFree)
      ensures Valid() <==> old(c.refcount) > 0
      ensures old(InSync()) ==> InSync()
    {
      c.refcount := c.refcount - 1;
      if c.refcount == 0 {
        asFree := asFree + {c.asNr};
      }
    }

    /**
     kbase_ctx_sched_remove_ctx. It warns, and breaks the invariant, exactly when
     the context is still referenced.
     */
    method RemoveCtx(c: KbaseContext)
      requires Valid() && c in contexts
      modifies c`asNr, this`asToKctx, this`hw, this`warned
      ensures c.asNr == INVALID && warned == (old(warned) || c.refcount != 0)
      ensures Valid() <==> c.refcount == 0
      ensures old(InSync()) ==> InSync()
      ensures old(c.asNr) == INVALID ==> asToKctx == old(asToKctx) && hw == old(hw)
      ensures old(c.asNr) != INVALID ==> asToKctx == old(asToKctx)[old(c.asNr) := null]
      ensures old(c.asNr) != INVALID ==> hw == if powered then old(hw)[old(c.asNr) := Disabled] else old(hw)
    {
      WarnOn(c.refcount != 0);
      if c.asNr != INVALID {
        if powered {
          Program(c.asNr, Disabled);
        }
        asToKctx := asToKctx[c.asNr := null];
        c.asNr := INVALID;
      }
    }

    /**
     kbase_ctx_sched_restore_all_as after a reset, whatever the hardware holds:
     idle contexts lose their slots, active ones are programmed again in their
     own, unbound slots are disabled, and a slot whose idle owner is dropped here
     is left as it is.
     */
    method RestoreAllAs()
      requires Valid()
      modifies this`asToKctx, this`hw, this`warned, contexts`asNr
      ensures Valid() && InSync() && warned == (old(warned) || !powered)
      ensures forall c :: c in contexts ==> c.asNr == if c.refcount > 0 then old(c.asNr) else INVALID
      ensures forall i :: 0 <= i < slots && old(asToKctx[i]) == null ==> asToKctx[i] == null && hw[i] == Disabled
      ensures forall i :: 0 <= i < slots && old(Held(asToKctx[i])) ==>
        asToKctx[i] == old(asToKctx[i]) && hw[i] == Programmed(old(asToKctx[i]))
      ensures forall i :: 0 <= i < slots && old(asToKctx[i]) != null && !old(Held(asToKctx[i])) ==>
        asToKctx[i] == null && hw[i] == old(hw[i])
    {
      ghost var owners0, hw0 := asToKctx, hw;
      WarnOn(!powered);
      for i := 0 to slots
        invariant Valid() && warned == (old(warned) || !powered)
        invariant forall j :: i <= j < slots ==> asToKctx[j] == owners0[j] && hw[j] == hw0[j]
        invariant forall j :: 0 <= j < i ==> Restored(owners0[j], old(Held(asToKctx[j])), hw0[j], asToKctx[j], hw[j])
        invariant forall c :: c in contexts ==>
          c.asNr == if c.refcount == 0 && 0 <= old(c.asNr) < i then INVALID else old(c.asNr)
      {
        RestoreSlot(i);
      }
    }

    /** One iteration. */
    method RestoreSlot(i: nat)
      requires Valid() && i < slots
      modifies this`asToKctx, this`hw, this`warned, contexts`asNr
      ensures Valid() && warned == old(warned)
      ensures Restored(old(asToKctx[i]), old(Held(asToKctx[i])), old(hw[i]), asToKctx[i], hw[i])
      ensures forall j :: 0 <= j < slots && j != i ==> asToKctx[j] == old(asToKctx[j]) && hw[j] == old(hw[j])
      ensures forall c :: c in contexts ==>
        c.asNr == if c.refcount == 0 && old(c.asNr) == i then INVALID else old(c.asNr)
    {
      var c := asToKctx[i];
      if c != null {
        if c.refcount != 0 {
          WarnOn(c.asNr != i);
          Program(c.asNr, Programmed(c));
        } else {
          asToKctx := asToKctx[c.asNr := null];
          c.asNr := INVALID;
        }
      } else {
        Program(i, Disabled);
      }
    }
  }

  ghost function ActiveContexts(d: Device): set<KbaseContext>
    reads d, d.contexts
  {
    set c | c in d.contexts && c.refcount > 0
  }

  ghost function FreeBelow(d: Device, n: nat): set<nat>
    reads d
  {
    set i | i in d.asFree && i < n
  }

  ghost function ActiveBelow(d: Device, n: nat): set<KbaseContext>
    reads d, d.contexts
  {
    set c | c in d.contexts && c.refcount > 0 && c.asNr < n
  }

  lemma OneMoreSlot(d: Device, n: nat)
    requires d.Valid() && n < d.slots
    ensures n in d.asFree ==> FreeBelow(d, n + 1) == FreeBelow(d, n) + {n} && ActiveBelow(d, n + 1) == ActiveBelow(d, n)
    ensures n !in d.asFree ==> FreeBelow(d, n + 1) == FreeBelow(d, n)
    ensures n !in d.asFree ==>
      d.asToKctx[n] != null && ActiveBelow(d, n + 1) == ActiveBelow(d, n) + {d.asToKctx[n]} &&
          d.asToKctx[n] !in ActiveBelow(d, n)
  {
  }

  lemma {:induction false} SlotsAccountedUpTo(d: Device, n: nat)
    requires d.Valid() && n <= d.slots
    ensures |FreeBelow(d, n)| + |ActiveBelow(d, n)| == n
  {
    if n == 0 {
      assert FreeBelow(d, n) == {} && ActiveBelow(d, n) == {};
    } else {
      SlotsAccountedUpTo(d, n - 1);
      OneMoreSlot(d, n - 1);
    }
  }

  /**
   Free slots and active contexts add up to the number of slots, so no slot is free
   exactly when that many contexts are active.
   */
  lemma SlotsAccounted(d: Device)
    requires d.Valid()
    ensures |d.asFree| + |ActiveContexts(d)| == d.slots
    ensures d.asFree == {} <==> |ActiveContexts(d)| == d.slots
  {
    SlotsAccountedUpTo(d, d.slots);
    assert ActiveContexts(d) == ActiveBelow(d, d.slots) && d.asFree == FreeBelow(d, d.slots);
  }

  /** Once every context is removed no slot is bound, so term does not warn. */
  lemma AllRemovedIff(d: Device)
    requires d.Valid()
    ensures (forall c :: c in d.contexts ==> c.asNr == INVALID) <==>
      (forall i :: 0 <= i < d.slots ==> d.asToKctx[i] == null)
  {
    if forall c :: c in d.contexts ==> c.asNr == INVALID {
      forall i | 0 <= i < d.slots
        ensures d.asToKctx[i] == null
      {
      }
    }
  }
}
