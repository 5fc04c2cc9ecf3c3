/**
 What the routines of mali_kbase_dma_fence.c achieve between taking and giving up
 jctx.lock, whatever fences signal and workers start in between.
 */
module KbaseRoutines {
  import opened Collections
  import opened KbaseFence

  /** es leads from s, with the lock held all the way, to t, where it is free again. */
  ghost predicate Section(s: State, es: seq<Event>, t: State)
    decreases |es|
  {
    if es == [] then s == t && t.holder.Idle?
    else !s.holder.Idle? && Step(s, es[0]).Some? && Section(Step(s, es[0]).value, es[1..], t)
  }

  /** A routine that takes the free lock in s with the event e gives it up again in t. */
  ghost predicate Routine(s: State, e: Event, es: seq<Event>, t: State) {
    s.holder.Idle? && Step(s, e).Some? && Section(Step(s, e).value, es, t)
  }

  /** What cancel-all has done to an atom: cancelled its wait, or left its history alone. */
  predicate Left(x0: Atom, x: Atom, cancelled: bool) {
    if cancelled then x.depCount == -1 && x.callbacks == [] && x.handled == x0.handled + [Cancelled]
    else x.handled == x0.handled
  }

  /** Inside cancel-all, started in s0: the first i waiters are off the list, the first k of them cancelled. */
  ghost predicate Scanning(s0: State, s: State, i: nat, k: nat) {
    && k <= i <= |s0.waiting| && s.waiting == s0.waiting[i..] && |s.atoms| == |s0.atoms|
    && (forall a :: 0 <= a < |s.atoms| ==> Left(s0.atoms[a], s.atoms[a], a in s0.waiting[..k]))
    && match s.holder
       case Idle => i == k == |s0.waiting|
       case ScanWaiters => i == k
       case At(a, r, scanning) =>
         && scanning
         && if r.Free? && r.caller.InCancelCallbacks? then i == k
            else i == k + 1 && a == s0.waiting[k] && (r.MarkCancelled? || (r.Free? && r.caller.InCancelAll?))
  }

  lemma ScanFree(s0: State, s: State, i: nat, k: nat, a: nat, e: Event)
    requires Inv(s) && Scanning(s0, s, i, k) && StepFree(s, a, e).Some?
    ensures Scanning(s0, StepFree(s, a, e).value, i, k)
  {
  }

  lemma ScanHolder(s0: State, s: State, i: nat, k: nat, e: Event) returns (i': nat, k': nat)
    requires Inv(s) && NoDup(s0.waiting) && Scanning(s0, s, i, k) && StepHolder(s, e).Some?
    ensures Scanning(s0, StepHolder(s, e).value, i', k')
  {
    i', k' := i, k;
    if s.holder.ScanWaiters? {
      i' := if s.waiting == [] then i else i + 1;
    } else {
      var a, r := s.holder.atom, s.holder.role;
      assert AtomInv(s.atoms[a], r, a in s.waiting);
      if r.MarkCancelled? {
        k' := k + 1;
        assert s0.waiting[..k + 1] == s0.waiting[..k] + [a];
      }
    }
  }

  lemma ScanStep(s0: State, s: State, i: nat, k: nat, e: Event) returns (i': nat, k': nat)
    requires Inv(s) && NoDup(s0.waiting) && Scanning(s0, s, i, k) && !s.holder.Idle? && Step(s, e).Some?
    ensures Scanning(s0, Step(s, e).value, i', k')
  {
    i', k' := i, k;
    match e
    case Fire(a, _) => ScanFree(s0, s, i, k, a, e);
    case QueueFrom(a, _) => ScanFree(s0, s, i, k, a, e);
    case WorkStart(a) => ScanFree(s0, s, i, k, a, e);
    case BeginWait(_) =>
    case WorkEnter(_) =>
    case CancelCallbacks(_) =>
    case CancelAll =>
    case _ => i', k' := ScanHolder(s0, s, i, k, e);
  }

  lemma {:induction false} ScanEnds(s0: State, s: State, i: nat, k: nat, es: seq<Event>, t: State)
    requires Inv(s) && NoDup(s0.waiting) && Scanning(s0, s, i, k) && Section(s, es, t)
    ensures Scanning(s0, t, |s0.waiting|, |s0.waiting|) && t.holder.Idle?
    decreases |es|
  {
    if es != [] {
      var i', k' := ScanStep(s0, s, i, k, es[0]);
      StepKeeps(s, es[0]);
      ScanEnds(s0, Step(s, es[0]).value, i', k', es[1..], t);
    }
  }

  /**
   kbase_dma_fence_cancel_all_atoms: when it gives up the lock nobody waits any more;
   every atom that waited is handled as cancelled, once, with no callback left, and no
   other atom's history has changed.
   */
  lemma CancelAllCancels(n: nat, s: State, es: seq<Event>, t: State)
    requires Reachable(n, s) && Routine(s, CancelAll, es, t)
    ensures t.waiting == [] && |t.atoms| == |s.atoms|
    ensures forall a :: 0 <= a < |s.atoms| && a in s.waiting ==>
      t.atoms[a].depCount == -1 && t.atoms[a].callbacks == [] && t.atoms[a].handled == s.atoms[a].handled + [Cancelled]
    ensures forall a :: 0 <= a < |s.atoms| && a !in s.waiting ==> t.atoms[a].handled == s.atoms[a].handled
  {
    ReachableInv(n, s);
    var u := Step(s, CancelAll).value;
    StepKeeps(s, CancelAll);
    assert s.waiting[..0] == [] && s.waiting[0..] == s.waiting;
    ScanEnds(s, u, 0, 0, es, t);
    assert s.waiting[..|s.waiting|] == s.waiting;
  }

  /** The lock is held on behalf of atom a, or no longer; no other atom's history or place has changed since s0. */
  ghost predicate HeldFor(s0: State, s: State, a: nat) {
    && |s.atoms| == |s0.atoms| && a < |s.atoms|
    && (s.holder.Idle? || (s.holder.At? && s.holder.atom == a && !s.holder.scanning))
    && forall b :: 0 <= b < |s.atoms| && b != a ==>
      s.atoms[b].handled == s0.atoms[b].handled && (b in s.waiting <==> b in s0.waiting)
  }

  /** One step as atom a sees it: the holder's, its own signallers' or worker's, or somebody else's. */
  ghost predicate Seen(s: State, e: Event, t: State, a: nat)
    requires a < |s.atoms| && a < |t.atoms|
  {
    var x, x', r := s.atoms[a], t.atoms[a], RoleOf(s.holder, a);
    || HolderStep(x, r, a in s.waiting, e) == Some(Local(x', RoleOf(t.holder, a), a in t.waiting))
    || ((FreeRunning(x, e) == Some(x') || x' == x) && RoleOf(t.holder, a) == r && (a in t.waiting <==> a in s.waiting)
        && (e.Fire? || e.QueueFrom? || e.WorkStart?))
  }

  lemma HolderSeen(s0: State, s: State, a: nat, e: Event)
    requires Inv(s) && HeldFor(s0, s, a) && s.holder.At? && StepHolder(s, e).Some?
    ensures HeldFor(s0, StepHolder(s, e).value, a) && Seen(s, e, StepHolder(s, e).value, a)
  {
    var l := HolderStep(s.atoms[a], s.holder.role, a in s.waiting, e).value;
    RelistSpec(s.waiting, a, l.waits);
  }

  lemma StepSeen(s0: State, s: State, a: nat, e: Event)
    requires Inv(s) && HeldFor(s0, s, a) && !s.holder.Idle? && Step(s, e).Some?
    ensures HeldFor(s0, Step(s, e).value, a) && Seen(s, e, Step(s, e).value, a)
  {
    match e
    case Fire(_, _) =>
    case QueueFrom(_, _) =>
    case WorkStart(_) =>
    case BeginWait(_) =>
    case WorkEnter(_) =>
    case CancelCallbacks(_) =>
    case CancelAll =>
    case _ => HolderSeen(s0, s, a, e);
  }

  /** The steps of a wait that make it fail. */
  predicate Errs(e: Event) {
    e == Reserved(false) || e == NotAdded(true) || e.RegisterError?
  }

  predicate AnyError(es: seq<Event>) {
    es != [] && (Errs(es[0]) || AnyError(es[1..]))
  }

  /** How many callbacks are added to a fence. */
  function Additions(es: seq<Event>): nat {
    if es == [] then 0 else Bit(es[0].Added?) + Additions(es[1..])
  }

  /** How far kbase_dma_fence_wait has come with an atom that was x0, after a failure or not and so many additions. */
  predicate WaitPart(x0: Atom, x: Atom, r: Role, failed: bool, added: nat) {
    && x.waits == x0.waits + 1
    && match r
       case LockReservations => x.handled == x0.handled && !failed && x.callbacks == [] && added == 0
       case Register => x.handled == x0.handled && !failed && |x.callbacks| == added
       case AddToFence => x.handled == x0.handled && !failed && |x.callbacks| == added
       case Uncount(f) => x.handled == x0.handled && failed == f && |x.callbacks| == added
       case Join => x.handled == x0.handled && !failed && |x.callbacks| == added
       case MarkImmediate => x.handled == x0.handled && !failed
       case MarkFailed => x.handled == x0.handled && failed
       case Free(_, _, c) =>
         if c.AfterImmediate? then x.handled == x0.handled + [Immediate] && !failed
         else (c.InnerError? || c.FinalError?) && x.handled == x0.handled && failed
       case Off =>
         if failed then x.handled == x0.handled + [Failed]
         else x.handled == x0.handled + [Immediate] || (x.handled == x0.handled && |x.callbacks| == added)
       case _ => false
  }

  lemma WaitStep(x0: Atom, s: State, a: nat, e: Event, t: State, failed: bool, added: nat)
    requires a < |s.atoms| && a < |t.atoms| && Seen(s, e, t, a)
    requires WaitPart(x0, s.atoms[a], RoleOf(s.holder, a), failed, added)
    ensures WaitPart(x0, t.atoms[a], RoleOf(t.holder, a), failed || Errs(e), added + Bit(e.Added?))
  {
  }

  lemma {:induction false} WaitEnds(s0: State, s: State, a: nat, es: seq<Event>, t: State, failed: bool, added: nat)
    requires Inv(s) && HeldFor(s0, s, a) && Section(s, es, t)
    requires WaitPart(s0.atoms[a], s.atoms[a], RoleOf(s.holder, a), failed, added)
    ensures Inv(t) && HeldFor(s0, t, a) && t.holder.Idle?
    ensures WaitPart(s0.atoms[a], t.atoms[a], Off, failed || AnyError(es), added + Additions(es))
    decreases |es|
  {
    if es != [] {
      var u := Step(s, es[0]).value;
      StepKeeps(s, es[0]);
      StepSeen(s0, s, a, es[0]);
      WaitStep(s0.atoms[a], s, a, es[0], u, failed, added);
      WaitEnds(s0, u, a, es[1..], t, failed || Errs(es[0]), added + Bit(es[0].Added?));
    }
  }

  /**
   kbase_dma_fence_wait: after a failing step the atom is handled as failed. Without one
   it is either handled at once, or waits with as many callbacks as were added to fences
   and a count of those that have not fired. Handled, it has no callback and is not on the
   list. No other atom's history or place has changed.
   */
  lemma WaitOutcome(n: nat, s: State, a: nat, es: seq<Event>, t: State)
    requires Reachable(n, s) && Routine(s, BeginWait(a), es, t)
    ensures a < |s.atoms| == |t.atoms|
    ensures var h, x := s.atoms[a].handled, t.atoms[a];
            if AnyError(es) then x.handled == h + [Failed] && Done(x) && a !in t.waiting
            else if a in t.waiting
              then x.handled == h && |x.callbacks| == Additions(es) && x.depCount == Num(x.callbacks, Unfired)
            else x.handled == h + [Immediate] && Done(x)
    ensures forall b :: 0 <= b < |s.atoms| && b != a ==>
      t.atoms[b].handled == s.atoms[b].handled && (b in t.waiting <==> b in s.waiting)
  {
    ReachableInv(n, s);
    StepKeeps(s, BeginWait(a));
    assert AtomInv(s.atoms[a], Off, a in s.waiting);
    WaitEnds(s, Step(s, BeginWait(a)).value, a, es, t, false, 0);
    assert AtomInv(t.atoms[a], Off, a in t.waiting) && AtomInv(s.atoms[a], Off, a in s.waiting);
  }

  /** A handled wait leaves no callback and a count of -1. */
  predicate Done(x: Atom) {
    x.depCount == -1 && x.callbacks == []
  }

  /** How far kbase_dma_fence_work has come with an atom that was x0 and whose count it found zero. */
  predicate WorkPart(x0: Atom, x: Atom, r: Role) {
    && x.waits == x0.waits
    && match r
       case MarkByWorker => x.handled == x0.handled
       case LeaveWaiters => x.handled == x0.handled + [ByWorker]
       case Free(_, _, c) => c.InWorker? && x.handled == x0.handled + [ByWorker]
       case Off => x.handled == x0.handled + [ByWorker] && !x.running
       case _ => false
  }

  lemma WorkStep(x0: Atom, s: State, a: nat, e: Event, t: State)
    requires a < |s.atoms| && a < |t.atoms| && Seen(s, e, t, a) && Inv(s) && s.holder.At? && s.holder.atom == a
    requires WorkPart(x0, s.atoms[a], RoleOf(s.holder, a))
    ensures WorkPart(x0, t.atoms[a], RoleOf(t.holder, a))
  {
  }

  lemma {:induction false} WorkEnds(s0: State, s: State, a: nat, es: seq<Event>, t: State)
    requires Inv(s) && HeldFor(s0, s, a) && Section(s, es, t)
    requires WorkPart(s0.atoms[a], s.atoms[a], RoleOf(s.holder, a))
    ensures Inv(t) && HeldFor(s0, t, a) && t.holder.Idle? && WorkPart(s0.atoms[a], t.atoms[a], Off)
    decreases |es|
  {
    if es != [] {
      var u := Step(s, es[0]).value;
      StepKeeps(s, es[0]);
      StepSeen(s0, s, a, es[0]);
      WorkStep(s0.atoms[a], s, a, es[0], u);
      WorkEnds(s0, u, a, es[1..], t);
    }
  }

  /**
   kbase_dma_fence_work: an atom whose count is zero is handled by the worker, which leaves
   nothing of the wait behind; an atom with another count is left alone.
   */
  lemma WorkerOutcome(n: nat, s: State, a: nat, es: seq<Event>, t: State)
    requires Reachable(n, s) && Routine(s, WorkEnter(a), es, t)
    ensures a < |s.atoms| == |t.atoms|
    ensures var x0, x := s.atoms[a], t.atoms[a];
            if x0.depCount == 0 then x.handled == x0.handled + [ByWorker] && Done(x) && a !in t.waiting && !x.running
            else es == [] && x == x0.(running := false) && t.waiting == s.waiting
    ensures forall b :: 0 <= b < |s.atoms| && b != a ==>
      t.atoms[b].handled == s.atoms[b].handled && (b in t.waiting <==> b in s.waiting)
  {
    ReachableInv(n, s);
    StepKeeps(s, WorkEnter(a));
    var u := Step(s, WorkEnter(a)).value;
    WorkBegins(s, a, u);
    if s.atoms[a].depCount == 0 {
      WorkEnds(s, u, a, es, t);
      CountsKept(s, t, a);
      HandledRests(t, a);
    }
  }

  lemma WorkBegins(s: State, a: nat, u: State)
    requires Inv(s) && s.holder.Idle? && Step(s, WorkEnter(a)) == Some(u)
    ensures a < |s.atoms| && HeldFor(s, u, a)
    ensures if s.atoms[a].depCount == 0 then u.holder.At? && WorkPart(s.atoms[a], u.atoms[a], RoleOf(u.holder, a))
            else u == s.(atoms := s.atoms[a := s.atoms[a].(running := false)])
  {
  }

  /** One more handling of the same wait is the last one. */
  lemma CountsKept(s: State, t: State, a: nat)
    requires Inv(s) && Inv(t) && s.holder.Idle? && t.holder.Idle? && a < |s.atoms| && a < |t.atoms|
    requires s.atoms[a].depCount != -1 && t.atoms[a].waits == s.atoms[a].waits
    requires |t.atoms[a].handled| > |s.atoms[a].handled|
    ensures t.atoms[a].depCount == -1
  {
    assert AtomInv(t.atoms[a], Off, a in t.waiting) && AtomInv(s.atoms[a], Off, a in s.waiting);
  }

  lemma HandledRests(t: State, a: nat)
    requires Inv(t) && t.holder.Idle? && a < |t.atoms| && t.atoms[a].depCount == -1
    ensures Done(t.atoms[a]) && a !in t.waiting
  {
    assert AtomInv(t.atoms[a], Off, a in t.waiting);
  }

  /** How far kbase_dma_fence_cancel_callbacks has come with an atom that was x0. */
  predicate CancelPart(x0: Atom, x: Atom, r: Role) {
    && x.waits == x0.waits && x.handled == x0.handled
    && match r
       case Free(_, _, c) => c.InCancelCallbacks?
       case Off => x.callbacks == []
       case _ => false
  }

  lemma CancelStep(x0: Atom, s: State, a: nat, e: Event, t: State)
    requires a < |s.atoms| && a < |t.atoms| && Seen(s, e, t, a) && Inv(s) && s.holder.At? && s.holder.atom == a
    requires CancelPart(x0, s.atoms[a], RoleOf(s.holder, a))
    ensures CancelPart(x0, t.atoms[a], RoleOf(t.holder, a))
  {
  }

  lemma {:induction false} CancelEnds(s0: State, s: State, a: nat, es: seq<Event>, t: State)
    requires Inv(s) && HeldFor(s0, s, a) && Section(s, es, t)
    requires CancelPart(s0.atoms[a], s.atoms[a], RoleOf(s.holder, a))
    ensures Inv(t) && HeldFor(s0, t, a) && t.holder.Idle? && CancelPart(s0.atoms[a], t.atoms[a], Off)
    decreases |es|
  {
    if es != [] {
      var u := Step(s, es[0]).value;
      StepKeeps(s, es[0]);
      StepSeen(s0, s, a, es[0]);
      CancelStep(s0.atoms[a], s, a, es[0], u);
      CancelEnds(s0, u, a, es[1..], t);
    }
  }

  /**
   kbase_dma_fence_cancel_callbacks: no callback is left, no history or place has changed, and
   a waiting atom has exactly the one work item it now needs.
   */
  lemma CancelCallbacksOutcome(n: nat, s: State, a: nat, es: seq<Event>, t: State)
    requires Reachable(n, s) && Routine(s, CancelCallbacks(a), es, t)
    ensures a < |s.atoms| == |t.atoms| && t.atoms[a].callbacks == []
    ensures a in s.waiting ==>
      t.atoms[a].depCount == 0 && Bit(t.atoms[a].pending) + Bit(t.atoms[a].running) == 1
    ensures forall b :: 0 <= b < |s.atoms| ==>
      t.atoms[b].handled == s.atoms[b].handled && (b in t.waiting <==> b in s.waiting)
  {
    ReachableInv(n, s);
    StepKeeps(s, CancelCallbacks(a));
    var u := Step(s, CancelCallbacks(a)).value;
    CancelBegins(s, a, u);
    CancelEnds(s, u, a, es, t);
    PlaceKept(s, t, a);
    if a in s.waiting {
      NothingLeft(t, a);
    }
  }

  lemma CancelBegins(s: State, a: nat, u: State)
    requires Inv(s) && s.holder.Idle? && Step(s, CancelCallbacks(a)) == Some(u)
    ensures a < |s.atoms| && HeldFor(s, u, a) && CancelPart(s.atoms[a], u.atoms[a], RoleOf(u.holder, a))
  {
  }

  lemma PlaceKept(s: State, t: State, a: nat)
    requires Inv(s) && Inv(t) && s.holder.Idle? && t.holder.Idle? && a < |s.atoms| && a < |t.atoms|
    requires t.atoms[a].waits == s.atoms[a].waits && t.atoms[a].handled == s.atoms[a].handled
    ensures a in t.waiting <==> a in s.waiting
  {
    assert AtomInv(t.atoms[a], Off, a in t.waiting) && AtomInv(s.atoms[a], Off, a in s.waiting);
  }

  /** A waiting atom without callbacks has a count of zero and its work item. */
  lemma NothingLeft(t: State, a: nat)
    requires Inv(t) && t.holder.Idle? && a < |t.atoms| && a in t.waiting && t.atoms[a].callbacks == []
    ensures t.atoms[a].depCount == 0 && Bit(t.atoms[a].pending) + Bit(t.atoms[a].running) == 1
  {
    assert AtomInv(t.atoms[a], Off, a in t.waiting);
  }

  /** A new wait needs an atom whose last one is over, and flushed. */
  predicate AtRest(x: Atom) {
    x.depCount == -1 && !x.pending && !x.running
  }

  /** The holder is registering callbacks, where something else decides how it goes on. */
  predicate Registering(r: Role) {
    r.LockReservations? || r.Register? || r.AddToFence?
  }

  /**
   What can happen when: a fence signals and a worker starts at any time, a routine starts
   when the lock is free (cancelling callbacks also between two atoms of cancel-all), and
   the lock holder goes on unless the callback it is to remove is still under way.
   */
  predicate Possible(s: State, e: Event) {
    match e
    case Fire(a, k) => a < |s.atoms| && k < |s.atoms[a].callbacks| && s.atoms[a].callbacks[k].Unfired?
    case QueueFrom(a, k) => a < |s.atoms| && k < |s.atoms[a].callbacks| && s.atoms[a].callbacks[k].Firing?
    case WorkStart(a) => a < |s.atoms| && s.atoms[a].pending && !s.atoms[a].running
    case WorkEnter(a) => a < |s.atoms| && s.holder.Idle? && s.atoms[a].running
    case BeginWait(a) => a < |s.atoms| && s.holder.Idle? && AtRest(s.atoms[a])
    case CancelAll => s.holder.Idle?
    case CancelCallbacks(a) => a < |s.atoms| && !s.holder.At?
    case Reserved(_) => s.holder.At? && s.holder.role.LockReservations?
    case AddCallback => s.holder.At? && s.holder.role.Register?
    case RegisterError(_) => s.holder.At? && s.holder.role.Register?
    case DropBias => s.holder.At? && s.holder.role.Register?
    case Added => s.holder.At? && s.holder.role.AddToFence?
    case NotAdded(_) => s.holder.At? && s.holder.role.AddToFence?
    case Proceed => !s.holder.Idle? && !AwaitsQueueing(s) && (s.holder.At? ==> !Registering(s.holder.role))
  }

  lemma HolderPossible(s: State, e: Event)
    requires Inv(s) && Step(s, e) == StepHolder(s, e)
    requires !e.Fire? && !e.QueueFrom? && !e.WorkStart?
    requires !e.BeginWait? && !e.WorkEnter? && !e.CancelCallbacks? && !e.CancelAll?
    ensures Step(s, e).Some? <==> Possible(s, e)
  {
    if s.holder.At? {
      RolePossible(s.atoms[s.holder.atom], s.holder.role, s.holder.atom in s.waiting, e);
    }
  }

  lemma RolePossible(x: Atom, r: Role, w: bool, e: Event)
    requires !r.Off?
    ensures HolderStep(x, r, w, e).Some? <==>
      match e
      case Reserved(_) => r.LockReservations?
      case AddCallback => r.Register?
      case RegisterError(_) => r.Register?
      case DropBias => r.Register?
      case Added => r.AddToFence?
      case NotAdded(_) => r.AddToFence?
      case Proceed => !Registering(r) && !(r.Free? && !r.removed && x.callbacks != [] && x.callbacks[0].Firing?)
      case _ => false
  {
  }

  lemma EnterPossible(s: State, a: nat, e: Event)
    requires Inv(s) && (e == BeginWait(a) || e == WorkEnter(a) || e == CancelCallbacks(a))
    ensures Step(s, e).Some? <==> Possible(s, e)
  {
    if a < |s.atoms| {
      assert AtomInv(s.atoms[a], RoleOf(s.holder, a), a in s.waiting);
    }
  }

  lemma PossibleIff(n: nat, s: State, e: Event)
    requires Reachable(n, s)
    ensures Step(s, e).Some? <==> Possible(s, e)
  {
    ReachableInv(n, s);
    match e
    case Fire(_, _) =>
    case QueueFrom(_, _) =>
    case WorkStart(_) =>
    case CancelAll =>
    case BeginWait(a) => EnterPossible(s, a, e);
    case WorkEnter(a) => EnterPossible(s, a, e);
    case CancelCallbacks(a) => EnterPossible(s, a, e);
    case _ => HolderPossible(s, e);
  }

  /** When the code warns: as work is queued for an atom whose work is queued already. */
  lemma WarnsIff(s: State, e: Event, a: nat)
    requires Step(s, e).Some? && a < |s.atoms| && a < |Step(s, e).value.atoms|
    ensures var x, y := s.atoms[a], Step(s, e).value.atoms[a];
            y.warned <==> x.warned || (x.pending && y.queued == x.queued + 1)
  {
    match e
    case Fire(_, _) =>
    case QueueFrom(_, _) =>
    case WorkStart(_) =>
    case BeginWait(_) =>
    case WorkEnter(_) =>
    case CancelCallbacks(_) =>
    case CancelAll =>
    case _ => HolderWarns(s, e, a);
  }

  lemma HolderWarns(s: State, e: Event, a: nat)
    requires StepHolder(s, e).Some? && a < |s.atoms| && a < |StepHolder(s, e).value.atoms|
    ensures var x, y := s.atoms[a], StepHolder(s, e).value.atoms[a];
            y.warned <==> x.warned || (x.pending && y.queued == x.queued + 1)
  {
    if s.holder.At? {
      RoleWarns(s.atoms[s.holder.atom], s.holder.role, s.holder.atom in s.waiting, e);
    }
  }

  lemma RoleWarns(x: Atom, r: Role, w: bool, e: Event)
    requires HolderStep(x, r, w, e).Some?
    ensures var y := HolderStep(x, r, w, e).value.atom;
            y.warned <==> x.warned || (x.pending && y.queued == x.queued + 1)
  {
  }
}
