/**
 The dma-fence waits of a kbase context (mali_kbase_dma_fence.c on top of
 mali_kbase_fence.c) as an interleaving transition system. One thread at a time
 holds jctx.lock and takes the atomic steps of the routine it is in; fences
 signal and workers start between any two of those steps.
 */
module KbaseFence {
  import opened Collections

  /**
   A registered callback: its fence has not signalled; it has, and took the count
   to zero but has not queued the work yet (the fence's lock is still held); or
   it is over.
   */
  datatype Callback = Unfired | Firing | Fired

  datatype Handling = Immediate | ByWorker | Cancelled | Failed

  /** One struct kbase_jd_atom; waits, handled, queued and warned record its history. */
  datatype Atom = Atom(
    depCount: int,
    callbacks: seq<Callback>,
    pending: bool,
    running: bool,
    waits: nat,
    handled: seq<Handling>,
    queued: nat,
    warned: bool)

  /** Where kbase_fence_free_callbacks was called from. */
  datatype Caller = InnerError | FinalError | AfterImmediate | InWorker | InCancelAll | InCancelCallbacks

  /** The next step of the routine that holds the lock, as far as one atom is concerned. */
  datatype Role =
    | Off
    | LockReservations
    | Register
    | AddToFence
    | Uncount(failed: bool)
    | Join
    | MarkImmediate
    | Free(reachedZero: bool, removed: bool, caller: Caller)
    | MarkFailed
    | MarkByWorker
    | LeaveWaiters
    | MarkCancelled

  /** scanning: the routine was called from within cancel-all, to which it returns. */
  datatype Holder = Idle | ScanWaiters | At(atom: nat, role: Role, scanning: bool)

  datatype State = State(holder: Holder, atoms: seq<Atom>, waiting: seq<nat>)

  datatype Event =
    | BeginWait(a: nat)
    | Reserved(ok: bool)
    | AddCallback
    | Added
    | NotAdded(failed: bool)
    | RegisterError(freed: bool)
    | DropBias
    | Proceed
    | Fire(a: nat, k: nat)
    | QueueFrom(a: nat, k: nat)
    | WorkStart(a: nat)
    | WorkEnter(a: nat)
    | CancelAll
    | CancelCallbacks(a: nat)

  /** kbase_dma_fence_queue_work; warned is its WARN_ON. */
  function QueueWork(x: Atom): Atom {
    x.(pending := true, queued := x.queued + 1, warned := x.warned || x.pending)
  }

  function Mark(x: Atom, how: Handling): Atom {
    x.(depCount := -1, handled := x.handled + [how])
  }

  datatype Local = Local(atom: Atom, role: Role, waits: bool)

  /** One step of the lock holder on its atom; w says whether the atom is on the waiters list. */
  function HolderStep(x: Atom, r: Role, w: bool, e: Event): Option<Local> {
    match r
    case LockReservations =>
      if !e.Reserved? then None
      else if e.ok then Some(Local(x, Register, w))
      else Some(Local(Mark(x, Failed), Off, w))
    case Register =>
      if e.AddCallback? then Some(Local(x.(depCount := x.depCount + 1), AddToFence, w))
      else if e.RegisterError? then Some(Local(x, Free(false, false, if e.freed then InnerError else FinalError), w))
      else if e.DropBias? then
        Some(Local(x.(depCount := x.depCount - 1), if x.depCount - 1 == 0 then MarkImmediate else Join, w))
      else None
    case AddToFence =>
      if e.Added? then Some(Local(x.(callbacks := [Unfired] + x.callbacks), Register, w))
      else if e.NotAdded? then Some(Local(x, Uncount(e.failed), w))
      else None
    case Uncount(failed) =>
      if !e.Proceed? then None
      else Some(Local(x.(depCount := x.depCount - 1), if failed then Free(false, false, InnerError) else Register, w))
    case Join => if e.Proceed? then Some(Local(x, Off, true)) else None
    case MarkImmediate =>
      if e.Proceed? then Some(Local(Mark(x, Immediate), Free(false, false, AfterImmediate), w)) else None
    case Free(_, _, _) => if e.Proceed? then FreeStep(x, r, w) else None
    case MarkFailed => if e.Proceed? then Some(Local(Mark(x, Failed), Off, w)) else None
    case MarkByWorker => if e.Proceed? then Some(Local(Mark(x, ByWorker), LeaveWaiters, w)) else None
    case LeaveWaiters => if e.Proceed? then Some(Local(x, Free(false, false, InWorker), false)) else None
    case MarkCancelled => if e.Proceed? then Some(Local(Mark(x, Cancelled), Off, w)) else None
    case Off => None
  }

  /**
   kbase_fence_free_callbacks, one callback at a time: remove it from its fence
   (which waits for a signaller holding the fence's lock), then uncount it if it
   had not fired.
   */
  function FreeStep(x: Atom, r: Role, w: bool): Option<Local>
    requires r.Free?
  {
    if r.removed then
      Some(Local(x.(depCount := x.depCount - 1), Free(r.reachedZero || x.depCount - 1 == 0, false, r.caller), w))
    else if x.callbacks == [] then
      Some(AfterFree(x, r, w))
    else if x.callbacks[0].Firing? then
      None
    else
      Some(Local(x.(callbacks := x.callbacks[1..]), Free(r.reachedZero, x.callbacks[0].Unfired?, r.caller), w))
  }

  function AfterFree(x: Atom, r: Role, w: bool): Local
    requires r.Free?
  {
    match r.caller
    case InnerError => Local(x, Free(false, false, FinalError), w)
    case FinalError => Local(x, MarkFailed, w)
    case AfterImmediate => Local(x, Off, w)
    case InWorker => Local(x.(running := false), Off, w)
    case InCancelAll => Local(x, MarkCancelled, w)
    case InCancelCallbacks => Local(if r.reachedZero then QueueWork(x) else x, Off, w)
  }

  /** A cancelled atom is used again only after its context's workqueue was flushed. */
  predicate Reusable(x: Atom) {
    x.depCount == -1 && (x.handled != [] && x.handled[|x.handled| - 1].Cancelled? ==> !x.pending && !x.running)
  }

  /** Fence k signals: its callback counts down, and goes on to queue the work if it reaches zero. */
  function Signalled(x: Atom, k: nat): Atom
    requires k < |x.callbacks|
  {
    var callback := if x.depCount - 1 == 0 then Firing else Fired;
    x.(depCount := x.depCount - 1, callbacks := x.callbacks[k := callback])
  }

  /** Steps that need no lock. */
  function FreeRunning(x: Atom, e: Event): Option<Atom> {
    match e
    case Fire(_, k) =>
      if k >= |x.callbacks| || !x.callbacks[k].Unfired? then None
      else Some(Signalled(x, k))
    case QueueFrom(_, k) =>
      if k >= |x.callbacks| || !x.callbacks[k].Firing? then None
      else Some(QueueWork(x.(callbacks := x.callbacks[k := Fired])))
    case WorkStart(_) => if x.pending && !x.running then Some(x.(pending := false, running := true)) else None
    case _ => None
  }

  /** A routine takes the free lock on behalf of one atom. */
  function Enter(x: Atom, e: Event): Option<(Atom, Role)> {
    match e
    case BeginWait(_) =>
      if Reusable(x) then Some((x.(depCount := 1, waits := x.waits + 1, queued := 0), LockReservations)) else None
    case WorkEnter(_) =>
      if !x.running then None
      else if x.depCount != 0 then Some((x.(running := false), Off))
      else Some((x, MarkByWorker))
    case CancelCallbacks(_) => Some((x, Free(false, false, InCancelCallbacks)))
    case _ => None
  }

  function Without(s: seq<nat>, a: nat): seq<nat> {
    if s == [] then [] else if s[0] == a then s[1..] else [s[0]] + Without(s[1..], a)
  }

  function Relist(waiting: seq<nat>, a: nat, w: bool): seq<nat> {
    if w == (a in waiting) then waiting else if w then waiting + [a] else Without(waiting, a)
  }

  function Holding(a: nat, r: Role, scanning: bool): Holder {
    if !r.Off? then At(a, r, scanning) else if scanning then ScanWaiters else Idle
  }

  /**
   A routine can start when the lock is free. Completing a cancelled atom also
   cancels the callbacks of atoms that depend on it, between two atoms of cancel-all
   and with the lock held.
   */
  predicate CanEnter(h: Holder, e: Event) {
    h.Idle? || (h.ScanWaiters? && e.CancelCallbacks?)
  }

  /** One atomic step; None when the event cannot happen. */
  function Step(s: State, e: Event): Option<State> {
    match e
    case Fire(a, _) => StepFree(s, a, e)
    case QueueFrom(a, _) => StepFree(s, a, e)
    case WorkStart(a) => StepFree(s, a, e)
    case BeginWait(a) => StepEnter(s, a, e)
    case WorkEnter(a) => StepEnter(s, a, e)
    case CancelCallbacks(a) => StepEnter(s, a, e)
    case CancelAll => if s.holder.Idle? then Some(s.(holder := ScanWaiters)) else None
    case _ => StepHolder(s, e)
  }

  function StepFree(s: State, a: nat, e: Event): Option<State> {
    if a >= |s.atoms| || FreeRunning(s.atoms[a], e).None? then None
    else Some(s.(atoms := s.atoms[a := FreeRunning(s.atoms[a], e).value]))
  }

  function StepEnter(s: State, a: nat, e: Event): Option<State> {
    if a >= |s.atoms| || !CanEnter(s.holder, e) || Enter(s.atoms[a], e).None? then None
    else
      var (x, r) := Enter(s.atoms[a], e).value;
      Some(State(Holding(a, r, s.holder.ScanWaiters?), s.atoms[a := x], s.waiting))
  }

  function StepHolder(s: State, e: Event): Option<State> {
    match s.holder
    case Idle => None
    case ScanWaiters =>
      if !e.Proceed? then None
      else if s.waiting == [] then Some(s.(holder := Idle))
      else Some(s.(holder := At(s.waiting[0], Free(false, false, InCancelAll), true), waiting := s.waiting[1..]))
    case At(a, r, scanning) =>
      if a >= |s.atoms| then None
      else
        var l := HolderStep(s.atoms[a], r, a in s.waiting, e);
        if l.None? then None
        else Some(State(
          Holding(a, l.value.role, scanning),
          s.atoms[a := l.value.atom],
          Relist(s.waiting, a, l.value.waits)))
  }

  function FreshAtom(): Atom {
    Atom(-1, [], false, false, 0, [], 0, false)
  }

  function Init(n: nat): State {
    State(Idle, seq(n, _ => FreshAtom()), [])
  }

  function Run(s: State, es: seq<Event>): Option<State>
    decreases |es|
  {
    if es == [] then Some(s)
    else
      var t := Step(s, es[0]);
      if t.None? then None else Run(t.value, es[1..])
  }

  /** s occurs in some run of n atoms. */
  ghost predicate Reachable(n: nat, s: State) {
    exists es :: Run(Init(n), es) == Some(s)
  }

  /** The count the waiting thread holds on to while it registers callbacks. */
  function Bias(r: Role): nat {
    Bit(r.LockReservations? || r.Register? || r.AddToFence? || r.Uncount? || r.MarkFailed?
      || (r.Free? && (r.caller.InnerError? || r.caller.FinalError?)))
  }

  /** A count held for a callback being added to or removed from its fence. */
  function InTransit(r: Role): nat {
    Bit(r.AddToFence? || r.Uncount? || (r.Free? && r.removed))
  }

  /** Work items queued, running, or about to be queued. */
  function Work(x: Atom, r: Role): nat {
    Bit(x.pending) + Bit(x.running) + ToQueue(x, r)
  }

  function ToQueue(x: Atom, r: Role): nat {
    Num(x.callbacks, Firing) + Bit(r.Free? && r.caller.InCancelCallbacks? && r.reachedZero)
  }

  predicate Handled(x: Atom) {
    x.depCount == -1
  }

  /** Counting and history of one atom, given the holder's role and its place on the waiters list. */
  ghost predicate Counted(x: Atom, r: Role) {
    && (if Handled(x) then Bias(r) + InTransit(r) + Num(x.callbacks, Unfired) == 0
        else x.depCount == Bias(r) + InTransit(r) + Num(x.callbacks, Unfired))
    && |x.handled| + Bit(!Handled(x)) == x.waits
  }

  /** The registering thread is done with the atom, and nobody is cancelling or completing it. */
  predicate Awaiting(r: Role) {
    r.Off? || r.Join? || r.MarkByWorker? || (r.Free? && r.caller.InCancelCallbacks?)
  }

  /** Work is queued at most once a wait, not before the count is zero, and then surely. */
  ghost predicate WorkOk(x: Atom, r: Role) {
    && !x.warned
    && x.queued + ToQueue(x, r) <= 1 && Bit(x.pending) + Bit(x.running) <= x.queued
    && (Handled(x) ==> ToQueue(x, r) == 0)
    && (x.depCount > 0 ==> x.queued + ToQueue(x, r) == 0)
    && (x.depCount == 0 && Awaiting(r) ==> Work(x, r) == 1)
    && (Handled(x) && Work(x, r) > 0 ==>
      || (x.handled != [] && x.handled[|x.handled| - 1].Cancelled?)
      || r.LeaveWaiters? || (r.Free? && r.caller.InWorker?))
  }

  /** What each step of the holder may rely on. */
  ghost predicate RoleOk(x: Atom, r: Role) {
    match r
    case Off => Handled(x) ==> x.callbacks == []
    case LockReservations => !Handled(x) && x.callbacks == []
    case Register => !Handled(x)
    case AddToFence => !Handled(x)
    case Uncount(_) => !Handled(x)
    case Join => !Handled(x)
    case MarkImmediate => x.depCount == 0 && Work(x, r) == 0
    case MarkFailed => !Handled(x) && x.callbacks == []
    case MarkByWorker => x.depCount == 0 && x.running
    case LeaveWaiters => Handled(x) && x.running
    case MarkCancelled => !Handled(x) && x.callbacks == []
    case Free(_, _, c) =>
      match c
      case InnerError => !Handled(x)
      case FinalError => !Handled(x)
      case AfterImmediate => Handled(x)
      case InWorker => Handled(x) && x.running
      case InCancelAll => !Handled(x)
      case InCancelCallbacks => Handled(x) ==> x.callbacks == []
  }

  predicate OnList(x: Atom, r: Role) {
    if Handled(x) then r.LeaveWaiters? else r.Off? || r.MarkByWorker? || (r.Free? && r.caller.InCancelCallbacks?)
  }

  ghost predicate AtomInv(x: Atom, r: Role, w: bool) {
    Counted(x, r) && WorkOk(x, r) && RoleOk(x, r) && w == OnList(x, r)
  }

  function RoleOf(h: Holder, a: nat): Role {
    if h.At? && h.atom == a then h.role else Off
  }

  ghost predicate Inv(s: State) {
    && (forall a :: 0 <= a < |s.atoms| ==> AtomInv(s.atoms[a], RoleOf(s.holder, a), a in s.waiting))
    && (forall a :: a in s.waiting ==> a < |s.atoms|) && NoDup(s.waiting)
    && (s.holder.At? ==> s.holder.atom < |s.atoms| && !s.holder.role.Off?)
  }

  lemma FireKeeps(x: Atom, r: Role, w: bool, k: nat)
    requires AtomInv(x, r, w) && k < |x.callbacks| && x.callbacks[k].Unfired?
    ensures AtomInv(Signalled(x, k), r, w)
  {
    var d := if x.depCount - 1 == 0 then Firing else Fired;
    NumUpdate(x.callbacks, k, d, Unfired);
    NumUpdate(x.callbacks, k, d, Firing);
  }

  lemma QueueKeeps(x: Atom, r: Role, w: bool, k: nat)
    requires AtomInv(x, r, w) && k < |x.callbacks| && x.callbacks[k].Firing?
    ensures AtomInv(QueueWork(x.(callbacks := x.callbacks[k := Fired])), r, w)
  {
    NumUpdate(x.callbacks, k, Fired, Unfired);
    NumUpdate(x.callbacks, k, Fired, Firing);
  }

  lemma FreeRunningKeeps(x: Atom, r: Role, w: bool, e: Event)
    requires AtomInv(x, r, w) && FreeRunning(x, e).Some?
    ensures AtomInv(FreeRunning(x, e).value, r, w)
  {
    if e.Fire? {
      FireKeeps(x, r, w, e.k);
    } else if e.QueueFrom? {
      QueueKeeps(x, r, w, e.k);
    }
  }

  lemma EnterKeeps(x: Atom, w: bool, e: Event)
    requires AtomInv(x, Off, w) && Enter(x, e).Some?
    ensures AtomInv(Enter(x, e).value.0, Enter(x, e).value.1, w)
  {
  }

  lemma FreeStepKeeps(x: Atom, r: Role, w: bool)
    requires r.Free? && AtomInv(x, r, w) && FreeStep(x, r, w).Some?
    ensures var l := FreeStep(x, r, w).value; AtomInv(l.atom, l.role, l.waits)
  {
    if r.removed {
      UncountKeeps(x, r, w);
    } else if x.callbacks != [] {
      RemoveKeeps(x, r, w);
    }
  }

  /** The count held for a removed callback is given back. */
  lemma UncountKeeps(x: Atom, r: Role, w: bool)
    requires r.Free? && r.removed && AtomInv(x, r, w)
    ensures var l := FreeStep(x, r, w).value; AtomInv(l.atom, l.role, l.waits)
  {
  }

  /** A callback is removed. */
  lemma RemoveKeeps(x: Atom, r: Role, w: bool)
    requires r.Free? && !r.removed && x.callbacks != [] && AtomInv(x, r, w) && FreeStep(x, r, w).Some?
    ensures var l := FreeStep(x, r, w).value; AtomInv(l.atom, l.role, l.waits)
  {
    NumFirst(x.callbacks, Unfired);
    NumFirst(x.callbacks, Firing);
  }

  lemma NumFirst(cs: seq<Callback>, c: Callback)
    requires cs != []
    ensures Num(cs, c) == Bit(cs[0] == c) + Num(cs[1..], c)
  {
  }

  lemma AddedKeeps(x: Atom, w: bool)
    requires AtomInv(x, AddToFence, w)
    ensures AtomInv(x.(callbacks := [Unfired] + x.callbacks), Register, w)
  {
    var cs := [Unfired] + x.callbacks;
    NumFirst(cs, Unfired);
    NumFirst(cs, Firing);
    assert cs[1..] == x.callbacks;
  }

  lemma HolderStepKeeps(x: Atom, r: Role, w: bool, e: Event)
    requires AtomInv(x, r, w) && HolderStep(x, r, w, e).Some?
    ensures var l := HolderStep(x, r, w, e).value; AtomInv(l.atom, l.role, l.waits)
  {
    if r.Free? {
      FreeStepKeeps(x, r, w);
    } else if e.Added? {
      AddedKeeps(x, w);
    } else if !e.Proceed? {
      RegisterKeeps(x, r, w, e);
    } else {
      ProceedKeeps(x, r, w);
    }
  }

  lemma ProceedKeeps(x: Atom, r: Role, w: bool)
    requires AtomInv(x, r, w) && !r.Free? && HolderStep(x, r, w, Proceed).Some?
    ensures var l := HolderStep(x, r, w, Proceed).value; AtomInv(l.atom, l.role, l.waits)
  {
  }

  /** Registration steps other than the successful addition of a callback. */
  lemma RegisterKeeps(x: Atom, r: Role, w: bool, e: Event)
    requires AtomInv(x, r, w) && HolderStep(x, r, w, e).Some? && !e.Proceed? && !e.Added?
    ensures var l := HolderStep(x, r, w, e).value; AtomInv(l.atom, l.role, l.waits)
  {
  }

  lemma NoDupCons(b: nat, t: seq<nat>)
    requires NoDup(t) && b !in t
    ensures NoDup([b] + t)
  {
  }

  lemma NoDupTail(s: seq<nat>)
    requires NoDup(s) && s != []
    ensures NoDup(s[1..]) && s[0] !in s[1..] && forall b :: b in s <==> b == s[0] || b in s[1..]
  {
  }

  lemma {:induction false} WithoutSpec(s: seq<nat>, a: nat)
    requires NoDup(s)
    ensures NoDup(Without(s, a)) && forall b :: b in Without(s, a) <==> b in s && b != a
  {
    if s != [] {
      NoDupTail(s);
      if s[0] != a {
        WithoutSpec(s[1..], a);
        NoDupCons(s[0], Without(s[1..], a));
      }
    }
  }

  lemma RelistSpec(s: seq<nat>, a: nat, w: bool)
    requires NoDup(s)
    ensures NoDup(Relist(s, a, w)) && (a in Relist(s, a, w) <==> w)
    ensures forall b :: b != a ==> (b in Relist(s, a, w) <==> b in s)
  {
    WithoutSpec(s, a);
  }

  /** Changing one atom, the holder's role on it and its place on the list concerns no other atom. */
  lemma OneAtomChanged(s: State, a: nat, x: Atom, h: Holder, ws: seq<nat>)
    requires Inv(s) && a < |s.atoms| && AtomInv(x, RoleOf(h, a), a in ws)
    requires forall b: nat :: b != a ==> RoleOf(h, b) == RoleOf(s.holder, b)
    requires forall b :: b != a ==> (b in ws <==> b in s.waiting)
    requires NoDup(ws) && (h.At? ==> h.atom < |s.atoms| && !h.role.Off?)
    ensures Inv(State(h, s.atoms[a := x], ws))
  {
  }

  lemma StepFreeKeeps(s: State, a: nat, e: Event)
    requires Inv(s) && StepFree(s, a, e).Some?
    ensures Inv(StepFree(s, a, e).value)
  {
    FreeRunningKeeps(s.atoms[a], RoleOf(s.holder, a), a in s.waiting, e);
    OneAtomChanged(s, a, FreeRunning(s.atoms[a], e).value, s.holder, s.waiting);
  }

  lemma StepEnterKeeps(s: State, a: nat, e: Event)
    requires Inv(s) && StepEnter(s, a, e).Some?
    ensures Inv(StepEnter(s, a, e).value)
  {
    EnterKeeps(s.atoms[a], a in s.waiting, e);
    var (x, r) := Enter(s.atoms[a], e).value;
    OneAtomChanged(s, a, x, Holding(a, r, s.holder.ScanWaiters?), s.waiting);
  }

  lemma ScanKeeps(s: State)
    requires Inv(s) && s.holder.ScanWaiters? && s.waiting != []
    ensures Inv(s.(holder := At(s.waiting[0], Free(false, false, InCancelAll), true), waiting := s.waiting[1..]))
  {
    var a := s.waiting[0];
    NoDupTail(s.waiting);
    assert AtomInv(s.atoms[a], Off, true);
    OneAtomChanged(s, a, s.atoms[a], At(a, Free(false, false, InCancelAll), true), s.waiting[1..]);
    assert s.atoms[a := s.atoms[a]] == s.atoms;
  }

  lemma StepHolderKeeps(s: State, e: Event)
    requires Inv(s) && StepHolder(s, e).Some?
    ensures Inv(StepHolder(s, e).value)
  {
    if s.holder.At? {
      var a, r := s.holder.atom, s.holder.role;
      var l := HolderStep(s.atoms[a], r, a in s.waiting, e).value;
      HolderStepKeeps(s.atoms[a], r, a in s.waiting, e);
      RelistSpec(s.waiting, a, l.waits);
      OneAtomChanged(s, a, l.atom, Holding(a, l.role, s.holder.scanning), Relist(s.waiting, a, l.waits));
    } else if s.waiting != [] {
      ScanKeeps(s);
    }
  }

  /** Every step keeps the invariant. */
  lemma StepKeeps(s: State, e: Event)
    requires Inv(s) && Step(s, e).Some?
    ensures Inv(Step(s, e).value)
  {
    match e
    case Fire(a, _) => StepFreeKeeps(s, a, e);
    case QueueFrom(a, _) => StepFreeKeeps(s, a, e);
    case WorkStart(a) => StepFreeKeeps(s, a, e);
    case BeginWait(a) => StepEnterKeeps(s, a, e);
    case WorkEnter(a) => StepEnterKeeps(s, a, e);
    case CancelCallbacks(a) => StepEnterKeeps(s, a, e);
    case CancelAll =>
    case _ => StepHolderKeeps(s, e);
  }

  lemma {:induction false} RunKeeps(s: State, es: seq<Event>)
    requires Inv(s) && Run(s, es).Some?
    ensures Inv(Run(s, es).value)
    decreases |es|
  {
    if es != [] {
      StepKeeps(s, es[0]);
      RunKeeps(Step(s, es[0]).value, es[1..]);
    }
  }

  lemma FreshInv(x: Atom, r: Role)
    requires r.Off? && x.depCount == -1 && x.callbacks == [] && !x.pending && !x.running
    requires x.waits == 0 && x.handled == [] && x.queued == 0 && !x.warned
    ensures AtomInv(x, r, false)
  {
  }

  lemma InitInv(n: nat)
    ensures Inv(Init(n))
  {
    var s := Init(n);
    forall a | 0 <= a < |s.atoms|
      ensures AtomInv(s.atoms[a], RoleOf(s.holder, a), a in s.waiting)
    {
      FreshInv(s.atoms[a], RoleOf(s.holder, a));
    }
  }

  lemma ReachableInv(n: nat, s: State)
    requires Reachable(n, s)
    ensures Inv(s)
  {
    var es :| Run(Init(n), es) == Some(s);
    InitInv(n);
    RunKeeps(Init(n), es);
  }

  /**
   Until its wait is handled, an atom's count is the bias plus its registered
   unfired callbacks plus the callback being added or removed; afterwards it
   stays -1 and no callback is left that could change it.
   */
  lemma DepCountMeaning(n: nat, s: State, a: nat)
    requires Reachable(n, s) && a < |s.atoms|
    ensures var x, r := s.atoms[a], RoleOf(s.holder, a);
            if x.depCount == -1 then Num(x.callbacks, Unfired) == 0
            else x.depCount == Bias(r) + InTransit(r) + Num(x.callbacks, Unfired)
  {
    ReachableInv(n, s);
  }

  /** Every wait is handled at most once, and exactly once as soon as the count is -1. */
  lemma HandledOnce(n: nat, s: State, a: nat)
    requires Reachable(n, s) && a < |s.atoms|
    ensures var x := s.atoms[a]; |x.handled| == if x.depCount == -1 then x.waits else x.waits - 1
  {
    ReachableInv(n, s);
  }

  /** Whenever the lock is free, exactly the atoms whose wait is not handled are on the waiters list, once each. */
  lemma WaitersAreUnhandled(n: nat, s: State, a: nat)
    requires Reachable(n, s) && a < |s.atoms| && s.holder.Idle?
    ensures a in s.waiting <==> s.atoms[a].depCount >= 0
    ensures NoDup(s.waiting)
  {
    ReachableInv(n, s);
  }

  /** Nothing is queued for x, its count is zero, the bias is gone, and every callback has fired or been removed. */
  ghost predicate ReadyToQueue(x: Atom, r: Role) {
    && !x.pending && !x.running && x.depCount == 0
    && Num(x.callbacks, Unfired) == 0 && Bias(r) == 0
  }

  lemma FreeRunningQueues(x: Atom, r: Role, w: bool, e: Event)
    requires AtomInv(x, r, w) && FreeRunning(x, e).Some? && FreeRunning(x, e).value.queued > x.queued
    ensures ReadyToQueue(x, r)
  {
    NumUpdate(x.callbacks, e.k, Fired, Firing);
  }

  lemma HolderQueues(x: Atom, r: Role, w: bool, e: Event)
    requires AtomInv(x, r, w) && HolderStep(x, r, w, e).Some? && HolderStep(x, r, w, e).value.atom.queued > x.queued
    ensures ReadyToQueue(x, r)
  {
  }

  predicate Queues(s: State, t: State, a: nat) {
    a < |s.atoms| && a < |t.atoms| && t.atoms[a].queued > s.atoms[a].queued
  }

  lemma StepFreeQueues(s: State, b: nat, e: Event, a: nat)
    requires Inv(s) && StepFree(s, b, e).Some? && Queues(s, StepFree(s, b, e).value, a)
    ensures ReadyToQueue(s.atoms[a], RoleOf(s.holder, a))
  {
    FreeRunningQueues(s.atoms[a], RoleOf(s.holder, a), a in s.waiting, e);
  }

  lemma StepHolderQueues(s: State, e: Event, a: nat)
    requires Inv(s) && StepHolder(s, e).Some? && Queues(s, StepHolder(s, e).value, a)
    ensures ReadyToQueue(s.atoms[a], RoleOf(s.holder, a))
  {
    if s.holder.At? {
      HolderQueues(s.atoms[a], RoleOf(s.holder, a), a in s.waiting, e);
    }
  }

  lemma StepQueues(s: State, e: Event, a: nat)
    requires Inv(s) && Step(s, e).Some? && Queues(s, Step(s, e).value, a)
    ensures ReadyToQueue(s.atoms[a], RoleOf(s.holder, a))
  {
    match e
    case Fire(b, _) => StepFreeQueues(s, b, e, a);
    case QueueFrom(b, _) => StepFreeQueues(s, b, e, a);
    case WorkStart(b) => StepFreeQueues(s, b, e, a);
    case BeginWait(_) =>
    case WorkEnter(_) =>
    case CancelCallbacks(_) =>
    case CancelAll =>
    case _ => StepHolderQueues(s, e, a);
  }

  /**
   Work is queued at most once per wait, the warning about queued work never fires,
   and work is queued only when every callback has fired or been removed and the
   bias is gone.
   */
  lemma WorkQueuedOnce(n: nat, s: State, e: Event, a: nat)
    requires Reachable(n, s) && a < |s.atoms| && Step(s, e).Some?
    ensures s.atoms[a].queued <= 1 && !s.atoms[a].warned
    ensures Queues(s, Step(s, e).value, a) ==> ReadyToQueue(s.atoms[a], RoleOf(s.holder, a))
  {
    ReachableInv(n, s);
    assert AtomInv(s.atoms[a], RoleOf(s.holder, a), a in s.waiting);
    if Queues(s, Step(s, e).value, a) {
      StepQueues(s, e, a);
    }
  }

  /** The step from s to t lets atom a go on, rather than fail or be cancelled. */
  predicate Releases(s: State, t: State, a: nat) {
    && a < |s.atoms| && a < |t.atoms|
    && |t.atoms[a].handled| > |s.atoms[a].handled| && t.atoms[a].handled[|s.atoms[a].handled|] in {Immediate, ByWorker}
  }

  lemma StepHolderReleases(s: State, e: Event, a: nat)
    requires Inv(s) && StepHolder(s, e).Some? && Releases(s, StepHolder(s, e).value, a)
    ensures s.atoms[a].depCount == 0 && Num(s.atoms[a].callbacks, Unfired) == 0
  {
    if s.holder.At? {
      var r := s.holder.role;
      assert AtomInv(s.atoms[s.holder.atom], r, s.holder.atom in s.waiting);
      assert r.MarkImmediate? || r.MarkByWorker?;
    }
  }

  /** Signallers, workers and threads that take the lock add nothing to any atom's history. */
  lemma OthersReleaseNothing(s: State, e: Event, a: nat)
    requires Step(s, e).Some? && a < |s.atoms| && Releases(s, Step(s, e).value, a)
    ensures StepHolder(s, e).Some? && Step(s, e) == StepHolder(s, e)
  {
    match e
    case Fire(_, _) =>
    case QueueFrom(_, _) =>
    case WorkStart(_) =>
    case BeginWait(_) =>
    case WorkEnter(_) =>
    case CancelCallbacks(_) =>
    case CancelAll =>
    case _ =>
  }

  /** An atom goes on only when its count is zero and no fence it is still registered on is unsignalled. */
  lemma ReleasedOnlyWhenClear(n: nat, s: State, e: Event, a: nat)
    requires Reachable(n, s) && Step(s, e).Some? && Releases(s, Step(s, e).value, a)
    ensures s.atoms[a].depCount == 0 && Num(s.atoms[a].callbacks, Unfired) == 0
  {
    ReachableInv(n, s);
    OthersReleaseNothing(s, e, a);
    StepHolderReleases(s, e, a);
  }

  /** The callback the holder is about to remove is still queueing the work its fence's signal led to. */
  predicate AwaitsQueueing(s: State) {
    && s.holder.At? && s.holder.role.Free? && !s.holder.role.removed && s.holder.atom < |s.atoms|
    && s.atoms[s.holder.atom].callbacks != [] && s.atoms[s.holder.atom].callbacks[0].Firing?
  }

  /**
   The lock is never held up by a fence that has not signalled: whoever holds it
   has a next step of its own, unless it waits for a callback that is under way, and
   then that callback's next step ends the wait.
   */
  lemma HolderNotBlocked(n: nat, s: State)
    requires Reachable(n, s) && !s.holder.Idle?
    ensures !AwaitsQueueing(s) ==> exists e :: Step(s, e).Some? && Step(s, e) == StepHolder(s, e)
    ensures AwaitsQueueing(s) ==>
      var t := Step(s, QueueFrom(s.holder.atom, 0));
      t.Some? && t.value.holder == s.holder && !AwaitsQueueing(t.value)
  {
    ReachableInv(n, s);
    if !AwaitsQueueing(s) {
      var e := if s.holder.ScanWaiters? then Proceed else
        match s.holder.role
        case LockReservations => Reserved(true)
        case Register => DropBias
        case AddToFence => Added
        case _ => Proceed;
      assert Step(s, e).Some? && Step(s, e) == StepHolder(s, e);
    }
  }

  /**
   No wake-up is lost: when the lock is free, a waiting atom whose count is zero
   has exactly one work item queued, running or about to be queued by the signaller
   that reached zero; one whose count is positive has none.
   */
  lemma WakeUpNotLost(n: nat, s: State, a: nat)
    requires Reachable(n, s) && a < |s.atoms| && s.holder.Idle? && a in s.waiting
    ensures var x := s.atoms[a];
            Bit(x.pending) + Bit(x.running) + Num(x.callbacks, Firing) == if x.depCount == 0 then 1 else 0
  {
    ReachableInv(n, s);
  }

  /** A worker that finds a non-zero count is the leftover of a wait that was cancelled. */
  lemma IdleWorkerMeansCancelled(n: nat, s: State, a: nat)
    requires Reachable(n, s) && a < |s.atoms| && s.holder.Idle? && s.atoms[a].running && s.atoms[a].depCount != 0
    ensures var x := s.atoms[a]; x.depCount == -1 && x.handled != [] && x.handled[|x.handled| - 1] == Cancelled
  {
    ReachableInv(n, s);
  }

  /** Only a cancelled wait can leave work behind, so only a cancelled atom needs the flush before reuse. */
  lemma OnlyCancelledNeedFlush(n: nat, s: State, a: nat)
    requires Reachable(n, s) && a < |s.atoms| && s.holder.Idle? && s.atoms[a].depCount == -1
    requires s.atoms[a].handled == [] || s.atoms[a].handled[|s.atoms[a].handled| - 1] != Cancelled
    ensures !s.atoms[a].pending && !s.atoms[a].running && s.atoms[a].callbacks == []
  {
    ReachableInv(n, s);
  }
}
