/**
 One dma_buf_lock resource (dma_buf_lock.c) from the moment its file descriptor
 exists and its reservations are held: the thread in dma_buf_lock_dolock, the
 signallers of the fences it registers on, the system workqueue and the thread
 that closes the handle interleave freely.
 */
module DmaBufLock {
  import opened Collections

  const INIT_BIAS: int := 0xFF

  /**
   A registered callback: its fence has not signalled; it has, and took the count
   to zero and still has to set the lock flag, or to schedule the work; or it is over.
   */
  datatype Callback = Unfired | SetsLocked | Schedules | Fired

  /** Next step of dma_buf_lock_dolock. */
  datatype Pc = TakeExtra | Registering | CountUp | SetLocked | InlineWork | LastPut | Returned

  /** kref_put reached zero: dma_buf_lock_dounlock frees the callbacks one by one, then the resource. */
  datatype Phase = Alive | TearDown | Freed

  /** struct dma_buf_lock_resource; the fields from registered on record its history. */
  datatype State = State(
    exclusive: bool,
    pc: Pc,
    depCount: int,
    callbacks: seq<Callback>,
    locked: bool,
    pending: bool,
    running: bool,
    refs: int,
    fdOpen: bool,
    phase: Phase,
    registered: nat,
    fired: nat,
    zeroHits: nat,
    extraDrops: nat,
    signalled: bool,
    warned: bool)

  datatype Event =
    | Dolock
    | Register
    | DropBias
    | Fire(k: nat)
    | CallbackStep(k: nat)
    | WorkStart
    | WorkPut
    | Close
    | FreeCallback

  function Init(exclusive: bool): State {
    State(exclusive, TakeExtra, INIT_BIAS, [], false, false, false, 2, true, Alive, 0, 0, 0, 0, false, false)
  }

  /** kref_put(&resource->refcount, dma_buf_lock_dounlock) up to and including the signalling of the fence. */
  function Put(s: State): (t: State)
    ensures t.exclusive == s.exclusive
  {
    if s.refs - 1 == 0 then s.(refs := 0, locked := false, signalled := true, phase := TearDown)
    else s.(refs := s.refs - 1)
  }

  /** The warnings of dma_buf_lock_fence_work. */
  function WorkChecks(s: State): (t: State)
    ensures t.exclusive == s.exclusive
  {
    s.(warned := s.warned || s.depCount != 0 || !s.locked || !s.exclusive)
  }

  function Counted(s: State, n: int): (t: State)
    ensures t.exclusive == s.exclusive
  {
    s.(depCount := n, zeroHits := if n == 0 then s.zeroHits + 1 else s.zeroHits)
  }

  function DolockStep(s: State): (t: Option<State>)
    ensures t.Some? ==> t.value.exclusive == s.exclusive
  {
    match s.pc
    case TakeExtra => Some(s.(pc := Registering, refs := if s.exclusive then s.refs + 1 else s.refs))
    case CountUp => Some(s.(pc := Registering, depCount := s.depCount + 1))
    case SetLocked => Some(s.(locked := true, pc := if s.exclusive then InlineWork else LastPut))
    case InlineWork => Some(Put(WorkChecks(s).(pc := LastPut, extraDrops := s.extraDrops + 1)))
    case LastPut => Some(Put(s.(pc := Returned)))
    case Registering => None
    case Returned => None
  }

  function CallbackStepAt(s: State, k: nat): (t: Option<State>)
    ensures t.Some? ==> t.value.exclusive == s.exclusive
  {
    if k >= |s.callbacks| then None
    else if s.callbacks[k].SetsLocked? then
      Some(s.(locked := true, callbacks := s.callbacks[k := if s.exclusive then Schedules else Fired]))
    else if s.callbacks[k].Schedules? then
      Some(s.(pending := true, warned := s.warned || s.pending, callbacks := s.callbacks[k := Fired]))
    else None
  }

  function FireAt(s: State, k: nat): (t: Option<State>)
    ensures t.Some? ==> t.value.exclusive == s.exclusive
  {
    if k >= |s.callbacks| || !s.callbacks[k].Unfired? then None
    else
      var n := s.depCount - 1;
      Some(Counted(s, n).(callbacks := s.callbacks[k := if n == 0 then SetsLocked else Fired], fired := s.fired + 1))
  }

  /** Removing a callback waits for a signaller that holds the fence's lock. */
  function FreeCallbackStep(s: State): (t: Option<State>)
    ensures t.Some? ==> t.value.exclusive == s.exclusive
  {
    if !s.phase.TearDown? then None
    else if s.callbacks == [] then Some(s.(phase := Freed))
    else if s.callbacks[0].SetsLocked? || s.callbacks[0].Schedules? then None
    else Some(s.(callbacks := s.callbacks[1..]))
  }

  /** One atomic step; None when the event cannot happen. */
  function Step(s: State, e: Event): (t: Option<State>)
    ensures t.Some? ==> t.value.exclusive == s.exclusive
  {
    match e
    case Dolock => DolockStep(s)
    case Register =>
      if !s.pc.Registering? then None
      else Some(s.(pc := CountUp, callbacks := [Unfired] + s.callbacks, registered := s.registered + 1))
    case DropBias =>
      if !s.pc.Registering? then None
      else Some(Counted(s, s.depCount - INIT_BIAS).(pc := if s.depCount - INIT_BIAS == 0 then SetLocked else LastPut))
    case Fire(k) => FireAt(s, k)
    case CallbackStep(k) => CallbackStepAt(s, k)
    case WorkStart => if s.pending && !s.running then Some(WorkChecks(s).(pending := false, running := true)) else None
    case WorkPut => if s.running then Some(Put(s.(running := false, extraDrops := s.extraDrops + 1))) else None
    case Close => if s.fdOpen then Some(Put(s.(fdOpen := false))) else None
    case FreeCallback => FreeCallbackStep(s)
  }

  function Run(s: State, es: seq<Event>): Option<State>
    decreases |es|
  {
    if es == [] then Some(s)
    else
      var t := Step(s, es[0]);
      if t.None? then None else Run(t.value, es[1..])
  }

  /** Some run leads from s0 to s. */
  ghost predicate From(s0: State, s: State) {
    exists es :: Run(s0, es) == Some(s)
  }

  ghost predicate Reachable(exclusive: bool, s: State) {
    From(Init(exclusive), s)
  }

  lemma NumCons(cs: seq<Callback>, c: Callback)
    ensures Num([Unfired] + cs, c) == Bit(c == Unfired) + Num(cs, c)
  {
    assert ([Unfired] + cs)[1..] == cs;
  }

  predicate Biased(s: State) {
    s.pc.TakeExtra? || s.pc.Registering? || s.pc.CountUp?
  }

  /** Registered fences that have not signalled. */
  function Outstanding(s: State): int {
    s.registered - s.fired
  }

  ghost predicate CountOk(s: State) {
    && s.depCount == (if Biased(s) then INIT_BIAS else 0) + Outstanding(s) - Bit(s.pc.CountUp?)
    && Outstanding(s) >= Num(s.callbacks, Unfired)
    && (s.phase.Alive? ==> Outstanding(s) == Num(s.callbacks, Unfired))
    && s.zeroHits == Bit(!Biased(s) && s.depCount == 0)
  }

  /** Whoever took the count to zero and still has to act on it. */
  function Acting(s: State): nat {
    Bit(s.pc.SetLocked?) + Bit(s.pc.InlineWork?) + Num(s.callbacks, SetsLocked) + Num(s.callbacks, Schedules)
      + Bit(s.pending) + Bit(s.running)
  }

  ghost predicate ActOk(s: State) {
    && Acting(s) + s.extraDrops <= s.zeroHits
    && (s.exclusive ==> Acting(s) + s.extraDrops == s.zeroHits)
    && (!s.exclusive ==>
      s.extraDrops == 0 && !s.pc.InlineWork? && Num(s.callbacks, Schedules) == 0 && !s.pending && !s.running)
    && (s.pc.InlineWork? || Num(s.callbacks, Schedules) > 0 || s.pending || s.running ==> s.locked)
    && (s.locked && s.phase.Alive? ==> s.zeroHits == 1)
    && (s.zeroHits == 1 && s.phase.Alive? ==> s.locked || s.pc.SetLocked? || Num(s.callbacks, SetsLocked) > 0)
    && !s.warned
  }

  ghost predicate RefsOk(s: State) {
    && s.refs == Bit(!s.pc.Returned?) + Bit(s.fdOpen) + Bit(s.exclusive && !s.pc.TakeExtra? && s.extraDrops == 0)
    && (s.phase.Alive? <==> s.refs > 0) && (s.signalled <==> s.refs == 0)
    && (s.phase.Freed? ==> s.callbacks == [])
  }

  ghost predicate Inv(s: State) {
    CountOk(s) && ActOk(s) && RefsOk(s)
  }

  lemma FireKeeps(s: State, k: nat)
    requires Inv(s) && FireAt(s, k).Some?
    ensures Inv(FireAt(s, k).value)
  {
    var d := if s.depCount - 1 == 0 then SetsLocked else Fired;
    NumUpdate(s.callbacks, k, d, Unfired);
    NumUpdate(s.callbacks, k, d, SetsLocked);
    NumUpdate(s.callbacks, k, d, Schedules);
  }

  lemma CallbackStepKeeps(s: State, k: nat)
    requires Inv(s) && CallbackStepAt(s, k).Some?
    ensures Inv(CallbackStepAt(s, k).value)
  {
    var d := if s.callbacks[k].SetsLocked? && s.exclusive then Schedules else Fired;
    NumUpdate(s.callbacks, k, d, Unfired);
    NumUpdate(s.callbacks, k, d, SetsLocked);
    NumUpdate(s.callbacks, k, d, Schedules);
  }

  lemma RegisterKeeps(s: State)
    requires Inv(s) && s.pc.Registering?
    ensures Inv(Step(s, Register).value)
  {
    NumCons(s.callbacks, Unfired);
    NumCons(s.callbacks, SetsLocked);
    NumCons(s.callbacks, Schedules);
  }

  lemma FreeCallbackKeeps(s: State)
    requires Inv(s) && FreeCallbackStep(s).Some?
    ensures Inv(FreeCallbackStep(s).value)
  {
  }

  lemma InlineWorkKeeps(s: State)
    requires Inv(s) && s.pc.InlineWork?
    ensures Inv(Put(WorkChecks(s).(pc := LastPut, extraDrops := s.extraDrops + 1)))
  {
  }

  lemma LastPutKeeps(s: State)
    requires Inv(s) && s.pc.LastPut?
    ensures Inv(Put(s.(pc := Returned)))
  {
  }

  lemma DolockKeeps(s: State)
    requires Inv(s) && DolockStep(s).Some?
    ensures Inv(DolockStep(s).value)
  {
    match s.pc
    case InlineWork => InlineWorkKeeps(s);
    case LastPut => LastPutKeeps(s);
    case _ =>
  }

  lemma DropBiasKeeps(s: State)
    requires Inv(s) && s.pc.Registering?
    ensures Inv(Step(s, DropBias).value)
  {
  }

  lemma WorkStartKeeps(s: State)
    requires Inv(s) && s.pending && !s.running
    ensures Inv(Step(s, WorkStart).value)
  {
  }

  lemma WorkPutKeeps(s: State)
    requires Inv(s) && s.running
    ensures Inv(Step(s, WorkPut).value)
  {
  }

  lemma CloseKeeps(s: State)
    requires Inv(s) && s.fdOpen
    ensures Inv(Step(s, Close).value)
  {
  }

  lemma CallerStepKeeps(s: State, e: Event)
    requires e.Dolock? || e.Register? || e.DropBias? || e.Close?
    requires Inv(s) && Step(s, e).Some?
    ensures Inv(Step(s, e).value)
  {
    if e.Dolock? {
      DolockKeeps(s);
    } else if e.Register? {
      RegisterKeeps(s);
    } else if e.DropBias? {
      DropBiasKeeps(s);
    } else {
      CloseKeeps(s);
    }
  }

  lemma FenceStepKeeps(s: State, e: Event)
    requires e.Fire? || e.CallbackStep? || e.WorkStart? || e.WorkPut? || e.FreeCallback?
    requires Inv(s) && Step(s, e).Some?
    ensures Inv(Step(s, e).value)
  {
    if e.Fire? {
      FireKeeps(s, e.k);
    } else if e.CallbackStep? {
      CallbackStepKeeps(s, e.k);
    } else if e.WorkStart? {
      WorkStartKeeps(s);
    } else if e.WorkPut? {
      WorkPutKeeps(s);
    } else {
      FreeCallbackKeeps(s);
    }
  }

  /** Every step keeps the invariant. */
  lemma StepKeeps(s: State, e: Event)
    requires Inv(s) && Step(s, e).Some?
    ensures Inv(Step(s, e).value) && Step(s, e).value.exclusive == s.exclusive
  {
    if e.Dolock? || e.Register? || e.DropBias? || e.Close? {
      CallerStepKeeps(s, e);
    } else {
      FenceStepKeeps(s, e);
    }
  }

  lemma {:induction false} RunKeeps(s: State, es: seq<Event>)
    requires Inv(s) && Run(s, es).Some?
    ensures Inv(Run(s, es).value) && Run(s, es).value.exclusive == s.exclusive
    decreases |es|
  {
    if es != [] {
      StepKeeps(s, es[0]);
      RunKeeps(Step(s, es[0]).value, es[1..]);
    }
  }

  lemma FromInv(s0: State, s: State)
    requires Inv(s0) && From(s0, s)
    ensures Inv(s) && s.exclusive == s0.exclusive
  {
    var es :| Run(s0, es) == Some(s);
    RunKeeps(s0, es);
  }

  lemma StartInv(s: State)
    requires s.pc.TakeExtra? && s.depCount == INIT_BIAS && s.callbacks == [] && s.refs == 2 && s.fdOpen
    requires s.phase.Alive?
    requires !s.locked && !s.pending && !s.running && !s.signalled && !s.warned
    requires s.registered == 0 && s.fired == 0 && s.zeroHits == 0 && s.extraDrops == 0
    ensures Inv(s)
  {
  }

  lemma ReachableInv(exclusive: bool, s: State)
    requires Reachable(exclusive, s)
    ensures Inv(s) && s.exclusive == exclusive
  {
    StartInv(Init(exclusive));
    FromInv(Init(exclusive), s);
  }

  /**
   The count reaches zero at most once and never before the bias is gone, although
   it is raised only after the callback is registered; from then on, exactly when
   every registered fence has signalled.
   */
  lemma ZeroOnce(exclusive: bool, s: State)
    requires Reachable(exclusive, s)
    ensures s.zeroHits == if !Biased(s) && Outstanding(s) == 0 then 1 else 0
    ensures Biased(s) ==> s.depCount > 0
  {
    ReachableInv(exclusive, s);
  }

  /** The extra reference is dropped at most once, and not before every registered fence has signalled. */
  lemma ExtraDroppedOnce(exclusive: bool, s: State)
    requires Reachable(exclusive, s)
    ensures s.extraDrops <= 1 && (s.extraDrops == 1 ==> exclusive && !Biased(s) && Outstanding(s) == 0)
  {
    ReachableInv(exclusive, s);
  }

  /**
   An exclusive resource's fence signals only after every fence it registered on,
   even if the handle was closed early.
   */
  lemma ExclusiveSignalsLast(s: State)
    requires Reachable(true, s) && s.signalled
    ensures s.fired == s.registered && s.pc.Returned? && !s.fdOpen
  {
    ReachableInv(true, s);
  }

  /**
   When the resource's fence signals: the call has returned, the handle is closed
   and, for an exclusive one, the extra reference is gone.
   */
  lemma SignalledIff(exclusive: bool, s: State)
    requires Reachable(exclusive, s)
    ensures s.signalled <==> s.pc.Returned? && !s.fdOpen && (exclusive ==> s.extraDrops == 1)
  {
    ReachableInv(exclusive, s);
  }

  /**
   Nothing is leaked: with the handle closed, all fences signalled and nobody left
   to act, the fence has signalled.
   */
  lemma ClosedAndQuietSignals(exclusive: bool, s: State)
    requires Reachable(exclusive, s) && s.pc.Returned? && !s.fdOpen && Outstanding(s) == 0 && Acting(s) == 0
    ensures s.signalled
  {
    ReachableInv(exclusive, s);
  }

  /** A live handle polls as locked only when every registered fence has signalled. */
  lemma LockedMeansAllSignalled(exclusive: bool, s: State)
    requires Reachable(exclusive, s) && s.locked && s.phase.Alive?
    ensures !Biased(s) && Outstanding(s) == 0
  {
    ReachableInv(exclusive, s);
  }

  /** The step that gives up the last reference signals the fence, takes the lock flag back and starts the teardown. */
  lemma SignalStep(s: State, e: Event)
    requires Step(s, e).Some?
    ensures var t := Step(s, e).value;
            !s.signalled && t.signalled ==> s.refs == 1 && t.refs == 0 && !t.locked && t.phase.TearDown?
  {
    match e
    case Dolock => DolockSignals(s);
    case Register =>
    case DropBias =>
    case Fire(_) =>
    case CallbackStep(_) =>
    case WorkStart =>
    case WorkPut =>
    case Close =>
    case FreeCallback =>
  }

  lemma DolockSignals(s: State)
    requires DolockStep(s).Some?
    ensures var t := DolockStep(s).value;
            !s.signalled && t.signalled ==> s.refs == 1 && t.refs == 0 && !t.locked && t.phase.TearDown?
  {
    match s.pc
    case InlineWork =>
    case LastPut =>
    case _ =>
  }

  /** Work found with fences outstanding, the lock flag not set, or for a shared lock. */
  predicate WorkWarns(s: State) {
    s.depCount != 0 || !s.locked || !s.exclusive
  }

  /**
   When the code warns: as the work function starts in such a state, or as a callback
   schedules work already scheduled.
   */
  lemma WarnsIff(s: State, e: Event)
    requires Step(s, e).Some?
    ensures Step(s, e).value.warned <==>
      || s.warned
      || ((e.WorkStart? || (e.Dolock? && s.pc.InlineWork?)) && WorkWarns(s))
      || (e.CallbackStep? && e.k < |s.callbacks| && s.callbacks[e.k].Schedules? && s.pending)
  {
    match e
    case Dolock => DolockWarns(s);
    case Register =>
    case DropBias =>
    case Fire(_) =>
    case CallbackStep(_) =>
    case WorkStart =>
    case WorkPut =>
    case Close =>
    case FreeCallback =>
  }

  lemma DolockWarns(s: State)
    requires DolockStep(s).Some?
    ensures DolockStep(s).value.warned <==> s.warned || (s.pc.InlineWork? && WorkWarns(s))
  {
    match s.pc
    case InlineWork =>
    case LastPut =>
    case _ =>
  }

  /** None of the warnings of the callback and the work function fires. */
  lemma NeverWarns(exclusive: bool, s: State)
    requires Reachable(exclusive, s)
    ensures !s.warned
  {
    ReachableInv(exclusive, s);
  }

  /** Once the resource is freed nobody can reach it: no step is possible any more. */
  lemma FreedIsFinal(exclusive: bool, s: State, e: Event)
    requires Reachable(exclusive, s) && s.phase.Freed?
    ensures Step(s, e).None?
  {
    ReachableInv(exclusive, s);
    assert Acting(s) == 0;
  }

  /** Once the bias is gone and every registered fence has signalled, no step changes that. */
  lemma {:induction false} OutstandingStaysZero(s: State, es: seq<Event>)
    requires Inv(s) && !Biased(s) && Outstanding(s) == 0 && Run(s, es).Some?
    ensures !Biased(Run(s, es).value) && Outstanding(Run(s, es).value) == 0
    decreases |es|
  {
    if es != [] {
      StepKeeps(s, es[0]);
      StepStaysZero(s, es[0]);
      OutstandingStaysZero(Step(s, es[0]).value, es[1..]);
    }
  }

  lemma StepStaysZero(s: State, e: Event)
    requires Inv(s) && !Biased(s) && Outstanding(s) == 0 && Step(s, e).Some?
    ensures !Biased(Step(s, e).value) && Outstanding(Step(s, e).value) == 0
  {
    if e.Fire? {
      NumUpdate(s.callbacks, e.k, Fired, Unfired);
    }
  }

  /**
   What a caller can check before closing: from the moment a live handle, shared
   or exclusive, polls as locked, the resource's fence cannot signal before a
   fence it waits for, whatever happens next.
   */
  lemma LockedKeepsOrder(exclusive: bool, s: State, es: seq<Event>)
    requires Reachable(exclusive, s) && s.locked && s.phase.Alive? && Run(s, es).Some?
    ensures var t := Run(s, es).value; t.fired == t.registered
  {
    ReachableInv(exclusive, s);
    OutstandingStaysZero(s, es);
  }

  /**
   Closing a shared handle after the call has returned signals the fence at once.
   It does so in order, after every fence the resource is registered on, exactly if
   the handle polls as locked or the last of them is about to set that; once no
   callback is under way, exactly if the handle polls as locked.
   */
  lemma SharedCloseInOrderIff(s: State)
    requires Reachable(false, s) && s.pc.Returned? && s.fdOpen
    ensures var t := Step(s, Close).value;
            t.signalled && (t.fired == t.registered <==> s.locked || Num(s.callbacks, SetsLocked) > 0)
    ensures Acting(s) == 0 ==> (Step(s, Close).value.fired == Step(s, Close).value.registered <==> s.locked)
  {
    ReachableInv(false, s);
  }

  /** A shared lock has no such order: closed early, its fence signals before the fence it waits for. */
  lemma SharedMaySignalEarly()
    ensures exists s :: Reachable(false, s) && s.signalled && s.fired < s.registered
  {
    var es := [Dolock, Register, Dolock, DropBias, Dolock, Close];
    var s0 := Init(false);
    var s1 := Step(s0, es[0]).value;
    var s2 := Step(s1, es[1]).value;
    var s3 := Step(s2, es[2]).value;
    var s4 := Step(s3, es[3]).value;
    var s5 := Step(s4, es[4]).value;
    var s6 := Step(s5, es[5]).value;
    assert Run(s5, [Close]) == Some(s6);
    assert Run(s4, [Dolock, Close]) == Some(s6);
    assert Run(s3, [DropBias, Dolock, Close]) == Some(s6);
    assert Run(s2, [Dolock, DropBias, Dolock, Close]) == Some(s6);
    assert Run(s1, [Register, Dolock, DropBias, Dolock, Close]) == Some(s6);
    assert Run(s0, es) == Some(s6);
  }

  /**
   Until the bias is dropped the count is 255 plus the fences counted so far that have not
   signalled, and then just those.
   */
  lemma CountMeaning(exclusive: bool, s: State)
    requires Reachable(exclusive, s)
    ensures s.pc.TakeExtra? || s.pc.Registering? ==> s.depCount == 255 + s.registered - s.fired
    ensures s.pc.CountUp? ==> s.depCount == 255 + s.registered - 1 - s.fired
    ensures !(s.pc.TakeExtra? || s.pc.Registering? || s.pc.CountUp?) ==> s.depCount == s.registered - s.fired
  {
    ReachableInv(exclusive, s);
  }

  lemma {:induction false} FindCallback(cs: seq<Callback>, c: Callback) returns (k: nat)
    requires Num(cs, c) > 0
    ensures k < |cs| && cs[k] == c
  {
    if cs[0] == c {
      k := 0;
    } else {
      k := FindCallback(cs[1..], c);
      k := k + 1;
    }
  }

  /** What the locking thread can do next. */
  function NextCall(s: State): Event {
    if s.pc.Registering? then DropBias else Dolock
  }

  lemma ActorCanStep(s: State) returns (e: Event)
    requires Inv(s) && s.pc.Returned? && Acting(s) > 0
    ensures !e.Register? && Step(s, e).Some?
  {
    if s.running {
      e := WorkPut;
    } else if s.pending {
      e := WorkStart;
    } else {
      var k := FindCallback(s.callbacks, if Num(s.callbacks, SetsLocked) > 0 then SetsLocked else Schedules);
      e := CallbackStep(k);
    }
  }

  lemma FenceCanSignal(s: State) returns (e: Event)
    requires Inv(s) && Num(s.callbacks, Unfired) > 0
    ensures !e.Register? && Step(s, e).Some?
  {
    var k := FindCallback(s.callbacks, Unfired);
    e := Fire(k);
  }

  /** Nothing gets stuck: until the resource is freed something can happen that is no new registration. */
  lemma SomethingCanHappen(exclusive: bool, s: State) returns (e: Event)
    requires Reachable(exclusive, s) && !s.phase.Freed?
    ensures !e.Register? && Step(s, e).Some?
  {
    ReachableInv(exclusive, s);
    if !s.pc.Returned? {
      e := NextCall(s);
    } else if s.fdOpen {
      e := Close;
    } else if Acting(s) > 0 {
      e := ActorCanStep(s);
    } else if s.phase.Alive? {
      e := FenceCanSignal(s);
    } else {
      e := FreeCallback;
      QuietCallbacks(s.callbacks);
    }
  }

  lemma QuietCallbacks(cs: seq<Callback>)
    requires Num(cs, SetsLocked) == 0 && Num(cs, Schedules) == 0
    ensures cs != [] ==> !cs[0].SetsLocked? && !cs[0].Schedules?
  {
  }

  function CallerLeft(pc: Pc): nat {
    match pc
    case TakeExtra => 7
    case CountUp => 6
    case Registering => 5
    case SetLocked => 4
    case InlineWork => 3
    case LastPut => 2
    case Returned => 0
  }

  function CallbackLeft(c: Callback): nat {
    match c
    case Unfired => 6
    case SetsLocked => 5
    case Schedules => 4
    case Fired => 1
  }

  function CallbacksLeft(cs: seq<Callback>): nat {
    if cs == [] then 0 else CallbackLeft(cs[0]) + CallbacksLeft(cs[1..])
  }

  /** Bounds the steps still to come when no further fence is registered. */
  function StepsLeft(s: State): nat {
    CallerLeft(s.pc) + CallbacksLeft(s.callbacks) + 2 * Bit(s.pending) + Bit(s.running) + Bit(s.fdOpen)
      + match s.phase case Alive => 2 case TearDown => 1 case Freed => 0
  }

  lemma {:induction false} CallbacksLeftUpdate(cs: seq<Callback>, k: nat, d: Callback)
    requires k < |cs|
    ensures CallbacksLeft(cs[k := d]) == CallbacksLeft(cs) - CallbackLeft(cs[k]) + CallbackLeft(d)
  {
    if k > 0 {
      CallbacksLeftUpdate(cs[1..], k - 1, d);
      assert cs[k := d][1..] == cs[1..][k - 1 := d];
    } else {
      assert cs[0 := d][1..] == cs[1..];
    }
  }

  lemma StepsFewer(s: State, e: Event)
    requires Inv(s) && !e.Register? && Step(s, e).Some?
    ensures StepsLeft(Step(s, e).value) < StepsLeft(s)
  {
    if e.Fire? {
      FireFewer(s, e.k);
    } else if e.CallbackStep? {
      CallbackFewer(s, e.k);
    } else if e.Dolock? {
      DolockFewer(s);
    } else {
      OthersFewer(s, e);
    }
  }

  lemma FireFewer(s: State, k: nat)
    requires FireAt(s, k).Some?
    ensures StepsLeft(FireAt(s, k).value) < StepsLeft(s)
  {
    CallbacksLeftUpdate(s.callbacks, k, if s.depCount - 1 == 0 then SetsLocked else Fired);
  }

  lemma CallbackFewer(s: State, k: nat)
    requires CallbackStepAt(s, k).Some?
    ensures StepsLeft(CallbackStepAt(s, k).value) < StepsLeft(s)
  {
    if s.callbacks[k].SetsLocked? {
      LockerFewer(s, k, if s.exclusive then Schedules else Fired);
    } else {
      SchedulerFewer(s, k);
    }
  }

  lemma LockerFewer(s: State, k: nat, d: Callback)
    requires k < |s.callbacks| && s.callbacks[k].SetsLocked? && (d.Schedules? || d.Fired?)
    ensures StepsLeft(s.(locked := true, callbacks := s.callbacks[k := d])) < StepsLeft(s)
  {
    CallbacksLeftUpdate(s.callbacks, k, d);
  }

  lemma SchedulerFewer(s: State, k: nat)
    requires k < |s.callbacks| && s.callbacks[k].Schedules?
    ensures StepsLeft(CallbackStepAt(s, k).value) < StepsLeft(s)
  {
    CallbacksLeftUpdate(s.callbacks, k, Fired);
  }

  lemma OthersFewer(s: State, e: Event)
    requires Inv(s) && !e.Register? && !e.Dolock? && !e.Fire? && !e.CallbackStep? && Step(s, e).Some?
    ensures StepsLeft(Step(s, e).value) < StepsLeft(s)
  {
  }

  lemma DolockFewer(s: State)
    requires Inv(s) && DolockStep(s).Some?
    ensures StepsLeft(DolockStep(s).value) < StepsLeft(s)
  {
    match s.pc
    case InlineWork =>
    case LastPut =>
    case _ =>
  }

  lemma {:induction false} RunsEnd(s: State, es: seq<Event>)
    requires Inv(s) && Run(s, es).Some? && Register !in es
    ensures |es| + StepsLeft(Run(s, es).value) <= StepsLeft(s)
    decreases |es|
  {
    if es != [] {
      StepKeeps(s, es[0]);
      StepsFewer(s, es[0]);
      RunsEnd(Step(s, es[0]).value, es[1..]);
    }
  }

  lemma {:induction false} RunJoin(s: State, es: seq<Event>, fs: seq<Event>)
    requires Run(s, es).Some?
    ensures Run(s, es + fs) == Run(Run(s, es).value, fs)
    decreases |es|
  {
    if es == [] {
      assert es + fs == fs;
    } else {
      RunJoin(Step(s, es[0]).value, es[1..], fs);
      assert (es + fs)[1..] == es[1..] + fs;
    }
  }

  /**
   Every resource is freed in the end: once no further fence is registered, every run stops
   after a bounded number of steps, and a run can stop only with the resource freed.
   */
  lemma EveryLockEnds(exclusive: bool, s: State, es: seq<Event>)
    requires Reachable(exclusive, s) && Run(s, es).Some? && Register !in es
    ensures |es| <= StepsLeft(s)
    ensures (forall e: Event :: !e.Register? ==> Step(Run(s, es).value, e).None?) <==> Run(s, es).value.phase.Freed?
  {
    ReachableInv(exclusive, s);
    RunsEnd(s, es);
    var t := Run(s, es).value;
    var es0 :| Run(Init(exclusive), es0) == Some(s);
    RunJoin(Init(exclusive), es0, es);
    if t.phase.Freed? {
      forall e: Event | !e.Register?
        ensures Step(t, e).None?
      {
        FreedIsFinal(exclusive, t, e);
      }
    } else {
      var e := SomethingCanHappen(exclusive, t);
    }
  }

  /**
   What can happen when: the locking thread always has a next step until it returns; a fence
   signals, its callback acts and a worker starts at any time; the handle is closed once; and
   in the teardown the first callback is removed, unless it is under way.
   */
  lemma PossibleIff(s: State, e: Event)
    ensures Step(s, e).Some? <==>
      match e
      case Dolock => !s.pc.Registering? && !s.pc.Returned?
      case Register => s.pc.Registering?
      case DropBias => s.pc.Registering?
      case Fire(k) => k < |s.callbacks| && s.callbacks[k].Unfired?
      case CallbackStep(k) => k < |s.callbacks| && (s.callbacks[k].SetsLocked? || s.callbacks[k].Schedules?)
      case WorkStart => s.pending && !s.running
      case WorkPut => s.running
      case Close => s.fdOpen
      case FreeCallback => s.phase.TearDown? && (s.callbacks == [] || s.callbacks[0].Unfired? || s.callbacks[0].Fired?)
  {
  }
}
