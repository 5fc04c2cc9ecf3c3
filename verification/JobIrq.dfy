/**
 The job interrupt of the nano driver (gr_irq.c): the handler's drain loop, and
 the handshake between the replayer, the GPU, the handler and the poll function.
 */
module JobIrq {
  import opened Replay

  const SLOTS: nat := 16

  /** The job interrupt registers as sets of bits: bit i reports success of slot i, bit 16 + i failure. */
  predicate Bits(b: set<nat>) {
    forall x :: x in b ==> x < 2 * SLOTS
  }

  predicate HasSlot(b: set<nat>, i: nat) {
    i in b || i + SLOTS in b
  }

  /** Slots with a done or a failed bit: (done & 0xFFFF) | (done >> 16). */
  function SlotsBelow(b: set<nat>, n: nat): set<nat> {
    if n == 0 then {} else SlotsBelow(b, n - 1) + if HasSlot(b, n - 1) then {n - 1} else {}
  }

  lemma {:induction false} SlotsBelowMembers(b: set<nat>, n: nat)
    ensures forall i: nat :: i in SlotsBelow(b, n) <==> i < n && HasSlot(b, i)
  {
    if n > 0 {
      SlotsBelowMembers(b, n - 1);
    }
  }

  function Finished(b: set<nat>): set<nat> {
    SlotsBelow(b, SLOTS)
  }

  lemma NoneFinished(b: set<nat>)
    requires b == {}
    ensures Finished(b) == {}
  {
    SlotsBelowMembers(b, SLOTS);
  }

  /** b is made of done and failed bits of a single slot. */
  ghost predicate OneSlot(b: set<nat>) {
    b != {} && exists i: nat :: OfSlot(b, i)
  }

  predicate OfSlot(b: set<nat>, i: nat) {
    b <= {i, i + SLOTS}
  }

  /** All writes from the n-th on clear a single slot. */
  ghost predicate OneSlotEach(clears: seq<set<nat>>, n: nat) {
    forall k :: n <= k < |clears| ==> OneSlot(clears[k])
  }

  /** All bits written to the clear register from the n-th write on. */
  ghost function ClearedFrom(clears: seq<set<nat>>, n: nat): set<nat> {
    if |clears| <= n then {} else ClearedFrom(clears[..|clears| - 1], n) + clears[|clears| - 1]
  }

  /** All bits of the first k arrivals. */
  ghost function Arrived(arrivals: seq<set<nat>>, k: nat): set<nat>
    requires k <= |arrivals|
  {
    if k == 0 then {} else Arrived(arrivals, k - 1) + arrivals[k - 1]
  }

  lemma ClearedNext(clears: seq<set<nat>>, b: set<nat>, n: nat)
    requires n <= |clears|
    ensures ClearedFrom(clears + [b], n) == ClearedFrom(clears, n) + b
    ensures OneSlotEach(clears, n) && OneSlot(b) ==> OneSlotEach(clears + [b], n)
  {
    assert (clears + [b])[..|clears|] == clears;
  }

  /**
   Handler state after k arrivals, from raw status raw0: exactly the bits ever
   raised are either still raised or cleared, and each write cleared one slot.
   */
  ghost predicate Accounted(raw0: set<nat>, arr0: seq<set<nat>>, k: nat, n: nat, raw: set<nat>, arrivals: seq<set<nat>>,
                            clears: seq<set<nat>>)
  {
    && k <= |arr0| && arrivals == arr0[k..] && n <= |clears|
    && raw0 + Arrived(arr0, k) == raw + ClearedFrom(clears, n)
    && OneSlotEach(clears, n)
  }

  lemma AccountedNext(raw0: set<nat>, arr0: seq<set<nat>>, k: nat, n: nat, raw: set<nat>, arrivals: seq<set<nat>>,
                      clears: seq<set<nat>>, b: set<nat>, raw': set<nat>, arrivals': seq<set<nat>>)
    requires Accounted(raw0, arr0, k, n, raw, arrivals, clears) && OneSlot(b) && b <= raw
    requires arrivals == [] ==> raw' == raw - b && arrivals' == []
    requires arrivals != [] ==> raw' == raw - b + arrivals[0] && arrivals' == arrivals[1..]
    ensures var k' := if k < |arr0| then k + 1 else k;
            Accounted(raw0, arr0, k', n, raw', arrivals', clears + [b])
  {
    ClearedNext(clears, b, n);
  }

  lemma NothingYet(raw: set<nat>, arrivals: seq<set<nat>>, clears: seq<set<nat>>, n: nat, k: nat)
    requires n == |clears| && k == 0
    ensures Accounted(raw, arrivals, k, n, raw, arrivals, clears)
  {
  }

  class IrqRegisters {
    /** JOB_IRQ_RAWSTAT, and JOB_IRQ_MASK through which JOB_IRQ_STATUS shows it. */
    var raw: set<nat>
    var mask: set<nat>
    /** What jobs that end while the handler runs raise before each further read of the status. */
    var arrivals: seq<set<nat>>
    /** What has been written to JOB_IRQ_CLEAR. */
    var clears: seq<set<nat>>
    var isJobIrq: nat

    ghost predicate Valid()
      reads this
    {
      Bits(raw) && forall b :: b in arrivals ==> Bits(b)
    }

    constructor (raw: set<nat>, mask: set<nat>, arrivals: seq<set<nat>>)
      requires Bits(raw) && forall b :: b in arrivals ==> Bits(b)
      ensures Valid() && this.raw == raw && this.mask == mask && this.arrivals == arrivals
      ensures clears == [] && isJobIrq == 0
    {
      this.raw, this.mask, this.arrivals, clears, isJobIrq := raw, mask, arrivals, [], 0;
    }

    method Clear(b: set<nat>)
      modifies this`raw, this`clears
      ensures raw == old(raw) - b && clears == old(clears) + [b]
    {
      raw := raw - b;
      clears := clears + [b];
    }

    /** Read JOB_IRQ_RAWSTAT, with whatever has been raised by then. */
    method ReadRawStatus() returns (done: set<nat>)
      requires Valid()
      modifies this`raw, this`arrivals
      ensures Valid() && done == raw
      ensures old(arrivals) == [] ==> raw == old(raw) && arrivals == []
      ensures old(arrivals) != [] ==> raw == old(raw) + old(arrivals)[0] && arrivals == old(arrivals)[1..]
    {
      if arrivals != [] {
        assert Bits(arrivals[0]);
        raw := raw + arrivals[0];
        arrivals := arrivals[1..];
      }
      done := raw;
    }

    /** ffs(finished) - 1. */
    method FirstFinished(b: set<nat>) returns (i: nat)
      requires Bits(b) && b != {}
      ensures i < SLOTS && HasSlot(b, i) && forall j: nat :: j < i ==> !HasSlot(b, j)
    {
      i := 0;
      while !HasSlot(b, i)
        invariant i < SLOTS && forall j: nat :: j < i ==> !HasSlot(b, j)
        decreases SLOTS - i
      {
        if i == SLOTS - 1 {
          var x :| x in b;
          if x < SLOTS {
            assert HasSlot(b, x);
          } else {
            assert HasSlot(b, x - SLOTS);
          }
        }
        i := i + 1;
      }
    }

    /**
     gr_job_irq_handler, with finitely many jobs ending meanwhile: if the masked
     status shows anything, the handler goes on until no bit is raised; the bits
     cleared are exactly those that were raised (k arrivals later), one slot per
     write; and exactly one wake-up is counted. If no job ends meanwhile, every pass but a first one on
     masked bits removes a finished slot.
     */
    method Handle() returns (ghost k: nat)
      requires Valid()
      modifies this
      ensures Valid() && isJobIrq == old(isJobIrq) + 1 && mask == old(mask)
      ensures old(raw) * old(mask) == {} ==> raw == old(raw) && clears == old(clears) && arrivals == old(arrivals)
      ensures old(raw) * old(mask) != {} ==>
        raw == {} && Accounted(old(raw), old(arrivals), k, |old(clears)|, raw, arrivals, clears)
      ensures old(arrivals) == [] ==> |clears| <= |old(clears)| + |Finished(old(raw))| + 1
      ensures old(arrivals) == [] && old(raw) <= old(mask) ==> |clears| == |old(clears)| + |Finished(old(raw))|
    {
      ghost var raw0, arr0, n := raw, arrivals, |clears|;
      k := 0;
      var done := raw * mask;
      if done != {} {
        k := Drain(done, raw0, arr0, n);
      } else {
        NothingShown(raw, mask);
      }
      isJobIrq := isJobIrq + 1;
    }

    /** The iterations that read JOB_IRQ_RAWSTAT. */
    method Drain(done: set<nat>, ghost raw0: set<nat>, ghost arr0: seq<set<nat>>, ghost n: nat) returns (ghost k: nat)
      requires Valid() && done <= raw && done != {} && raw0 == raw && arr0 == arrivals && n == |clears|
      modifies this`raw, this`clears, this`arrivals
      ensures Valid() && raw == {} && Accounted(raw0, arr0, k, n, raw, arrivals, clears)
      ensures old(arrivals) == [] ==> |clears| <= |old(clears)| + |Finished(old(raw))| + 1
      ensures old(arrivals) == [] && done == old(raw) ==> |clears| == |old(clears)| + |Finished(old(raw))|
    {
      NothingYet(raw, arrivals, clears, n, 0);
      var done';
      done', k := DrainOne(done, raw0, arr0, 0, n);
      k := DrainRest(done', raw0, arr0, k, n);
    }

    method DrainRest(done0: set<nat>, ghost raw0: set<nat>, ghost arr0: seq<set<nat>>, ghost k0: nat, ghost n: nat)
      returns (ghost k: nat)
      requires Valid() && done0 == raw && Accounted(raw0, arr0, k0, n, raw, arrivals, clears)
      modifies this`raw, this`clears, this`arrivals
      ensures Valid() && raw == {} && Accounted(raw0, arr0, k, n, raw, arrivals, clears)
      ensures old(arrivals) == [] ==> |clears| == |old(clears)| + |Finished(old(raw))|
    {
      var done := done0;
      k := k0;
      while done != {}
        invariant Valid() && done == raw && Accounted(raw0, arr0, k, n, raw, arrivals, clears)
        invariant old(arrivals) == [] ==>
          arrivals == [] && |clears| + |Finished(raw)| == |old(clears)| + |Finished(old(raw))|
        decreases |arrivals|, |Finished(raw)|
      {
        done, k := DrainOne(done, raw0, arr0, k, n);
      }
      NoneFinished(raw);
    }

    /**
     One pass: clear the lowest finished slot that done shows and read the status
     again. If nothing arrives and done showed everything, that slot is gone.
     */
    method DrainOne(done: set<nat>, ghost raw0: set<nat>, ghost arr0: seq<set<nat>>, ghost k: nat, ghost n: nat)
      returns (done': set<nat>, ghost k': nat)
      requires Valid() && done <= raw && done != {} && Accounted(raw0, arr0, k, n, raw, arrivals, clears)
      modifies this`raw, this`clears, this`arrivals
      ensures Valid() && done' == raw && Accounted(raw0, arr0, k', n, raw, arrivals, clears)
      ensures |clears| == |old(clears)| + 1
      ensures old(arrivals) != [] ==> arrivals == old(arrivals)[1..]
      ensures old(arrivals) == [] ==> arrivals == [] && raw < old(raw) && |Finished(raw)| <= |Finished(old(raw))|
      ensures old(arrivals) == [] && done == old(raw) ==> |Finished(raw)| == |Finished(old(raw))| - 1
    {
      var i := FirstFinished(done);
      var b := done * {i, i + SLOTS};
      assert OfSlot(b, i);
      FinishedAfterClear(raw, done, i, b, SLOTS);
      ghost var raw1, arrivals1, clears1 := raw, arrivals, clears;
      Clear(b);
      done' := ReadRawStatus();
      k' := if k < |arr0| then k + 1 else k;
      AccountedNext(raw0, arr0, k, n, raw1, arrivals1, clears1, b, raw, arrivals);
    }
  }

  /** The clear writes b, the bits of slot i that done shows. */
  ghost predicate SlotBits(done: set<nat>, i: nat, b: set<nat>) {
    forall x :: x in b <==> x in done && (x == i || x == i + SLOTS)
  }

  lemma FinishedAfterClear(raw: set<nat>, done: set<nat>, i: nat, b: set<nat>, n: nat)
    requires done <= raw && i < n <= SLOTS && HasSlot(done, i) && SlotBits(done, i, b)
    ensures raw - b < raw
    ensures |SlotsBelow(raw - b, n)| <= |SlotsBelow(raw, n)|
    ensures done == raw ==> |SlotsBelow(raw - b, n)| == |SlotsBelow(raw, n)| - 1
  {
    var x := if i in done then i else i + SLOTS;
    assert x in raw && x !in raw - b;
    forall j: nat | j < n && j != i
      ensures HasSlot(raw - b, j) <==> HasSlot(raw, j)
    {
    }
    SlotGone(raw, raw - b, i, n);
  }

  lemma NothingShown(raw: set<nat>, mask: set<nat>)
    requires raw * mask == {}
    ensures raw <= mask ==> Finished(raw) == {}
  {
    if raw <= mask {
      assert raw == raw * mask;
      NoneFinished(raw);
    }
  }

  lemma {:induction false} SlotGone(raw: set<nat>, raw': set<nat>, i: nat, n: nat)
    requires i < n && HasSlot(raw, i)
    requires forall j: nat :: j < n && j != i ==> (HasSlot(raw', j) <==> HasSlot(raw, j))
    ensures |SlotsBelow(raw', n)| == |SlotsBelow(raw, n)| - if HasSlot(raw', i) then 0 else 1
  {
    SlotsBelowMembers(raw, n);
    SlotsBelowMembers(raw', n);
    if HasSlot(raw', i) {
      assert SlotsBelow(raw', n) == SlotsBelow(raw, n);
    } else {
      assert SlotsBelow(raw', n) == SlotsBelow(raw, n) - {i};
    }
  }

  /**
   The handshake. at is the position in the replayer's trace; jobs are running,
   then raise an interrupt, then occupy the handler, then count as a wake-up.
   */
  datatype State = State(at: nat, running: nat, raised: nat, handling: nat, isJobIrq: nat)

  datatype Event = Cpu | JobEnds | HandlerStarts | HandlerEnds

  predicate IsSubmit(e: Effect) {
    e.Write? && e.offset == JS_COMMAND_NEXT
  }

  /** The replayer's next effect; its poll loop goes on only by consuming a wake-up. */
  predicate CanGoOn(tr: seq<Effect>, s: State) {
    s.at < |tr| && (tr[s.at].WaitJobIrq? ==> s.isJobIrq > 0)
  }

  predicate Enabled(tr: seq<Effect>, s: State, e: Event) {
    match e
    case Cpu => CanGoOn(tr, s)
    case JobEnds => s.running > 0
    case HandlerStarts => s.raised > 0
    case HandlerEnds => s.handling > 0
  }

  function Step(tr: seq<Effect>, s: State, e: Event): State
    requires Enabled(tr, s, e)
  {
    match e
    case Cpu =>
      if IsSubmit(tr[s.at]) then s.(at := s.at + 1, running := s.running + 1)
      else if tr[s.at].WaitJobIrq? then s.(at := s.at + 1, isJobIrq := s.isJobIrq - 1)
      else s.(at := s.at + 1)
    case JobEnds => s.(running := s.running - 1, raised := s.raised + 1)
    case HandlerStarts => s.(raised := s.raised - 1, handling := s.handling + 1)
    case HandlerEnds => s.(handling := s.handling - 1, isJobIrq := s.isJobIrq + 1)
  }

  /** es is a run from s to t. */
  predicate Runs(tr: seq<Effect>, s: State, es: seq<Event>, t: State)
    decreases |es|
  {
    if es == [] then s == t
    else Enabled(tr, s, es[0]) && Runs(tr, Step(tr, s, es[0]), es[1..], t)
  }

  ghost predicate Reachable(tr: seq<Effect>, s: State) {
    exists es :: Runs(tr, State(0, 0, 0, 0, 0), es, s)
  }

  /** The replayer has submitted a job and not yet consumed its wake-up. */
  predicate Waiting(tr: seq<Effect>, s: State) {
    0 < s.at <= |tr| && IsSubmit(tr[s.at - 1])
  }

  ghost predicate Inv(tr: seq<Effect>, s: State) {
    && s.at <= |tr|
    && s.running + s.raised + s.handling + s.isJobIrq == if Waiting(tr, s) then 1 else 0
  }

  lemma SubmitThenWait(tr: seq<Effect>, k: nat)
    requires SubmitsWait(tr) && k < |tr| && IsSubmit(tr[k])
    ensures k + 1 < |tr| && tr[k + 1] == WaitJobIrq
  {
    assert tr[k].offset == JS_COMMAND_NEXT;
  }

  lemma StepKeeps(tr: seq<Effect>, s: State, e: Event)
    requires SubmitsWait(tr) && Inv(tr, s) && Enabled(tr, s, e)
    ensures Inv(tr, Step(tr, s, e))
  {
    if Waiting(tr, s) {
      SubmitThenWait(tr, s.at - 1);
    }
  }

  lemma {:induction false} RunKeeps(tr: seq<Effect>, s: State, es: seq<Event>, t: State)
    requires SubmitsWait(tr) && Inv(tr, s) && Runs(tr, s, es, t)
    ensures Inv(tr, t)
    decreases |es|
  {
    if es != [] {
      StepKeeps(tr, s, es[0]);
      RunKeeps(tr, Step(tr, s, es[0]), es[1..], t);
    }
  }

  lemma ReachableInv(tr: seq<Effect>, s: State)
    requires SubmitsWait(tr) && Reachable(tr, s)
    ensures Inv(tr, s)
  {
    var es :| Runs(tr, State(0, 0, 0, 0, 0), es, s);
    RunKeeps(tr, State(0, 0, 0, 0, 0), es, s);
  }

  /** The wake-up counter stays 0 or 1, and a job is submitted only when none is outstanding in any form. */
  lemma OneJobAtATime(tr: seq<Effect>, s: State)
    requires SubmitsWait(tr) && Reachable(tr, s)
    ensures s.isJobIrq <= 1
    ensures s.at < |tr| && IsSubmit(tr[s.at]) ==> s.running == 0 && s.raised == 0 && s.handling == 0 && s.isJobIrq == 0
  {
    ReachableInv(tr, s);
    if Waiting(tr, s) {
      SubmitThenWait(tr, s.at - 1);
    }
  }

  /** How many steps the GPU and the handler can still take. */
  function StepsLeft(s: State): nat {
    3 * s.running + 2 * s.raised + s.handling
  }

  /**
   While the replayer waits for the job it submitted, the GPU and the handler can
   take at most three steps, in whatever order they come, and when none is left
   the poll loop goes on. Its poll does not sleep: the timeout 0.05 is passed as an
   int, so each round looks at the counter again, and it does no harm that the
   handler wakes the queue before it counts.
   */
  lemma NoLostWakeUp(tr: seq<Effect>, s: State, es: seq<Event>, t: State)
    requires SubmitsWait(tr) && Reachable(tr, s) && Waiting(tr, s)
    requires Runs(tr, s, es, t) && Cpu !in es
    ensures |es| <= StepsLeft(s) <= 3 && t.at == s.at && tr[t.at] == WaitJobIrq
    ensures Enabled(tr, t, Cpu) <==>
      !Enabled(tr, t, JobEnds) && !Enabled(tr, t, HandlerStarts) && !Enabled(tr, t, HandlerEnds)
  {
    ReachableInv(tr, s);
    SubmitThenWait(tr, s.at - 1);
    GpuRunEnds(tr, s, es, t);
  }

  lemma {:induction false} GpuRunEnds(tr: seq<Effect>, s: State, es: seq<Event>, t: State)
    requires SubmitsWait(tr) && Inv(tr, s) && Waiting(tr, s) && Runs(tr, s, es, t) && Cpu !in es
    ensures |es| + StepsLeft(t) == StepsLeft(s) && t.at == s.at && Inv(tr, t)
    decreases |es|
  {
    if es != [] {
      StepKeeps(tr, s, es[0]);
      GpuRunEnds(tr, Step(tr, s, es[0]), es[1..], t);
    }
  }

  /** Waits for a job follow its submission. */
  ghost predicate WaitsFollow(tr: seq<Effect>) {
    forall k :: 0 <= k < |tr| && tr[k].WaitJobIrq? ==> k > 0 && IsSubmit(tr[k - 1])
  }

  /** Bounds the steps still to come. */
  function Left(tr: seq<Effect>, s: State): int {
    4 * (|tr| - s.at) + StepsLeft(s)
  }

  lemma {:induction false} RunsEnd(tr: seq<Effect>, s: State, es: seq<Event>, t: State)
    requires SubmitsWait(tr) && Inv(tr, s) && Runs(tr, s, es, t)
    ensures |es| + Left(tr, t) <= Left(tr, s) && Inv(tr, t)
    decreases |es|
  {
    if es != [] {
      StepKeeps(tr, s, es[0]);
      RunsEnd(tr, Step(tr, s, es[0]), es[1..], t);
    }
  }

  ghost predicate NobodyGoesOn(tr: seq<Effect>, s: State) {
    forall e :: !Enabled(tr, s, e)
  }

  /** Somebody can go on until the replayer is through and the last job's wake-up counted. */
  lemma SomebodyGoesOn(tr: seq<Effect>, s: State)
    requires SubmitsWait(tr) && WaitsFollow(tr) && Inv(tr, s) && s.at < |tr|
    ensures exists e :: Enabled(tr, s, e)
  {
    if CanGoOn(tr, s) {
      assert Enabled(tr, s, Cpu);
    } else {
      assert IsSubmit(tr[s.at - 1]) && s.isJobIrq == 0;
      assert Enabled(tr, s, if s.running > 0 then JobEnds else if s.raised > 0 then HandlerStarts else HandlerEnds);
    }
  }

  /**
   Every replay is over after at most four steps an effect, whatever order they come in, and it
   stops only when the replayer has been through its whole trace.
   */
  lemma EveryReplayEnds(tr: seq<Effect>, es: seq<Event>, t: State)
    requires SubmitsWait(tr) && WaitsFollow(tr) && Runs(tr, State(0, 0, 0, 0, 0), es, t)
    ensures |es| <= 4 * |tr|
    ensures NobodyGoesOn(tr, t) ==> t.at == |tr| && t.running == 0 && t.raised == 0 && t.handling == 0
  {
    RunsEnd(tr, State(0, 0, 0, 0, 0), es, t);
    Stopped(tr, t);
  }

  lemma Stopped(tr: seq<Effect>, t: State)
    requires SubmitsWait(tr) && WaitsFollow(tr) && Inv(tr, t)
    ensures NobodyGoesOn(tr, t) ==> t.at == |tr| && t.running == 0 && t.raised == 0 && t.handling == 0
  {
    if t.at < |tr| {
      SomebodyGoesOn(tr, t);
    }
    assert Enabled(tr, t, JobEnds) <==> t.running > 0;
    assert Enabled(tr, t, HandlerStarts) <==> t.raised > 0;
    assert Enabled(tr, t, HandlerEnds) <==> t.handling > 0;
  }

  /** Waits of a complete replay follow submissions. */
  lemma {:induction false} ReplayWaitsFollow(ios: seq<RegIo>, segs: seq<seq<Effect>>, st: Start, n: nat)
    requires Replays(ios, segs, st) && n <= |segs|
    ensures WaitsFollow(Concat(segs[..n]))
  {
    if n > 0 {
      ReplayWaitsFollow(ios, segs, st, n - 1);
      ConcatUpTo(segs, n - 1);
      SegmentWaitsFollow(ios, segs, n - 1, st);
      Joined(Concat(segs[..n - 1]), segs[n - 1]);
    }
  }

  lemma Joined(a: seq<Effect>, b: seq<Effect>)
    requires WaitsFollow(a) && WaitsFollow(b)
    ensures WaitsFollow(a + b)
  {
  }

  lemma SegmentWaitsFollow(ios: seq<RegIo>, segs: seq<seq<Effect>>, i: nat, st: Start)
    requires SegmentOk(ios, segs, i, st, Completed)
    ensures WaitsFollow(segs[i])
  {
    if ios[i].isRead {
      ReadSeen(ios, segs, i, st);
    } else {
      WriteSeen(ios, segs, i, st);
    }
  }

  /** So every complete replay of every recording comes to its end. */
  lemma ReplayEnds(ios: seq<RegIo>, segs: seq<seq<Effect>>, st: Start, es: seq<Event>, t: State)
    requires Replays(ios, segs, st) && Runs(Concat(segs), State(0, 0, 0, 0, 0), es, t)
    ensures |es| <= 4 * |Concat(segs)|
    ensures NobodyGoesOn(Concat(segs), t) ==> t.at == |Concat(segs)|
  {
    EverySubmitWaits(ios, segs, |ios|, st);
    ReplayWaitsFollow(ios, segs, st, |segs|);
    assert segs[..|segs|] == segs;
    EveryReplayEnds(Concat(segs), es, t);
  }

  /** Both hold for every complete replay of every recording. */
  lemma ReplayOneJobAtATime(ios: seq<RegIo>, segs: seq<seq<Effect>>, st: Start, s: State)
    requires Replays(ios, segs, st) && Reachable(Concat(segs), s)
    ensures s.isJobIrq <= 1
    ensures s.at < |Concat(segs)| && IsSubmit(Concat(segs)[s.at]) ==>
      s.running == 0 && s.raised == 0 && s.handling == 0 && s.isJobIrq == 0
  {
    EverySubmitWaits(ios, segs, |ios|, st);
    assert segs[..|ios|] == segs;
    OneJobAtATime(Concat(segs), s);
  }
}
