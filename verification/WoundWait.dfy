/**
 The wound/wait loop that takes all reservations of an atom
 (kbase_dma_fence_lock_reservations) or of a lock request
 (dma_buf_lock_acquire_fence_reservation), and the list it runs on.
 */
module WoundWait {
  import opened Collections

  /** What ww_mutex_lock returns; Failed stands for every other error. */
  datatype Status = Ok | Deadlock | Already | Failed

  /** What is done to the mutex of r: taken, refused, found to fail, waited for and taken, or released. */
  datatype Op = Took(r: nat) | Refused(r: nat) | Broke(r: nat) | Awaited(r: nat) | Released(r: nat)

  /**
   Backing off, from operation number n on: after a refusal everything held is released
   and then the refused lock waited for, and that is the only time a lock is waited for.
   */
  ghost predicate BacksOff(log: seq<Op>, n: nat) {
    && (forall k :: n <= k < |log| && log[k].Refused? ==> exists m :: Answers(log, k, m))
    && (forall m :: n <= m < |log| && log[m].Awaited? ==> exists k :: n <= k && Answers(log, k, m))
  }

  /** Operation m waits for the lock refused in operation k, with nothing but releases in between. */
  predicate Answers(log: seq<Op>, k: nat, m: nat) {
    && k < m < |log| && log[k].Refused? && log[m] == Awaited(log[k].r)
    && forall j :: k < j < m ==> log[j].Released?
  }

  /** The reservation objects' mutexes, as one acquire context sees them. */
  class Reservations {
    var held: set<nat>
    /** What contention with other contexts will do to the coming attempts; after that they succeed. */
    var contention: seq<Status>
    /** Everything done so far. */
    var log: seq<Op>

    ghost predicate Valid()
      reads this
    {
      Already !in contention
    }

    constructor (contention: seq<Status>)
      requires Already !in contention
      ensures Valid() && held == {} && this.contention == contention && log == []
    {
      held, log := {}, [];
      this.contention := contention;
    }

    method Lock(r: nat) returns (err: Status)
      modifies this
      ensures err.Ok? ==> r !in old(held) && held == old(held) + {r}
      ensures !err.Ok? ==> held == old(held)
      ensures r in old(held) ==> err == Already && contention == old(contention)
      ensures r !in old(held) && old(contention) != [] ==>
        err == old(contention)[0] && contention == old(contention)[1..]
      ensures r !in old(held) && old(contention) == [] ==> err == Ok && contention == []
      ensures log == old(log) + [if err.Ok? then Took(r) else if err.Deadlock? then Refused(r) else Broke(r)]
    {
      if r in held {
        log := log + [Broke(r)];
        return Already;
      }
      err := Ok;
      if contention != [] {
        err := contention[0];
        contention := contention[1..];
      }
      if err == Ok {
        held := held + {r};
      }
      log := log + [if err.Ok? then Took(r) else if err.Deadlock? then Refused(r) else Broke(r)];
    }

    /** Waits as long as it takes, which is sound only while no other lock is held. */
    method LockSlow(r: nat)
      requires held == {}
      modifies this`held, this`log
      ensures held == {r} && log == old(log) + [Awaited(r)]
    {
      held, log := {r}, log + [Awaited(r)];
    }

    method Unlock(r: nat)
      requires r in held
      modifies this`held, this`log
      ensures held == old(held) - {r} && log == old(log) + [Released(r)]
    {
      held, log := held - {r}, log + [Released(r)];
    }
  }

  function Elems(s: seq<nat>): set<nat> {
    set x | x in s
  }

  lemma ElemsNext(s: seq<nat>, r: nat)
    requires r < |s|
    ensures Elems(s[..r + 1]) == Elems(s[..r]) + {s[r]}
    ensures NoDup(s[..r + 1]) <==> NoDup(s[..r]) && s[r] !in s[..r]
  {
    assert s[..r + 1] == s[..r] + [s[r]];
    if NoDup(s[..r + 1]) {
      forall i | 0 <= i < r
        ensures s[i] != s[r]
      {
        assert s[..r + 1][i] != s[..r + 1][r];
      }
    }
  }

  function Opt(c: Option<nat>): set<nat> {
    if c.Some? then {c.value} else {}
  }

  /** The first r reservations are held, and so is the contended one still to come. */
  ghost predicate Holding(held: set<nat>, objs: seq<nat>, r: nat, contended: Option<nat>) {
    && r <= |objs| && NoDup(objs[..r])
    && held == Elems(objs[..r]) + Opt(contended)
    && (contended.Some? ==> contended.value in objs && contended.value !in objs[..r])
  }

  /** From log to log' locks have only been released. */
  ghost predicate OnlyReleases(log: seq<Op>, log': seq<Op>) {
    log <= log' && forall j :: |log| <= j < |log'| ==> log'[j].Released?
  }

  /** From log to log' locks have been taken, until one was refused or failed. */
  ghost predicate Passed(log: seq<Op>, log': seq<Op>, err: Status) {
    && log <= log' && (err.Deadlock? ==> |log| < |log'| && log'[|log'| - 1].Refused?)
    && forall j :: |log| <= j < |log'| ==> !log'[j].Awaited? && (log'[j].Refused? ==> err.Deadlock? && j == |log'| - 1)
  }

  /** Drop the first n reservations, last one first, then the contended one. */
  method Unwind(locks: Reservations, objs: seq<nat>, n: nat, contended: Option<nat>)
    requires Holding(locks.held, objs, n, contended)
    modifies locks`held, locks`log
    ensures locks.held == {} && OnlyReleases(old(locks.log), locks.log)
  {
    var r: nat := n;
    while r > 0
      invariant Holding(locks.held, objs, r, contended) && OnlyReleases(old(locks.log), locks.log)
    {
      r := r - 1;
      ElemsNext(objs, r);
      locks.Unlock(objs[r]);
    }
    if contended.Some? {
      locks.Unlock(contended.value);
    }
  }

  /** One pass over the list; it stops early at a lock that was refused. */
  method Pass(locks: Reservations, objs: seq<nat>, contended0: Option<nat>)
    returns (err: Status, r: nat, contended: Option<nat>)
    requires locks.Valid() && Holding(locks.held, objs, 0, contended0)
    modifies locks
    ensures locks.Valid() && Holding(locks.held, objs, r, contended)
    ensures err.Ok? <==> r == |objs|
    ensures err.Already? ==> objs[r] in objs[..r]
    ensures err.Deadlock? || err.Failed? ==>
      err in old(locks.contention) && |locks.contention| < |old(locks.contention)|
    ensures Suffix(locks.contention, old(locks.contention))
    ensures Passed(old(locks.log), locks.log, err)
    ensures err.Deadlock? ==> locks.log[|locks.log| - 1] == Refused(objs[r])
  {
    r, err, contended := 0, Ok, contended0;
    while r < |objs|
      invariant err.Ok? && locks.Valid() && Holding(locks.held, objs, r, contended)
      invariant Suffix(locks.contention, old(locks.contention)) && Passed(old(locks.log), locks.log, err)
    {
      ElemsNext(objs, r);
      if contended == Some(objs[r]) {
        contended := None;
      } else {
        err := locks.Lock(objs[r]);
        if err != Ok {
          return;
        }
      }
      r := r + 1;
    }
  }

  ghost predicate Suffix(s: seq<Status>, t: seq<Status>) {
    |s| <= |t| && s == t[|t| - |s|..]
  }

  /**
   All or nothing: success means each reservation of the list is held, once; an
   error means none is held. A repeated reservation is always an error, and apart
   from that only a failing lock operation is. After every refusal the loop backs off
   to the refused lock.
   */
  method LockReservations(locks: Reservations, objs: seq<nat>) returns (err: Status)
    requires locks.Valid() && locks.held == {}
    modifies locks
    ensures locks.Valid()
    ensures err.Ok? ==> NoDup(objs) && locks.held == Elems(objs)
    ensures !err.Ok? ==> locks.held == {}
    ensures !err.Deadlock? && (err.Already? ==> !NoDup(objs)) && (err.Failed? ==> Failed in old(locks.contention))
    ensures Failed !in old(locks.contention) ==> (err.Ok? <==> NoDup(objs))
    ensures old(locks.log) <= locks.log && BacksOff(locks.log, |old(locks.log)|)
  {
    ghost var n := |locks.log|;
    var contended: Option<nat> := None;
    while true
      invariant locks.Valid() && Holding(locks.held, objs, 0, contended)
      invariant Suffix(locks.contention, old(locks.contention))
      invariant old(locks.log) <= locks.log && BacksOff(locks.log, n)
      decreases |locks.contention|
    {
      var r: nat;
      ghost var log0 := locks.log;
      err, r, contended := Pass(locks, objs, contended);
      ghost var log1 := locks.log;
      if err.Ok? {
        assert objs[..|objs|] == objs;
        BackedOff(log0, log1, log1, log1, err, n);
        return;
      }
      Unwind(locks, objs, r, contended);
      ghost var log2 := locks.log;
      if !err.Deadlock? {
        BackedOff(log0, log1, log2, log2, err, n);
        return;
      }
      contended := Some(objs[r]);
      locks.LockSlow(objs[r]);
      BackedOff(log0, log1, log2, locks.log, err, n);
    }
  }

  /** Behind log only operation last is a refusal, and only operation wait, which answers it, waits for a lock. */
  ghost predicate Answered(log: seq<Op>, log': seq<Op>, refused: bool, last: int, wait: nat) {
    && log <= log' && (refused ==> |log| <= last && Answers(log', last, wait))
    && forall j :: |log| <= j < |log'| ==>
      (log'[j].Refused? ==> refused && j == last) && (log'[j].Awaited? ==> refused && j == wait)
  }

  lemma PassAnswered(log0: seq<Op>, log1: seq<Op>, log2: seq<Op>, log3: seq<Op>, err: Status)
    requires Passed(log0, log1, err) && OnlyReleases(log1, log2)
    requires log3 == if err.Deadlock? then log2 + [Awaited(log1[|log1| - 1].r)] else log2
    ensures Answered(log0, log3, err.Deadlock?, |log1| - 1, |log2|)
  {
  }

  lemma RefusalsAnswered(log: seq<Op>, log': seq<Op>, refused: bool, last: int, wait: nat, n: nat)
    requires n <= |log| && BacksOff(log, n) && Answered(log, log', refused, last, wait)
    ensures forall k :: n <= k < |log'| && log'[k].Refused? ==> exists m :: Answers(log', k, m)
  {
    forall k | n <= k < |log'| && log'[k].Refused?
      ensures exists m :: Answers(log', k, m)
    {
      if k < |log| {
        var m := AnswerKept(log, log', k);
      }
    }
  }

  lemma WaitsAnswer(log: seq<Op>, log': seq<Op>, refused: bool, last: int, wait: nat, n: nat)
    requires n <= |log| && BacksOff(log, n) && Answered(log, log', refused, last, wait)
    ensures forall m :: n <= m < |log'| && log'[m].Awaited? ==> exists k :: n <= k && Answers(log', k, m)
  {
    forall m | n <= m < |log'| && log'[m].Awaited?
      ensures exists k :: n <= k && Answers(log', k, m)
    {
      if m < |log| {
        var k :| n <= k && Answers(log, k, m);
        AnswersStill(log, log', k, m);
      }
    }
  }

  /** A pass, the releases after it and, if a lock was refused, the wait for it keep the discipline. */
  lemma BackedOff(log0: seq<Op>, log1: seq<Op>, log2: seq<Op>, log3: seq<Op>, err: Status, n: nat)
    requires n <= |log0| && BacksOff(log0, n) && Passed(log0, log1, err) && OnlyReleases(log1, log2)
    requires log3 == if err.Deadlock? then log2 + [Awaited(log1[|log1| - 1].r)] else log2
    ensures BacksOff(log3, n)
  {
    PassAnswered(log0, log1, log2, log3, err);
    RefusalsAnswered(log0, log3, err.Deadlock?, |log1| - 1, |log2|, n);
    WaitsAnswer(log0, log3, err.Deadlock?, |log1| - 1, |log2|, n);
  }

  lemma AnswersStill(log: seq<Op>, log': seq<Op>, k: nat, m: nat)
    requires log <= log' && Answers(log, k, m)
    ensures Answers(log', k, m)
  {
  }

  lemma AnswerKept(log: seq<Op>, log': seq<Op>, k: nat) returns (m: nat)
    requires log <= log' && exists m :: Answers(log, k, m)
    ensures Answers(log', k, m)
  {
    var j :| Answers(log, k, j);
    AnswersStill(log, log', k, j);
    m := j;
  }

  /** kbase_dma_fence_unlock_reservations. */
  method UnlockReservations(locks: Reservations, objs: seq<nat>)
    requires NoDup(objs) && locks.held == Elems(objs)
    modifies locks`held, locks`log
    ensures locks.held == {}
  {
    for r := 0 to |objs|
      invariant locks.held == Elems(objs) - Elems(objs[..r])
    {
      ElemsNext(objs, r);
      assert objs[r] !in objs[..r] by {
        forall i | 0 <= i < r
          ensures objs[i] != objs[r]
        {
        }
      }
      locks.Unlock(objs[r]);
    }
    assert objs[..|objs|] == objs;
  }

  /** struct kbase_dma_fence_resv_info: the list and the bitmap of exclusive accesses. */
  class ResvInfo {
    var objs: seq<nat>
    var exclusive: set<nat>

    ghost predicate Valid()
      reads this
    {
      NoDup(objs) && forall i :: i in exclusive ==> i < |objs|
    }

    constructor ()
      ensures Valid() && objs == [] && exclusive == {}
    {
      objs, exclusive := [], {};
    }

    /** kbase_dma_fence_add_reservation: a repeated reservation is ignored, whatever its access mode. */
    method AddReservation(resv: nat, excl: bool)
      requires Valid()
      modifies this
      ensures Valid()
      ensures resv in old(objs) ==> objs == old(objs) && exclusive == old(exclusive)
      ensures resv !in old(objs) ==>
        objs == old(objs) + [resv] && exclusive == old(exclusive) + if excl then {|old(objs)|} else {}
    {
      for i := 0 to |objs|
        invariant objs == old(objs) && exclusive == old(exclusive) && resv !in objs[..i]
      {
        if objs[i] == resv {
          return;
        }
      }
      objs := objs + [resv];
      if excl {
        exclusive := exclusive + {|objs| - 1};
      }
    }
  }

  /** The access mode of resv is the one it was first requested with. */
  ghost predicate FirstRequest(reqs: seq<(nat, bool)>, resv: nat, excl: bool) {
    exists j :: 0 <= j < |reqs| && reqs[j] == (resv, excl) && forall i :: 0 <= i < j ==> reqs[i].0 != resv
  }

  /** info lists exactly the requested reservations, with the access mode first asked for. */
  ghost predicate Lists(info: ResvInfo, reqs: seq<(nat, bool)>)
    reads info
  {
    && info.Valid()
    && (forall j :: 0 <= j < |reqs| ==> reqs[j].0 in info.objs)
    && (forall i :: 0 <= i < |info.objs| ==> FirstRequest(reqs, info.objs[i], i in info.exclusive))
  }

  lemma FirstRequestKept(reqs: seq<(nat, bool)>, req: (nat, bool), resv: nat, excl: bool)
    requires FirstRequest(reqs, resv, excl)
    ensures FirstRequest(reqs + [req], resv, excl)
  {
    var j :| 0 <= j < |reqs| && reqs[j] == (resv, excl) && forall i :: 0 <= i < j ==> reqs[i].0 != resv;
    assert (reqs + [req])[j] == (resv, excl);
  }

  /** The external resources of an atom, taken one by one into an empty list. */
  method CollectReservations(info: ResvInfo, reqs: seq<(nat, bool)>)
    requires info.Valid() && info.objs == []
    modifies info
    ensures Lists(info, reqs)
  {
    for n := 0 to |reqs|
      invariant Lists(info, reqs[..n])
    {
      CollectOne(info, reqs[..n], reqs[n]);
      assert reqs[..n] + [reqs[n]] == reqs[..n + 1];
    }
    assert reqs[..|reqs|] == reqs;
  }

  method CollectOne(info: ResvInfo, reqs: seq<(nat, bool)>, req: (nat, bool))
    requires Lists(info, reqs)
    modifies info
    ensures Lists(info, reqs + [req])
  {
    ghost var objs0, excl0 := info.objs, info.exclusive;
    info.AddReservation(req.0, req.1);
    forall i | 0 <= i < |info.objs|
      ensures FirstRequest(reqs + [req], info.objs[i], i in info.exclusive)
    {
      if i < |objs0| {
        assert FirstRequest(reqs, objs0[i], i in excl0);
        FirstRequestKept(reqs, req, objs0[i], i in excl0);
      } else {
        assert (reqs + [req])[|reqs|] == (info.objs[i], i in info.exclusive);
      }
    }
  }

  /** With the de-duplicated list, only a failing lock operation makes the loop fail. */
  method CollectAndLock(locks: Reservations, info: ResvInfo, reqs: seq<(nat, bool)>) returns (err: Status)
    requires locks.Valid() && locks.held == {} && info.Valid() && info.objs == []
    modifies locks, info
    ensures err.Ok? || (err.Failed? && Failed in old(locks.contention))
    ensures locks.held == if err.Ok? then set req | req in reqs :: req.0 else {}
  {
    CollectReservations(info, reqs);
    err := LockReservations(locks, info.objs);
    forall r | r in info.objs
      ensures exists req :: req in reqs && req.0 == r
    {
      var i :| 0 <= i < |info.objs| && info.objs[i] == r;
      assert FirstRequest(reqs, r, i in info.exclusive);
    }
    assert Elems(info.objs) == set req | req in reqs :: req.0;
  }
}
