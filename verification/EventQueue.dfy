/**
 The event queue of a kbase context (mali_kbase_event.c): posting with
 coalescing, dequeuing, closing and cleanup. Every method is one critical
 section, so any interleaving of posters, readers and the no-report worker is a
 sequence of calls.
 */
module EventQueue {
  import opened Collections

  /** An atom as far as its event is concerned; done means event code BASE_JD_EVENT_DONE. */
  datatype Atom = Atom(number: nat, udata: int, eventCode: int, done: bool, externalResources: bool,
                       onlyOnFailure: bool, never: bool, coalesce: bool)

  predicate Reported(a: Atom) {
    !(a.onlyOnFailure && a.done) && !a.never
  }

  /** The posts that are reported, in order. */
  function Reports(posts: seq<Atom>): seq<Atom> {
    if posts == [] then []
    else Reports(posts[..|posts| - 1]) + if Reported(posts[|posts| - 1]) then [posts[|posts| - 1]] else []
  }

  lemma ReportsAppend(posts: seq<Atom>, a: Atom)
    ensures Reports(posts + [a]) == Reports(posts) + if Reported(a) then [a] else []
  {
    assert (posts + [a])[..|posts|] == posts;
  }

  /** Which posts those are: each one the client wants reported, as often as it was posted, and no other. */
  lemma {:induction false} ReportsAre(posts: seq<Atom>, a: Atom)
    ensures Num(Reports(posts), a) == if !a.never && (!a.onlyOnFailure || !a.done) then Num(posts, a) else 0
    decreases |posts|
  {
    if posts != [] {
      var front, last := posts[..|posts| - 1], posts[|posts| - 1];
      ReportsAre(front, a);
      NumAppend(front, [last], a);
      NumAppend(Reports(front), if Reported(last) then [last] else [], a);
      assert posts == front + [last];
    }
  }

  /** Every atom occurs in all exactly as often as in the five parts together. */
  ghost predicate Split(all: seq<Atom>, e: seq<Atom>, c: seq<Atom>, w: seq<Atom>, t: seq<Atom>, p: seq<Atom>) {
    forall a :: Num(all, a) == Num(e, a) + Num(c, a) + Num(w, a) + Num(t, a) + Num(p, a)
  }

  ghost predicate SameAtoms(s: seq<Atom>, t: seq<Atom>) {
    forall a :: Num(s, a) == Num(t, a)
  }

  /** A new atom joins one part; the coalesced events may join the list. */
  lemma SplitPosted(all: seq<Atom>, e: seq<Atom>, c: seq<Atom>, w: seq<Atom>, t: seq<Atom>, p: seq<Atom>, x: Atom)
    requires Split(all, e, c, w, t, p)
    ensures Split(all + [x], e, c, w + [x], t, p) && Split(all + [x], e, c, w, t, p + [x])
    ensures Split(all + [x], e, c + [x], w, t, p) && Split(all + [x], e + c + [x], [], w, t, p)
  {
    forall a
      ensures Num(all + [x], a) == Num(all, a) + Num([x], a) && Num(w + [x], a) == Num(w, a) + Num([x], a)
      ensures Num(p + [x], a) == Num(p, a) + Num([x], a) && Num(c + [x], a) == Num(c, a) + Num([x], a)
      ensures Num(e + c + [x], a) == Num(e, a) + Num(c, a) + Num([x], a)
    {
      NumAppend(all, [x], a);
      NumAppend(w, [x], a);
      NumAppend(p, [x], a);
      NumAppend(c, [x], a);
      NumAppend(e + c, [x], a);
      NumAppend(e, c, a);
    }
  }

  lemma SplitJoined(all: seq<Atom>, e: seq<Atom>, c: seq<Atom>, w: seq<Atom>, t: seq<Atom>, p: seq<Atom>)
    requires Split(all, e, c, w, t, p)
    ensures Split(all, e + c, [], w, t, p)
  {
    forall a
      ensures Num(e + c, a) == Num(e, a) + Num(c, a)
    {
      NumAppend(e, c, a);
    }
  }

  lemma CountMoved(s: seq<Atom>, i: nat, d: seq<Atom>, a: Atom)
    requires i < |s|
    ensures Num(s, a) + Num(d, a) == Num(s[..i] + s[i + 1..], a) + Num(d + [s[i]], a)
  {
    NumAppend(d, [s[i]], a);
    NumAppend(s[..i], s[i..], a);
    NumAppend([s[i]], s[i + 1..], a);
    NumAppend(s[..i], s[i + 1..], a);
    assert s == s[..i] + s[i..] && s[i..] == [s[i]] + s[i + 1..];
  }

  /** A reader takes the oldest event. */
  lemma SplitTaken(all: seq<Atom>, e: seq<Atom>, c: seq<Atom>, w: seq<Atom>, t: seq<Atom>, p: seq<Atom>)
    requires Split(all, e, c, w, t, p) && e != []
    ensures Split(all, e[1..], c, w, t + [e[0]], p)
  {
    assert e[..0] + e[1..] == e[1..];
    forall a
      ensures Num(e, a) + Num(t, a) == Num(e[1..], a) + Num(t + [e[0]], a)
    {
      CountMoved(e, 0, t, a);
    }
  }

  /** The worker processes the oldest unreported atom. */
  lemma SplitWorked(all: seq<Atom>, e: seq<Atom>, c: seq<Atom>, w: seq<Atom>, t: seq<Atom>, p: seq<Atom>)
    requires Split(all, e, c, w, t, p) && w != []
    ensures Split(all, e, c, w[1..], t, p + [w[0]])
  {
    assert w[..0] + w[1..] == w[1..];
    forall a
      ensures Num(w, a) + Num(p, a) == Num(w[1..], a) + Num(p + [w[0]], a)
    {
      CountMoved(w, 0, p, a);
    }
  }

  /** A reader processes atom i of those taken. */
  lemma SplitMoved(all: seq<Atom>, e: seq<Atom>, c: seq<Atom>, w: seq<Atom>, t: seq<Atom>, p: seq<Atom>, i: nat)
    requires Split(all, e, c, w, t, p) && i < |t|
    ensures Split(all, e, c, w, t[..i] + t[i + 1..], p + [t[i]])
  {
    forall a
      ensures Num(t, a) + Num(p, a) == Num(t[..i] + t[i + 1..], a) + Num(p + [t[i]], a)
    {
      CountMoved(t, i, p, a);
    }
  }

  lemma Assoc(d: seq<Atom>, e: seq<Atom>, c: seq<Atom>)
    ensures d + e + c == d + (e + c)
  {
  }

  datatype Dequeued = Empty | Terminated | Event(atom: Atom)

  class Queue {
    var eventList: seq<Atom>
    var coalesceList: seq<Atom>
    var eventCount: int
    var coalesceCount: int
    var closed: bool
    /** Unreported atoms with external resources, on event_workq. */
    var workq: seq<Atom>
    /** Taken off the list by a reader that has yet to process them. */
    var taken: seq<Atom>
    /** Atoms kbase_event_process has returned to the unused state. */
    var processed: seq<Atom>
    ghost var posted: seq<Atom>
    ghost var delivered: seq<Atom>

    /**
     Events are delivered in the order they were posted, the counters are the
     lists' lengths, and every posted atom is in exactly one place.
     */
    ghost predicate Valid()
      reads this
    {
      && delivered + eventList + coalesceList == Reports(posted)
      && eventCount == |eventList| && coalesceCount == |coalesceList|
      && Split(posted, eventList, coalesceList, workq, taken, processed)
    }

    /** An event is held back exactly while only coalescing ones were posted after it. */
    ghost predicate HeldBack()
      reads this
    {
      && (forall a :: a in coalesceList ==> a.coalesce)
      && var visible := delivered + eventList;
         visible == [] || !visible[|visible| - 1].coalesce
    }

    /** kbase_event_init. */
    constructor ()
      ensures Valid() && HeldBack() && posted == [] && !closed
    {
      eventList, coalesceList, eventCount, coalesceCount := [], [], 0, 0;
      closed := false;
      workq, taken, processed := [], [], [];
      posted, delivered := [], [];
    }

    /** kbase_event_process. */
    method Process(a: Atom) returns (udata: int)
      modifies this`processed
      ensures processed == old(processed) + [a] && udata == a.udata
    {
      processed := processed + [a];
      udata := a.udata;
    }

    /** kbase_event_process_noreport. */
    method ProcessNoreport(a: Atom)
      modifies this`processed, this`workq
      ensures a.externalResources ==> workq == old(workq) + [a] && processed == old(processed)
      ensures !a.externalResources ==> workq == old(workq) && processed == old(processed) + [a]
    {
      if a.externalResources {
        workq := workq + [a];
      } else {
        var _ := Process(a);
      }
    }

    /** kbase_event_coalesce. */
    method Coalesce() returns (n: int)
      modifies this`eventList, this`coalesceList, this`coalesceCount
      ensures eventList == old(eventList) + old(coalesceList) && coalesceList == []
      ensures n == old(coalesceCount) && coalesceCount == 0
    {
      n := coalesceCount;
      eventList := eventList + coalesceList;
      coalesceList := [];
      coalesceCount := 0;
    }

    /** kbase_event_post. */
    method Post(a: Atom)
      requires Valid()
      modifies this
      ensures Valid() && posted == old(posted) + [a] && delivered == old(delivered)
      ensures taken == old(taken) && closed == old(closed) && (old(HeldBack()) ==> HeldBack())
      ensures !a.never && (!a.onlyOnFailure || !a.done) ==>
        && workq == old(workq) && processed == old(processed)
        && (!a.coalesce ==> coalesceList == [] && eventList == old(eventList) + old(coalesceList) + [a])
        && (a.coalesce ==> eventList == old(eventList) && coalesceList == old(coalesceList) + [a])
      ensures a.never || (a.onlyOnFailure && a.done) ==>
        && eventList == old(eventList) && coalesceList == old(coalesceList)
        && (a.externalResources ==> workq == old(workq) + [a] && processed == old(processed))
        && (!a.externalResources ==> workq == old(workq) && processed == old(processed) + [a])
    {
      if a.onlyOnFailure {
        if a.done {
          PostUnreported(a);
          return;
        }
      }
      if a.never {
        PostUnreported(a);
        return;
      }
      if a.coalesce {
        PostCoalescing(a);
      } else {
        PostNow(a);
      }
    }

    method PostUnreported(a: Atom)
      requires Valid() && !Reported(a)
      modifies this`workq, this`processed, this`posted
      ensures Valid() && posted == old(posted) + [a]
      ensures a.externalResources ==> workq == old(workq) + [a] && processed == old(processed)
      ensures !a.externalResources ==> workq == old(workq) && processed == old(processed) + [a]
    {
      ReportsAppend(posted, a);
      SplitPosted(posted, eventList, coalesceList, workq, taken, processed, a);
      posted := posted + [a];
      ProcessNoreport(a);
    }

    method PostCoalescing(a: Atom)
      requires Valid() && Reported(a)
      modifies this`coalesceList, this`coalesceCount, this`posted
      ensures Valid() && posted == old(posted) + [a] && coalesceList == old(coalesceList) + [a]
    {
      ReportsAppend(posted, a);
      SplitPosted(posted, eventList, coalesceList, workq, taken, processed, a);
      assert delivered + eventList + coalesceList + [a] == delivered + eventList + (coalesceList + [a]);
      posted := posted + [a];
      coalesceList := coalesceList + [a];
      coalesceCount := coalesceCount + 1;
    }

    method PostNow(a: Atom)
      requires Valid() && Reported(a)
      modifies this`eventList, this`eventCount, this`coalesceList, this`coalesceCount, this`posted
      ensures Valid() && posted == old(posted) + [a] && coalesceList == []
      ensures eventList == old(eventList) + old(coalesceList) + [a]
    {
      ReportsAppend(posted, a);
      SplitPosted(posted, eventList, coalesceList, workq, taken, processed, a);
      Assoc(delivered, eventList, coalesceList);
      assert delivered + (eventList + coalesceList) + [a] == delivered + (eventList + coalesceList + [a]) + [];
      posted := posted + [a];
      var count := 1;
      var pending := Coalesce();
      count := count + pending;
      eventList := eventList + [a];
      eventCount := eventCount + count;
    }

    /** The first critical section of kbase_event_dequeue. */
    method Take() returns (ev: Dequeued)
      requires Valid()
      modifies this`eventList, this`eventCount, this`taken, this`delivered
      ensures Valid() && (old(HeldBack()) ==> HeldBack())
      ensures ev.Empty? <==> old(eventList) == [] && !closed
      ensures ev.Terminated? <==> old(eventList) == [] && closed
      ensures ev.Event? ==>
        ev.atom == old(eventList)[0] && eventList == old(eventList)[1..] &&
        delivered == old(delivered) + [ev.atom] && taken == old(taken) + [ev.atom]
      ensures !ev.Event? ==> eventList == [] && delivered == old(delivered) && taken == old(taken)
    {
      if eventList == [] {
        return if closed then Terminated else Empty;
      }
      eventCount := eventCount - 1;
      var atom := eventList[0];
      SplitTaken(posted, eventList, coalesceList, workq, taken, processed);
      assert delivered + eventList == delivered + [atom] + eventList[1..];
      eventList := eventList[1..];
      delivered := delivered + [atom];
      taken := taken + [atom];
      ev := Event(atom);
    }

    /** The second one: process the atom number i of those taken. */
    method Finish(i: nat) returns (udata: int)
      requires Valid() && i < |taken|
      modifies this`taken, this`processed
      ensures Valid() && (old(HeldBack()) ==> HeldBack())
      ensures taken == old(taken)[..i] + old(taken)[i + 1..] && processed == old(processed) + [old(taken)[i]]
      ensures udata == old(taken)[i].udata
    {
      var atom := taken[i];
      SplitMoved(posted, eventList, coalesceList, workq, taken, processed, i);
      taken := taken[..i] + taken[i + 1..];
      udata := Process(atom);
    }

    /** kbase_event_process_noreport_worker. */
    method NoreportWorker()
      requires Valid() && workq != []
      modifies this`workq, this`processed
      ensures Valid() && (old(HeldBack()) ==> HeldBack())
      ensures workq == old(workq)[1..] && processed == old(processed) + [old(workq)[0]]
    {
      var atom := workq[0];
      SplitWorked(posted, eventList, coalesceList, workq, taken, processed);
      workq := workq[1..];
      var _ := Process(atom);
    }

    /** kbase_event_close. */
    method Close()
      requires Valid()
      modifies this`closed
      ensures Valid() && closed && (old(HeldBack()) ==> HeldBack())
    {
      closed := true;
    }

    /** A whole kbase_event_dequeue with no other critical section in between. */
    method Dequeue() returns (ev: Dequeued, udata: int)
      requires Valid()
      modifies this`eventList, this`eventCount, this`taken, this`delivered, this`processed
      ensures Valid() && (old(HeldBack()) ==> HeldBack()) && taken == old(taken)
      ensures ev.Event? <==> old(eventList) != []
      ensures ev.Event? ==> ev.atom == old(eventList)[0] && eventList == old(eventList)[1..]
      ensures ev.Event? ==> processed == old(processed) + [ev.atom] && udata == ev.atom.udata
      ensures ev.Event? ==> delivered == old(delivered) + [ev.atom]
      ensures !ev.Event? ==> processed == old(processed) && eventList == [] && delivered == old(delivered)
      ensures ev.Terminated? ==> closed && Reports(posted) == delivered + coalesceList
    {
      ev := Take();
      udata := 0;
      if ev.Event? {
        udata := Finish(|taken| - 1);
      }
    }

    /** flush_workqueue. */
    method FlushWorkq()
      requires Valid()
      modifies this`workq, this`processed
      ensures Valid() && workq == [] && processed == old(processed) + old(workq)
    {
      while workq != []
        invariant Valid() && processed + workq == old(processed) + old(workq)
        decreases |workq|
      {
        assert processed + workq == processed + [workq[0]] + workq[1..];
        NoreportWorker();
      }
    }

    /** Dequeue until the list is empty. */
    method Drain()
      requires Valid() && taken == []
      modifies this`eventList, this`eventCount, this`taken, this`delivered, this`processed
      ensures Valid() && taken == [] && eventList == [] && processed == old(processed) + old(eventList)
    {
      while eventList != []
        invariant Valid() && taken == [] && processed + eventList == old(processed) + old(eventList)
        decreases |eventList|
      {
        assert processed + eventList == processed + [eventList[0]] + eventList[1..];
        var _, _ := Dequeue();
      }
    }

    /**
     kbase_event_cleanup, by the last user of the queue: everything left is processed
     once, in order, and nothing stays behind.
     */
    method Cleanup()
      requires Valid() && taken == []
      modifies this
      ensures Valid() && eventList == [] && coalesceList == [] && workq == [] && taken == []
      ensures processed == old(processed) + old(workq) + old(eventList) + old(coalesceList)
      ensures posted == old(posted) && delivered == Reports(posted) && SameAtoms(processed, posted)
    {
      FlushWorkq();
      MakeVisible();
      ghost var before := processed;
      Drain();
      Assoc(before, old(eventList), old(coalesceList));
    }

    /** The pending events join the list, with no new one behind them. */
    method MakeVisible()
      requires Valid()
      modifies this`eventList, this`eventCount, this`coalesceList, this`coalesceCount
      ensures Valid() && eventList == old(eventList) + old(coalesceList) && coalesceList == []
    {
      Assoc(delivered, eventList, coalesceList);
      SplitJoined(posted, eventList, coalesceList, workq, taken, processed);
      var pending := Coalesce();
      eventCount := eventCount + pending;
    }
  }

  /**
   Once the list is empty, and so when the termination message is given, every
   reported event has been delivered exactly if the last reported post did not
   ask for coalescing.
   */
  lemma AllDeliveredIff(q: Queue)
    requires q.Valid() && q.HeldBack() && q.eventList == []
    ensures var reports := Reports(q.posted);
            q.delivered == reports <==> reports == [] || !reports[|reports| - 1].coalesce
  {
    var reports := Reports(q.posted);
    assert q.delivered + [] + q.coalesceList == q.delivered + q.coalesceList;
    if q.coalesceList == [] {
      assert q.delivered + q.eventList == q.delivered;
    } else {
      assert reports[|reports| - 1] == q.coalesceList[|q.coalesceList| - 1];
    }
  }

  /** The termination message may overtake coalesced events that were never made visible. */
  method TerminatedBeforeCoalesced() returns (q: Queue, ev: Dequeued)
    ensures q.Valid() && ev.Terminated? && |q.coalesceList| == 1 && q.posted == q.coalesceList && q.delivered == []
  {
    q := new Queue();
    var a := Atom(0, 0, 1, true, false, false, false, true);
    q.Post(a);
    q.Close();
    ev := q.Take();
  }
}
