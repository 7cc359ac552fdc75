/** The queues of an event base: inserted events, active events by priority and timers, with
    the flags and counters that mirror them. */
module EventLoop {
  import opened Lists
  import opened TimerHeap
  import opened Options

  /** The queues, the flag bits of the events (as the sets that carry each bit) and the counters. */
  datatype Book = Book(queue: seq<Event>, active: seq<seq<Event>>, timers: set<Event>,
                       insFlag: set<Event>, actFlag: set<Event>, timFlag: set<Event>,
                       count: int, countActive: int)

  function TotalLength(queues: seq<seq<Event>>): nat {
    if queues == [] then 0 else |queues[0]| + TotalLength(queues[1..])
  }

  lemma {:induction false} TotalLengthUpdate(queues: seq<seq<Event>>, i: int, q: seq<Event>)
    requires 0 <= i < |queues|
    ensures TotalLength(queues[i := q]) == TotalLength(queues) - |queues[i]| + |q|
  {
    if i > 0 {
      TotalLengthUpdate(queues[1..], i - 1, q);
      assert queues[i := q][1..] == queues[1..][i - 1 := q];
    }
  }

  lemma {:induction false} EmptyLength(n: nat)
    ensures TotalLength(seq(n, _ => [])) == 0
  {
    if n > 0 {
      EmptyLength(n - 1);
      assert seq<seq<Event>>(n, _ => [])[1..] == seq<seq<Event>>(n - 1, _ => []);
    }
  }

  /** The events that count: internal ones do not. */
  ghost function Counted(s: set<Event>): set<Event> {
    set e | e in s && !e.internal
  }

  function Unit(e: Event): int { if e.internal then 0 else 1 }

  lemma CountedAdd(s: set<Event>, e: Event)
    requires e !in s
    ensures |Counted(s + {e})| == |Counted(s)| + Unit(e)
  {
    assert Counted(s + {e}) == if e.internal then Counted(s) else Counted(s) + {e};
  }

  lemma CountedDrop(s: set<Event>, e: Event)
    requires e in s
    ensures |Counted(s - {e})| == |Counted(s)| - Unit(e)
  {
    assert s == (s - {e}) + {e};
    CountedAdd(s - {e}, e);
  }

  // ----- the invariant

  /** A queue holds exactly the events that carry its flag, each once. */
  ghost predicate Holds(q: seq<Event>, flagged: set<Event>) {
    Distinct(q) && Elements(q) == flagged
  }

  ghost function OfPriority(s: set<Event>, i: int): set<Event> {
    set e | e in s && e.pri == i
  }

  ghost predicate Ok(b: Book) {
    && Holds(b.queue, b.insFlag)
    && (forall e :: e in b.actFlag ==> e.pri < |b.active|)
    && (forall i :: 0 <= i < |b.active| ==> Holds(b.active[i], OfPriority(b.actFlag, i)))
    && b.timers == b.timFlag
    && b.count == |Counted(b.insFlag)| + |Counted(b.actFlag)| + |Counted(b.timFlag)|
    && b.countActive == TotalLength(b.active)
  }

  // ----- one queue at a time

  ghost function AddInserted(b: Book, e: Event): Book {
    b.(queue := b.queue + [e], insFlag := b.insFlag + {e}, count := b.count + Unit(e))
  }

  ghost function DropInserted(b: Book, e: Event): Book {
    b.(queue := RemoveFirst(b.queue, e), insFlag := b.insFlag - {e}, count := b.count - Unit(e))
  }

  ghost function AddActive(b: Book, e: Event): Book
    requires e.pri < |b.active|
  {
    b.(active := b.active[e.pri := b.active[e.pri] + [e]], actFlag := b.actFlag + {e},
       count := b.count + Unit(e), countActive := b.countActive + 1)
  }

  ghost function DropActive(b: Book, e: Event): Book
    requires e.pri < |b.active|
  {
    b.(active := b.active[e.pri := RemoveFirst(b.active[e.pri], e)], actFlag := b.actFlag - {e},
       count := b.count - Unit(e), countActive := b.countActive - 1)
  }

  ghost function AddTimer(b: Book, e: Event): Book {
    b.(timers := b.timers + {e}, timFlag := b.timFlag + {e}, count := b.count + Unit(e))
  }

  ghost function DropTimer(b: Book, e: Event): Book {
    b.(timers := b.timers - {e}, timFlag := b.timFlag - {e}, count := b.count - Unit(e))
  }

  lemma HoldsAdd(q: seq<Event>, s: set<Event>, e: Event)
    requires Holds(q, s) && e !in s
    ensures Holds(q + [e], s + {e})
  {}

  lemma HoldsDrop(q: seq<Event>, s: set<Event>, e: Event)
    requires Holds(q, s) && e in s
    ensures Holds(RemoveFirst(q, e), s - {e}) && |RemoveFirst(q, e)| == |q| - 1
  {
    DistinctRemoval(q, e);
    CountRemoved(q, e, e);
    var r := RemoveFirst(q, e);
    forall x | x in Elements(r) ensures x in s - {e} { assert x in r && x in Elements(q); }
    forall x | x in s - {e} ensures x in Elements(r) { assert x in Elements(q) && x in r; }
  }

  lemma AddInsertedOk(b: Book, e: Event)
    requires Ok(b) && e !in b.insFlag
    ensures Ok(AddInserted(b, e))
  {
    HoldsAdd(b.queue, b.insFlag, e);
    CountedAdd(b.insFlag, e);
  }

  lemma DropInsertedOk(b: Book, e: Event)
    requires Ok(b) && e in b.insFlag
    ensures Ok(DropInserted(b, e))
  {
    HoldsDrop(b.queue, b.insFlag, e);
    CountedDrop(b.insFlag, e);
  }

  lemma AddActiveOk(b: Book, e: Event)
    requires Ok(b) && e !in b.actFlag && e.pri < |b.active|
    ensures Ok(AddActive(b, e))
  {
    hide Holds;
    var c := AddActive(b, e);
    HoldsAdd(b.active[e.pri], OfPriority(b.actFlag, e.pri), e);
    CountedAdd(b.actFlag, e);
    TotalLengthUpdate(b.active, e.pri, b.active[e.pri] + [e]);
    forall i | 0 <= i < |c.active| ensures Holds(c.active[i], OfPriority(c.actFlag, i)) {
      assert OfPriority(c.actFlag, i)
             == if i == e.pri then OfPriority(b.actFlag, i) + {e} else OfPriority(b.actFlag, i);
    }
  }

  lemma DropActiveOk(b: Book, e: Event)
    requires Ok(b) && e in b.actFlag
    ensures Ok(DropActive(b, e))
  {
    hide Holds;
    var c := DropActive(b, e);
    HoldsDrop(b.active[e.pri], OfPriority(b.actFlag, e.pri), e);
    CountedDrop(b.actFlag, e);
    TotalLengthUpdate(b.active, e.pri, RemoveFirst(b.active[e.pri], e));
    forall i | 0 <= i < |c.active| ensures Holds(c.active[i], OfPriority(c.actFlag, i)) {
      assert OfPriority(c.actFlag, i)
             == if i == e.pri then OfPriority(b.actFlag, i) - {e} else OfPriority(b.actFlag, i);
    }
  }

  lemma AddTimerOk(b: Book, e: Event)
    requires Ok(b) && e !in b.timFlag
    ensures Ok(AddTimer(b, e))
  {
    CountedAdd(b.timFlag, e);
  }

  lemma DropTimerOk(b: Book, e: Event)
    requires Ok(b) && e in b.timFlag
    ensures Ok(DropTimer(b, e))
  {
    CountedDrop(b.timFlag, e);
  }

  /** All queues left, timer first. */
  ghost function Deleted(b: Book, e: Event): Book
    requires e.pri < |b.active|
  {
    var b1 := if e in b.timFlag then DropTimer(b, e) else b;
    var b2 := if e in b.actFlag then DropActive(b1, e) else b1;
    if e in b.insFlag then DropInserted(b2, e) else b2
  }

  ghost function Rescheduled(b: Book, e: Event, timedOut: bool): Book
    requires e.pri < |b.active|
  {
    var b1 := if e in b.timFlag then DropTimer(b, e) else b;
    var b2 := if e in b.actFlag && timedOut then DropActive(b1, e) else b1;
    AddTimer(b2, e)
  }

  /** What `event_add` makes of the queues. */
  ghost function Added(b: Book, e: Event, timer: bool, timedOut: bool): Book
    requires e.pri < |b.active|
  {
    var b1 := if e.polled && e !in b.insFlag && e !in b.actFlag then AddInserted(b, e) else b;
    if timer then Rescheduled(b1, e, timedOut) else b1
  }

  ghost function FireAll(b: Book, fired: seq<Event>): (c: Book)
    requires forall e :: e in fired ==> e.pri < |b.active|
    ensures |c.active| == |b.active|
  {
    if fired == [] then b
    else
      var last := |fired| - 1;
      assert fired[last] in fired;
      AddActive(Deleted(FireAll(b, fired[..last]), fired[last]), fired[last])
  }

  lemma FireNone(b: Book)
    ensures FireAll(b, []) == b
  {}

  lemma FireOneMore(b: Book, fired: seq<Event>, e: Event)
    requires (forall x :: x in fired ==> x.pri < |b.active|) && e.pri < |b.active|
    ensures FireAll(b, fired + [e]) == AddActive(Deleted(FireAll(b, fired), e), e)
  {
    hide AddActive; hide Deleted;
    assert (fired + [e])[..|fired|] == fired;
  }

  lemma DeletedOk(b: Book, e: Event)
    requires Ok(b) && e.pri < |b.active|
    ensures Ok(Deleted(b, e)) && e !in Deleted(b, e).actFlag && |Deleted(b, e).active| == |b.active|
  {
    hide Ok;
    var b1 := if e in b.timFlag then DropTimer(b, e) else b;
    if e in b.timFlag { DropTimerOk(b, e); }
    var b2 := if e in b.actFlag then DropActive(b1, e) else b1;
    if e in b.actFlag { DropActiveOk(b1, e); }
    if e in b.insFlag { DropInsertedOk(b2, e); }
  }

  lemma {:induction false} FireAllOk(b: Book, fired: seq<Event>)
    requires Ok(b) && forall e :: e in fired ==> e.pri < |b.active|
    ensures Ok(FireAll(b, fired))
    decreases |fired|
  {
    hide Ok; hide AddActive; hide Deleted;
    if fired != [] {
      var last := |fired| - 1;
      assert fired[last] in fired;
      var c := FireAll(b, fired[..last]);
      FireAllOk(b, fired[..last]);
      DeletedOk(c, fired[last]);
      AddActiveOk(Deleted(c, fired[last]), fired[last]);
    }
  }

  function RemoveAll(q: seq<Event>, xs: seq<Event>): seq<Event>
    decreases |xs|
  {
    if xs == [] then q else RemoveFirst(RemoveAll(q, xs[..|xs| - 1]), xs[|xs| - 1])
  }

  function WithPriority(xs: seq<Event>, i: int): seq<Event> {
    if xs == [] then []
    else WithPriority(xs[..|xs| - 1], i) + if xs[|xs| - 1].pri == i then [xs[|xs| - 1]] else []
  }

  lemma {:induction false} WithPriorityWithin(xs: seq<Event>, i: int, e: Event)
    requires e in WithPriority(xs, i)
    ensures e in xs
  {
    if e in WithPriority(xs[..|xs| - 1], i) { WithPriorityWithin(xs[..|xs| - 1], i, e); }
  }

  lemma {:induction false} RemoveLeft(a: seq<Event>, p: seq<Event>, e: Event)
    requires e !in p
    ensures RemoveFirst(a + p, e) == RemoveFirst(a, e) + p
  {
    if a == [] {
      assert a + p == p;
      RemoveAbsent(p, e);
    } else {
      assert (a + p)[1..] == a[1..] + p;
      if a[0] != e { RemoveLeft(a[1..], p, e); }
    }
  }

  /** The queues after the due timers fired: each fired event is off every queue it was on, and
      the active queue of its priority ends with it, in the order of firing. */
  lemma {:induction false} FireAllShape(b: Book, fired: seq<Event>, i: int)
    requires Ok(b) && Distinct(fired) && (forall e :: e in fired ==> e.pri < |b.active|) && 0 <= i < |b.active|
    ensures FireAll(b, fired).active[i] == RemoveAll(b.active[i], fired) + WithPriority(fired, i)
    decreases |fired|
  {
    if fired == [] {
      assert b.active[i] + [] == b.active[i];
    } else {
      hide Ok; hide FireAll; hide Distinct;
      var last := |fired| - 1;
      var e := fired[last];
      var f := fired[..last];
      assert e in fired && forall x :: x in f ==> x in fired;
      NotBefore(fired);
      FireAllShape(b, f, i);
      FireAllOk(b, f);
      var c := FireAll(b, f);
      FireStep(b, fired);
      FireOneShape(c, e, i, RemoveAll(b.active[i], f), WithPriority(f, i), f);
      assert RemoveAll(b.active[i], fired) == RemoveFirst(RemoveAll(b.active[i], f), e);
    }
  }

  lemma NotBefore(s: seq<Event>)
    requires Distinct(s) && s != []
    ensures s[|s| - 1] !in s[..|s| - 1] && Distinct(s[..|s| - 1])
  {}

  lemma FireStep(b: Book, fired: seq<Event>)
    requires fired != [] && forall e :: e in fired ==> e.pri < |b.active|
    ensures var e := fired[|fired| - 1];
            && (forall x :: x in fired[..|fired| - 1] ==> x.pri < |b.active|)
            && e.pri < |b.active|
            && FireAll(b, fired) == AddActive(Deleted(FireAll(b, fired[..|fired| - 1]), e), e)
  {
    assert fired[|fired| - 1] in fired;
  }

  lemma FireOneShape(c: Book, e: Event, i: int, left: seq<Event>, right: seq<Event>, f: seq<Event>)
    requires Ok(c) && e.pri < |c.active| && 0 <= i < |c.active| && c.active[i] == left + right
    requires e !in f && right == WithPriority(f, i)
    ensures AddActive(Deleted(c, e), e).active[i]
         == RemoveFirst(left, e) + (right + if e.pri == i then [e] else [])
  {
    assert e !in right by {
      if e in right { WithPriorityWithin(f, i, e); }
    }
    var d := Deleted(c, e);
    if e.pri != i || e !in c.actFlag {
      assert e !in Elements(c.active[i]);
      assert e !in left + right;
      RemoveAbsent(left, e);
      assert d.active[i] == c.active[i];
    } else {
      RemoveLeft(left, right, e);
      assert d.active[i] == RemoveFirst(left, e) + right;
    }
  }

  /** `fired` are the timers taken so far, in deadline order, ahead of those that remain. */
  ghost predicate Front(all: set<Event>, fired: seq<Event>, rest: set<Event>, t: map<Event, Timeval>, now: Timeval) {
    && all <= t.Keys && Distinct(fired) && rest <= all
    && (forall e :: e in fired ==> e in all && e !in rest && !Later(t[e], now))
    && (forall e :: e in all && e !in rest ==> e in fired)
    && (forall i, j :: 0 <= i < j < |fired| ==> !Later(t[fired[i]], t[fired[j]]))
    && (forall e, x :: e in fired && x in rest ==> !Later(t[e], t[x]))
  }

  lemma FrontStart(all: set<Event>, t: map<Event, Timeval>, now: Timeval)
    requires forall e :: e in all ==> e in t
    ensures Front(all, [], all, t, now)
  {}

  lemma FrontEnd(all: set<Event>, fired: seq<Event>, rest: set<Event>, t: map<Event, Timeval>, now: Timeval)
    requires Front(all, fired, rest, t, now) && forall x :: x in rest ==> Later(t[x], now)
    ensures Distinct(fired) && forall e :: e in fired ==> e in all && e in t
    ensures forall e :: e in all ==> e in t && (e in fired <==> !Later(t[e], now))
    ensures forall i, j :: 0 <= i < j < |fired| ==> !Later(t[fired[i]], t[fired[j]])
    ensures forall e :: e in rest <==> e in all && e !in fired
  {}

  lemma FrontStep(all: set<Event>, fired: seq<Event>, rest: set<Event>, t: map<Event, Timeval>, now: Timeval, ev: Event)
    requires Front(all, fired, rest, t, now) && ev in rest && !Later(t[ev], now)
    requires forall x :: x in rest ==> !Later(t[ev], t[x])
    ensures Front(all, fired + [ev], rest - {ev}, t, now)
  {}

  // ----- the base

  class EventBase {
    const heap: Heap
    var eventQueue: seq<Event>
    var activeQueues: seq<seq<Event>>
    var eventCount: int
    var eventCountActive: int
    var eventTv: Timeval  // the clock when it was last looked at
    ghost const events: set<Event>  // every event assigned to this base

    ghost function InsFlag(): set<Event>
      reads events`inserted
    {
      set e | e in events && e.inserted
    }

    ghost function ActFlag(): set<Event>
      reads events`active
    {
      set e | e in events && e.active
    }

    ghost function TimFlag(): set<Event>
      reads events`timed
    {
      set e | e in events && e.timed
    }

    ghost function Timers(): set<Event>
      requires heap.n <= |heap.p|
      reads heap`p, heap`n
    {
      Elements(heap.p[..heap.n])
    }

    ghost function B(): Book
      requires heap.n <= |heap.p|
      reads this, heap`p, heap`n, events`inserted, events`active, events`timed
    {
      Book(eventQueue, activeQueues, Timers(), InsFlag(), ActFlag(), TimFlag(), eventCount, eventCountActive)
    }

    /** The heap slots agree with the timer flag. */
    ghost predicate Indexed()
      reads events`heapIdx, events`timed
    {
      forall e :: e in events ==> (e.heapIdx == -1 <==> !e.timed)
    }

    ghost predicate Valid()
      reads this, heap, events, Elements(heap.p)
    {
      && heap.Valid() && heap.n <= |heap.p| <= heap.a && Indexed()
      && (forall e :: e in events ==> e.pri < |activeQueues|)
      && Ok(B())
    }

    /** The clock and all deadlines have their microseconds in range. */
    ghost predicate Clocked()
      reads this`eventTv, events`timed, events`timeout
    {
      Normal(eventTv) && forall e :: e in events && e.timed ==> Normal(e.timeout)
    }

    constructor (priorities: nat, ghost events: set<Event>)
      requires forall e :: e in events ==> e.pri < priorities && !e.inserted && !e.active && !e.timed && e.heapIdx == -1
      ensures Valid() && Clocked() && this.events == events && fresh(heap)
      ensures B() == Book([], seq(priorities, _ => []), {}, {}, {}, {}, 0, 0)
    {
      heap := new Heap();
      eventQueue, activeQueues := [], seq(priorities, _ => []);
      eventCount, eventCountActive, eventTv, this.events := 0, 0, Timeval(0, 0), events;
      new;
      EmptyLength(priorities);
      assert B() == Book([], seq(priorities, _ => []), {}, {}, {}, {}, 0, 0);
    }

    // ----- event_queue_insert and event_queue_remove

    method InsertInserted(ev: Event)
      requires Valid() && ev in events && !ev.inserted
      modifies this`eventQueue, this`eventCount, ev`inserted
      ensures Valid() && ev.inserted && B() == AddInserted(old(B()), ev) && eventQueue == old(eventQueue) + [ev]
    {
      hide Ok; hide Heap.Valid; hide Elements; hide Indexed;
      AddInsertedOk(B(), ev);
      if !ev.internal { eventCount := eventCount + 1; }
      ev.inserted := true;
      eventQueue := eventQueue + [ev];
      assert InsFlag() == old(InsFlag()) + {ev};
    }

    method RemoveInserted(ev: Event)
      requires Valid() && ev in events && ev.inserted
      modifies this`eventQueue, this`eventCount, ev`inserted
      ensures Valid() && !ev.inserted && B() == DropInserted(old(B()), ev)
      ensures eventQueue == RemoveFirst(old(eventQueue), ev)
    {
      hide Ok; hide Heap.Valid; hide Elements; hide Indexed;
      DropInsertedOk(B(), ev);
      if !ev.internal { eventCount := eventCount - 1; }
      ev.inserted := false;
      eventQueue := RemoveFirst(eventQueue, ev);
      assert InsFlag() == old(InsFlag()) - {ev};
    }

    method InsertActive(ev: Event)
      requires Valid() && ev in events && !ev.active
      modifies this`activeQueues, this`eventCount, this`eventCountActive, ev`active
      ensures Valid() && ev.active && B() == AddActive(old(B()), ev)
      ensures activeQueues == old(activeQueues)[ev.pri := old(activeQueues[ev.pri]) + [ev]]
      ensures eventCountActive == old(eventCountActive) + 1
    {
      hide Ok; hide Heap.Valid; hide Elements; hide Indexed;
      AddActiveOk(B(), ev);
      if !ev.internal { eventCount := eventCount + 1; }
      ev.active := true;
      eventCountActive := eventCountActive + 1;
      activeQueues := activeQueues[ev.pri := activeQueues[ev.pri] + [ev]];
      assert ActFlag() == old(ActFlag()) + {ev};
    }

    method RemoveActive(ev: Event)
      requires Valid() && ev in events && ev.active
      modifies this`activeQueues, this`eventCount, this`eventCountActive, ev`active
      ensures Valid() && !ev.active && B() == DropActive(old(B()), ev)
    {
      hide Ok; hide Heap.Valid; hide Elements; hide Indexed;
      DropActiveOk(B(), ev);
      if !ev.internal { eventCount := eventCount - 1; }
      ev.active := false;
      eventCountActive := eventCountActive - 1;
      activeQueues := activeQueues[ev.pri := RemoveFirst(activeQueues[ev.pri], ev)];
      assert ActFlag() == old(ActFlag()) - {ev};
    }

    /** Room in the heap was reserved beforehand. */
    method InsertTimer(ev: Event)
      requires Valid() && ev in events && !ev.timed && heap.n < heap.a
      modifies this`eventCount, ev`timed, heap, events`heapIdx
      ensures Valid() && ev.timed && B() == AddTimer(old(B()), ev)
    {
      hide Ok; hide Heap.Valid;
      AddTimerOk(B(), ev);
      NotInHeap(ev);
      if !ev.internal { eventCount := eventCount + 1; }
      ev.timed := true;
      assert TimFlag() == old(TimFlag()) + {ev};
      SameTimers(old(B()));
      var ok := heap.Push(ev, false);
      assert B() == AddTimer(old(B()), ev);
      SameTimers(B());
      Reindex();
    }

    method RemoveTimer(ev: Event)
      requires Valid() && ev in events && ev.timed
      modifies this`eventCount, ev`timed, heap`p, heap`n, events`heapIdx
      ensures Valid() && !ev.timed && B() == DropTimer(old(B()), ev) && heap.a == old(heap.a)
              && heap.n == old(heap.n) - 1
    {
      hide Ok; hide Heap.Valid;
      DropTimerOk(B(), ev);
      SameTimers(B());
      InHeap(ev);
      if !ev.internal { eventCount := eventCount - 1; }
      ev.timed := false;
      assert TimFlag() == old(TimFlag()) - {ev};
      var ok := heap.Erase(ev);
      assert B() == DropTimer(old(B()), ev);
      SameTimers(B());
      Reindex();
    }

    lemma SameTimers(b: Book)
      requires Ok(b)
      ensures b.timers == b.timFlag
    {}

    lemma InHeap(ev: Event)
      requires Valid() && ev in events && ev.timed
      ensures 0 <= ev.heapIdx < heap.n && heap.p[ev.heapIdx] == ev
    {
      assert ev in TimFlag() && ev in Timers();
      var i :| 0 <= i < heap.n && heap.p[i] == ev;
      assert heap.Contents()[i] == ev;
    }

    lemma Reindex()
      requires heap.Valid() && Timers() == TimFlag()
      requires forall e :: e in events && !e.timed ==> e.heapIdx == -1
      ensures Indexed()
    {
      forall e | e in events && e.timed ensures e.heapIdx != -1 {
        assert e in TimFlag() && e in Timers();
        var i :| 0 <= i < heap.n && heap.p[i] == e;
        assert heap.Contents()[i] == e;
      }
    }

    // ----- event_add, event_del, event_active

    /** Leave every queue the event is on; `delOk` is the answer of the backend. */
    method EventDel(ev: Event, delOk: bool) returns (ok: bool)
      requires Valid() && ev in events
      modifies this`eventQueue, this`activeQueues, this`eventCount, this`eventCountActive
      modifies ev`inserted, ev`active, ev`timed, heap`p, heap`n, events`heapIdx
      ensures Valid() && B() == Deleted(old(B()), ev) && ok == (old(ev.inserted) ==> delOk)
      ensures !ev.inserted && !ev.active && !ev.timed && (old(Clocked()) ==> Clocked())
      ensures eventQueue == if old(ev.inserted) then RemoveFirst(old(eventQueue), ev) else old(eventQueue)
      ensures heap.a == old(heap.a) && (old(ev.timed) ==> heap.n == old(heap.n) - 1)
    {
      hide Ok; hide Heap.Valid; hide Indexed; hide AddTimer; hide DropTimer; hide DropActive; hide DropInserted;
      ok := true;
      ghost var wasTimed, wasActive := ev.timed, ev.active;
      if ev.timed { RemoveTimer(ev); }
      if ev.active { RemoveActive(ev); }
      if ev.inserted {
        RemoveInserted(ev);
        ok := delOk;
      }
    }

    method EventActive(ev: Event, timeout: bool)
      requires Valid() && ev in events
      modifies this`activeQueues, this`eventCount, this`eventCountActive, ev`active, ev`timedOut
      ensures Valid() && B() == if old(ev.active) then old(B()) else AddActive(old(B()), ev)
      ensures old(Clocked()) ==> Clocked()
      ensures ev.timedOut == (timeout || (old(ev.active) && old(ev.timedOut)))
    {
      hide Ok; hide Heap.Valid; hide Indexed; hide AddActive;
      if ev.active {
        ev.timedOut := ev.timedOut || timeout;
        return;
      }
      ev.timedOut := timeout;
      InsertActive(ev);
    }

    /** Put an event on the queues it asks for. `backendOk` and `granted` are the answers of the
        backend and of the allocator; if either fails nothing changes. */
    method EventAdd(ev: Event, tv: Option<Timeval>, now: Timeval, backendOk: bool, granted: bool) returns (ok: bool)
      requires Valid() && ev in events
      modifies this`eventQueue, this`activeQueues, this`eventCount, this`eventCountActive
      modifies ev`inserted, ev`active, ev`timed, ev`timeout, heap, events`heapIdx
      ensures Valid()
      ensures !ok ==> B() == old(B()) && ev.timeout == old(ev.timeout)
      ensures ok ==> B() == Added(old(B()), ev, tv.Some?, old(ev.timedOut))
      ensures ok ==> ev.timeout == if tv.Some? then Plus(now, tv.value) else old(ev.timeout)
      ensures ok ==> ev.timed == (old(ev.timed) || tv.Some?)
      ensures ok ==> ev.inserted == (old(ev.inserted) || (ev.polled && !old(ev.active)))
      ensures ok ==> ev.active == (old(ev.active) && !(tv.Some? && old(ev.timedOut)))
      ensures ok ==> eventQueue == old(eventQueue) + if ev.inserted && !old(ev.inserted) then [ev] else []
      ensures old(Clocked()) && Normal(now) && (tv.Some? ==> Normal(tv.value)) ==> Clocked()
      ensures ok <==> && (tv.Some? && !old(ev.timed) ==> old(heap.n) < old(heap.a) || granted)
                      && (ev.polled && !old(ev.inserted) && !old(ev.active) ==> backendOk)
    {
      hide Ok; hide Heap.Valid; hide Indexed; hide AddTimer; hide DropTimer; hide DropActive; hide AddInserted;
      hide Elements; hide Clocked; hide Plus; hide Normal;
      if tv.Some? { PlusNormal(now, tv.value); }
      if tv.Some? && !ev.timed {
        ok := heap.Reserve(1 + heap.n, granted);
        if !ok { return; }
      }
      ok := true;
      if ev.polled && !ev.inserted && !ev.active {
        if !backendOk { return false; }
        InsertInserted(ev);
      }
      if tv.Some? {
        Reschedule(ev, Plus(now, tv.value));
      }
      StillClocked(ev);
    }

    /** Only one event has changed, and its deadline is normal or was there before. */
    twostate lemma StillClocked(ev: Event)
      requires ev in events && eventTv == old(eventTv)
      requires forall e :: e in events && e != ev ==> e.timed == old(e.timed) && e.timeout == old(e.timeout)
      ensures old(Clocked()) && (ev.timed ==> Normal(ev.timeout) || (old(ev.timed) && ev.timeout == old(ev.timeout)))
              ==> Clocked()
    {}

    method Reschedule(ev: Event, at: Timeval)
      requires Valid() && ev in events && (!ev.timed ==> heap.n < heap.a)
      modifies this`activeQueues, this`eventCount, this`eventCountActive
      modifies ev`active, ev`timed, ev`timeout, heap, events`heapIdx
      ensures Valid() && B() == Rescheduled(old(B()), ev, old(ev.timedOut)) && ev.timeout == at
      ensures ev.timed && ev.active == (old(ev.active) && !old(ev.timedOut))
    {
      hide Ok; hide Heap.Valid; hide Indexed; hide AddTimer; hide DropTimer; hide DropActive; hide Elements;
      if ev.timed { RemoveTimer(ev); }
      if ev.active && ev.timedOut { RemoveActive(ev); }
      NotInHeap(ev);
      heap.SetTimeout(ev, at);
      InsertTimer(ev);
    }

    /** Active because its time came, and on no other queue. */
    ghost predicate HasFired(e: Event)
      reads e`active, e`timedOut, e`timed, e`inserted
    {
      e.active && e.timedOut && !e.timed && !e.inserted
    }

    /** Delete an expired event from its queues and make it active. */
    method Expire(ev: Event, delOk: bool)
      requires Valid() && ev in events && ev.timed
      modifies this`eventQueue, this`activeQueues, this`eventCount, this`eventCountActive
      modifies ev`inserted, ev`active, ev`timed, ev`timedOut, heap`p, heap`n, events`heapIdx
      ensures Valid() && B() == AddActive(Deleted(old(B()), ev), ev) && HasFired(ev)
      ensures Timers() == old(Timers()) - {ev} && heap.n == old(heap.n) - 1 && (old(Clocked()) ==> Clocked())
    {
      hide Ok; hide Heap.Valid; hide Indexed; hide Elements; hide Clocked;
      var _ := EventDel(ev, delOk);
      assert !ev.active by {
        assert ev !in B().actFlag;
        assert ev in events;
      }
      EventActive(ev, true);
    }

    /** Activate every timer that is due, earliest first. */
    method TimeoutProcess(now: Timeval, delOk: bool) returns (ghost fired: seq<Event>)
      requires Valid()
      modifies this`eventQueue, this`activeQueues, this`eventCount, this`eventCountActive
      modifies heap`p, heap`n, events`inserted, events`active, events`timed, events`timedOut, events`heapIdx
      ensures Valid() && (forall e :: e in fired ==> e in old(Timers()) && e in events)
      ensures B() == FireAll(old(B()), fired)
      ensures Distinct(fired) && forall e :: e in old(Timers()) ==> (e in fired <==> !Later(e.timeout, now))
      ensures forall e :: e in Timers() <==> e in old(Timers()) && e !in fired
      ensures forall e :: e in fired ==> HasFired(e)
      ensures old(Clocked()) ==> Clocked()
      ensures forall i, j :: 0 <= i < j < |fired| ==> !Later(fired[i].timeout, fired[j].timeout)
    {
      hide Ok; hide Heap.Valid; hide Indexed; hide Elements; hide Deleted; hide AddActive; hide Distinct; hide Front;
      hide Clocked; hide HasFired; hide FireAll;
      fired := [];
      ghost var t: map<Event, Timeval> := map e: Event | e in events :: e.timeout;
      TimersWithin();
      FireNone(B());
      FrontStart(Timers(), t, now);
      while heap.n > 0 && !Later(heap.p[0].timeout, now)
        invariant Valid() && (forall e :: e in fired ==> e in events) && forall e :: e in events ==> e.timeout == t[e]
        invariant B() == FireAll(old(B()), fired) && (old(Clocked()) ==> Clocked())
        invariant forall e :: e in fired ==> HasFired(e)
        invariant Front(old(Timers()), fired, Timers(), t, now)
        decreases heap.n
      {
        var ev := heap.p[0];
        TopLeastTimer();
        TopIsTimed(ev);
        TimersWithin();
        FrontStep(old(Timers()), fired, Timers(), t, now, ev);
        FireOneMore(old(B()), fired, ev);
        Expire(ev, delOk);
        fired := fired + [ev];
      }
      RestIsLater(now);
      TimersWithin();
      FrontEnd(old(Timers()), fired, Timers(), t, now);
    }

    lemma TimersWithin()
      requires Valid()
      ensures forall e :: e in Timers() ==> e in events
    {
      SameTimers(B());
    }

    /** The timers are the events with the flag. */
    lemma TimedTimers()
      requires Valid()
      ensures forall e :: e in Timers() ==> e in events && e.timed
      ensures forall e :: e in events && e.timed ==> e in Timers()
    {
      SameTimers(B());
      forall e | e in events && e.timed ensures e in Timers() { assert e in TimFlag(); }
      forall e | e in Timers() ensures e in events && e.timed { assert e in TimFlag(); }
    }

    /** When the earliest timer is not due, none is. */
    lemma RestIsLater(now: Timeval)
      requires Valid() && (heap.n > 0 ==> Later(heap.p[0].timeout, now))
      ensures forall x :: x in Timers() ==> Later(x.timeout, now)
    {
      if heap.n > 0 { TopLeastTimer(); }
    }

    /** `timeout_correct`: when a clock that can be set has gone back, every timer moves by the
        same offset, and no queue, flag or slot changes. */
    method TimeoutCorrect(now: Timeval, monotonic: bool)
      requires Valid() && Clocked() && Normal(now)
      modifies this`eventTv, events`timeout
      ensures Valid() && Clocked() && B() == old(B()) && eventTv == if monotonic then old(eventTv) else now
      ensures forall e :: e in Timers() ==>
                e.timeout == if !monotonic && Later(old(eventTv), now)
                  then Minus(old(e.timeout), Minus(old(eventTv), now))
                             else old(e.timeout)
    {
      hide Ok; hide Minus; hide Normal; hide Heap.Valid; hide Elements;
      if monotonic { return; }
      TimedTimers();
      if Later(eventTv, now) {
        MinusKeepsOrder(eventTv, eventTv, now);
        ShiftTimers(Minus(eventTv, now));
        TimedTimers();
      }
      eventTv := now;
    }

    method ShiftTimers(off: Timeval)
      requires Valid() && Normal(off)
      requires forall e :: e in Timers() ==> Normal(e.timeout)
      modifies events`timeout
      ensures Valid() && B() == old(B())
      ensures forall e :: e in Timers() ==> Normal(e.timeout) && e.timeout == Minus(old(e.timeout), off)
    {
      hide Ok; hide Minus; hide Normal; hide Heap.Valid;
      TimersWithin();
      heap.ShiftClock(off);
    }

    lemma TopLeastTimer()
      requires Valid() && heap.n > 0
      ensures forall x :: x in Timers() ==> !Later(heap.p[0].timeout, x.timeout)
    {
      heap.TopLeast();
      forall x | x in Timers() ensures x in heap.Contents() {}
    }

    lemma TopIsTimed(ev: Event)
      requires Valid() && heap.n > 0 && ev == heap.p[0]
      ensures ev in events && ev.timed && ev in Timers()
    {
      SameTimers(B());
      assert ev == heap.p[..heap.n][0];
      assert ev in Timers() && ev in TimFlag();
    }

    lemma NotInHeap(ev: Event)
      requires Valid() && ev in events && !ev.timed
      ensures ev !in heap.Contents()
    {
      assert B().timers == B().timFlag;
      assert ev !in TimFlag();
      assert ev !in Timers();
    }
  }
}
