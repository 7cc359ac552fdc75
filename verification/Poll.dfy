/** The poll backend: an array of watched descriptors with the events that wait on each, and an
    index from descriptors to array slots. It stands for a function from descriptors to the event
    that reads and the event that writes. */
module Poll {
  import opened Options

  /** A registered event; its descriptor and kinds do not change while it is registered. */
  datatype Event = Event(id: int, fd: int, read: bool, write: bool)

  /** One watched descriptor: POLLIN and POLLOUT. */
  datatype Slot = Slot(fd: int, pollIn: bool, pollOut: bool)

  datatype Waiters = Waiters(reader: Option<Event>, writer: Option<Event>)

  const NOBODY: Waiters := Waiters(None, None)

  /** The allocator's answers for the slots, the two back-pointer arrays and the index. */
  datatype Grants = Grants(slots: bool, readers: bool, writers: bool, index: bool)

  /** With one more event, which takes the place of an earlier one of its kind. */
  function With(w: Waiters, ev: Event): Waiters {
    Waiters(if ev.read then Some(ev) else w.reader, if ev.write then Some(ev) else w.writer)
  }

  /** Without the kinds of one event. */
  function Without(w: Waiters, ev: Event): Waiters {
    Waiters(if ev.read then None else w.reader, if ev.write then None else w.writer)
  }

  // ----- the arrays

  /** The slots, of which the first `count` are in use, the back pointers, and the index: 0 for a
      descriptor not watched, else its slot plus one. */
  datatype Table = Table(slots: seq<Slot>, readers: seq<Option<Event>>, writers: seq<Option<Event>>, index: seq<int>,
    count: nat)
  {
    predicate Sized() { count <= |slots| && count <= |readers| && count <= |writers| }

    /** The index leads back to a slot. */
    predicate Found(i: int)
      requires Sized() && 0 <= i < count
    {
      0 <= slots[i].fd < |index| && index[slots[i].fd] == i + 1
    }

    /** The index leads to the slot of a descriptor. */
    predicate Leads(fd: int)
      requires Sized() && 0 <= fd < |index|
    {
      0 <= index[fd] <= count && (index[fd] > 0 ==> slots[index[fd] - 1].fd == fd)
    }

    /** The bits of a slot agree with its back pointers, and these with the slot. */
    predicate Backed(i: int)
      requires Sized() && 0 <= i < count
    {
      && (slots[i].pollIn <==> readers[i].Some?) && (slots[i].pollOut <==> writers[i].Some?)
      && (readers[i].Some? ==> readers[i].value.read && readers[i].value.fd == slots[i].fd)
      && (writers[i].Some? ==> writers[i].value.write && writers[i].value.fd == slots[i].fd)
    }

    predicate Used(i: int)
      requires Sized() && 0 <= i < count
    {
      slots[i].pollIn || slots[i].pollOut
    }

    predicate Indexed() {
      && Sized()
      && (forall i :: 0 <= i < count ==> Found(i))
      && (forall fd :: 0 <= fd < |index| ==> Leads(fd))
      && (forall i :: 0 <= i < count ==> Backed(i))
    }

    /** What holds between any two operations. */
    predicate Ok() { Indexed() && forall i :: 0 <= i < count ==> Used(i) }

    /** Who waits on a descriptor. */
    function Watch(fd: int): Waiters
      requires Indexed()
    {
      if 0 <= fd < |index| && index[fd] > 0
      then assert Leads(fd); Waiters(readers[index[fd] - 1], writers[index[fd] - 1])
      else NOBODY
    }
  }

  /** The slots in use are exactly the descriptors somebody waits on, each once. */
  lemma SlotsAreWatched(t: Table, fd: int)
    requires t.Ok()
    ensures t.Watch(fd) != NOBODY <==> exists i :: 0 <= i < t.count && t.slots[i].fd == fd
    ensures forall i, j :: 0 <= i < j < t.count ==> t.slots[i].fd != t.slots[j].fd
  {
    forall i, j | 0 <= i < j < t.count ensures t.slots[i].fd != t.slots[j].fd {
      assert t.Found(i) && t.Found(j);
    }
    if 0 <= fd < |t.index| && t.index[fd] > 0 {
      assert t.Leads(fd);
      var i := t.index[fd] - 1;
      assert t.Used(i) && t.Backed(i) && t.slots[i].fd == fd;
    } else {
      forall i | 0 <= i < t.count ensures t.slots[i].fd != fd {
        assert t.Found(i);
      }
    }
  }

  // ----- steps on the arrays

  /** A slot at the end for a descriptor that was not watched. */
  function Fresh(t: Table, fd: int): Table
    requires t.Sized() && t.count < |t.slots| && t.count < |t.readers| && t.count < |t.writers| && 0 <= fd < |t.index|
  {
    Table(t.slots[t.count := Slot(fd, false, false)], t.readers[t.count := None], t.writers[t.count := None],
          t.index[fd := t.count + 1], t.count + 1)
  }

  /** Set the bits and the back pointers of a slot for an event. */
  function Join(t: Table, ev: Event, i: nat): Table
    requires t.Sized() && i < t.count
  {
    var s := t.slots[i];
    t.(slots := t.slots[i := Slot(s.fd, s.pollIn || ev.read, s.pollOut || ev.write)],
       readers := if ev.read then t.readers[i := Some(ev)] else t.readers,
       writers := if ev.write then t.writers[i := Some(ev)] else t.writers)
  }

  /** Clear the bits and the back pointers of a slot for an event. */
  function Clear(t: Table, ev: Event, i: nat): Table
    requires t.Sized() && i < t.count
  {
    var s := t.slots[i];
    t.(slots := t.slots[i := Slot(s.fd, s.pollIn && !ev.read, s.pollOut && !ev.write)],
       readers := if ev.read then t.readers[i := None] else t.readers,
       writers := if ev.write then t.writers[i := None] else t.writers)
  }

  /** Free a slot by moving the last one into it. */
  function Drop(t: Table, fd: int, i: nat): Table
    requires t.Sized() && i < t.count && 0 <= fd < |t.index|
    requires 0 <= t.slots[t.count - 1].fd < |t.index|
  {
    var u := t.(index := t.index[fd := 0], count := t.count - 1);
    if i == u.count then u
    else
      var last := t.slots[u.count];
      u.(slots := u.slots[i := last], readers := u.readers[i := u.readers[u.count]],
         writers := u.writers[i := u.writers[u.count]], index := u.index[last.fd := i + 1])
  }

  lemma FreshKeeps(t: Table, fd: int)
    requires t.Ok() && t.count < |t.slots| && t.count < |t.readers| && t.count < |t.writers|
    requires 0 <= fd < |t.index| && t.index[fd] == 0
    ensures var f := Fresh(t, fd);
            && f.Indexed() && (forall k :: 0 <= k < t.count ==> f.Used(k))
            && forall d :: f.Watch(d) == t.Watch(d)
  {
    var f := Fresh(t, fd);
    forall k | 0 <= k < f.count ensures f.Found(k) && f.Backed(k) && (k < t.count ==> f.Used(k)) {
      if k < t.count { assert t.Found(k) && t.Backed(k) && t.Used(k); }
    }
    forall d | 0 <= d < |f.index| ensures f.Leads(d) {
      assert t.Leads(d);
    }
    forall d ensures f.Watch(d) == t.Watch(d) {
      if 0 <= d < |f.index| { assert t.Leads(d); }
    }
  }

  /** An event joins the slot of its descriptor. */
  lemma JoinKeeps(t: Table, ev: Event, i: nat)
    requires t.Indexed() && 0 <= ev.fd < |t.index| && t.index[ev.fd] == i + 1 && i < t.count && (ev.read || ev.write)
    requires forall k :: 0 <= k < t.count && k != i ==> t.Used(k)
    ensures var u := Join(t, ev, i);
            u.Ok() && forall d :: u.Watch(d) == if d == ev.fd then With(t.Watch(d), ev) else t.Watch(d)
  {
    var u := Join(t, ev, i);
    assert t.Leads(ev.fd);
    forall k | 0 <= k < u.count ensures u.Found(k) && u.Backed(k) && u.Used(k) {
      assert t.Found(k) && t.Backed(k) && (k != i ==> t.Used(k));
    }
    forall d | 0 <= d < |u.index| ensures u.Leads(d) {
      assert t.Leads(d);
    }
    forall d ensures u.Watch(d) == if d == ev.fd then With(t.Watch(d), ev) else t.Watch(d) {
      if 0 <= d < |u.index| { assert t.Leads(d); }
    }
  }

  /** An event leaves the slot of its descriptor. */
  lemma ClearKeeps(t: Table, ev: Event, i: nat)
    requires t.Ok() && 0 <= ev.fd < |t.index| && t.index[ev.fd] == i + 1 && i < t.count
    ensures var u := Clear(t, ev, i);
            && u.Indexed() && (forall k :: 0 <= k < u.count && k != i ==> u.Used(k))
            && forall d :: u.Watch(d) == if d == ev.fd then Without(t.Watch(d), ev) else t.Watch(d)
  {
    var u := Clear(t, ev, i);
    assert t.Leads(ev.fd);
    forall k | 0 <= k < u.count ensures u.Found(k) && u.Backed(k) && (k != i ==> u.Used(k)) {
      assert t.Found(k) && t.Backed(k) && t.Used(k);
    }
    forall d | 0 <= d < |u.index| ensures u.Leads(d) {
      assert t.Leads(d);
    }
    forall d ensures u.Watch(d) == if d == ev.fd then Without(t.Watch(d), ev) else t.Watch(d) {
      if 0 <= d < |u.index| { assert t.Leads(d); }
    }
  }

  /** A slot nobody waits on goes, and nobody else notices. */
  lemma DropKeeps(t: Table, fd: int, i: nat)
    requires t.Indexed() && 0 <= fd < |t.index| && t.index[fd] == i + 1 && i < t.count && !t.Used(i)
    requires forall k :: 0 <= k < t.count && k != i ==> t.Used(k)
    ensures t.Found(t.count - 1)
    ensures var u := Drop(t, fd, i); u.Ok() && forall d :: u.Watch(d) == t.Watch(d)
  {
    assert t.Found(t.count - 1) && t.Leads(fd) && t.Backed(i) && t.Found(i);
    var u := Drop(t, fd, i);
    forall k | 0 <= k < u.count ensures u.Found(k) && u.Backed(k) && u.Used(k) {
      var j := if k == i then u.count else k;
      assert t.Found(j) && t.Backed(j) && t.Used(j);
    }
    forall d | 0 <= d < |u.index| ensures u.Leads(d) {
      assert t.Leads(d);
    }
    forall d ensures u.Watch(d) == t.Watch(d) {
      if 0 <= d < |u.index| { assert t.Leads(d); }
    }
  }

  /** Grow an array, unless it already is that large. */
  function Resized<T>(s: seq<T>, n: nat, fill: T): (r: seq<T>)
    ensures |r| >= |s| && |r| >= n && r[..|s|] == s
  {
    if n <= |s| then s else s + seq(n - |s|, _ => fill)
  }

  /** Larger arrays with the same contents. */
  predicate Extends(u: Table, t: Table) {
    && u.count == t.count
    && |t.slots| <= |u.slots| && u.slots[..|t.slots|] == t.slots
    && |t.readers| <= |u.readers| && u.readers[..|t.readers|] == t.readers
    && |t.writers| <= |u.writers| && u.writers[..|t.writers|] == t.writers
    && |t.index| <= |u.index| && u.index[..|t.index|] == t.index
    && forall fd :: |t.index| <= fd < |u.index| ==> u.index[fd] == 0
  }

  lemma ExtendKeeps(u: Table, t: Table)
    requires t.Ok() && Extends(u, t)
    ensures u.Ok() && forall fd :: u.Watch(fd) == t.Watch(fd)
  {
    assert u.Sized();
    forall i | 0 <= i < t.count ensures u.Found(i) && u.Backed(i) && u.Used(i) {
      assert t.Found(i) && t.Backed(i) && t.Used(i);
      Same(u, t, i);
      assert u.index[..|t.index|][t.slots[i].fd] == t.index[t.slots[i].fd];
    }
    forall fd | 0 <= fd < |u.index| ensures u.Leads(fd) {
      if fd < |t.index| { SameIndex(u, t, fd); }
    }
    forall fd ensures u.Watch(fd) == t.Watch(fd) {
      if 0 <= fd < |t.index| { SameIndex(u, t, fd); }
    }
  }

  lemma Same(u: Table, t: Table, i: nat)
    requires Extends(u, t) && t.Sized() && i < t.count
    ensures u.slots[i] == t.slots[i] && u.readers[i] == t.readers[i] && u.writers[i] == t.writers[i]
  {
    assert u.slots[..|t.slots|][i] == u.slots[i];
    assert u.readers[..|t.readers|][i] == u.readers[i];
    assert u.writers[..|t.writers|][i] == u.writers[i];
  }

  lemma SameIndex(u: Table, t: Table, fd: nat)
    requires Extends(u, t) && t.Ok() && fd < |t.index|
    ensures u.index[fd] == t.index[fd] && t.Leads(fd) && u.Sized() && u.Leads(fd)
  {
    assert t.Leads(fd);
    assert u.index[..|t.index|][fd] == u.index[fd];
    if t.index[fd] > 0 { Same(u, t, t.index[fd] - 1); }
  }

  // ----- the backend

  /** Success, a descriptor nobody waits on, or a read outside the index. */
  datatype Deletion = Done | NotWatched | Wild

  /** Success, memory refused, or a write outside the index. */
  datatype Addition = Added | Refused | Outside

  class Poller {
    var slots: seq<Slot>
    var readers: seq<Option<Event>>
    var writers: seq<Option<Event>>
    var index: seq<int>
    var nfds: nat
    var eventCount: int       // room counted in the slots and in the back pointers

    function T(): Table
      reads this
    {
      Table(slots, readers, writers, index, nfds)
    }

    ghost predicate Valid()
      reads this
    {
      && T().Ok() && nfds <= eventCount && (eventCount == 0 || eventCount >= 32)
      && eventCount <= |slots| && eventCount <= |readers| && eventCount <= |writers|
    }

    constructor ()
      ensures Valid() && forall fd :: T().Watch(fd) == NOBODY
    {
      slots, readers, writers, index, nfds, eventCount := [], [], [], [], 0, 0;
    }

    /** Make room for one more slot; a refusal leaves some arrays larger than counted. */
    method GrowSlots(g: Grants) returns (ok: bool)
      requires Valid()
      modifies this
      ensures Valid() && (forall fd :: T().Watch(fd) == old(T()).Watch(fd))
      ensures index == old(index) && nfds == old(nfds) && (ok ==> nfds + 1 < eventCount)
      ensures ok <==> old(nfds + 1 < eventCount) || (g.slots && g.readers && g.writers)
    {
      if nfds + 1 < eventCount { return true; }
      hide Table.Ok; hide Table.Watch; hide Resized;
      var n := if eventCount < 32 then 32 else eventCount * 2;
      if !g.slots { return false; }
      slots := Resized(slots, n, Slot(-1, false, false));
      ExtendKeeps(T(), old(T()));
      if !g.readers { return false; }
      readers := Resized(readers, n, None);
      ExtendKeeps(T(), old(T()));
      if !g.writers { return false; }
      writers := Resized(writers, n, None);
      ExtendKeeps(T(), old(T()));
      eventCount := n;
      ok := true;
    }

    /** Make room in the index for a descriptor. */
    method GrowIndex(fd: int, granted: bool) returns (ok: bool)
      requires Valid()
      modifies this`index
      ensures Valid() && (forall d :: T().Watch(d) == old(T()).Watch(d))
      ensures ok ==> fd < |index|
      ensures ok <==> fd < old(|index|) || granted
    {
      if fd < |index| { return true; }
      if !granted { return false; }
      hide Table.Ok; hide Table.Watch;
      var n := if |index| < 32 then 32 else |index| * 2;
      while n <= fd
        invariant n >= 32 && n > |index|
        decreases fd - n
      {
        n := n * 2;
      }
      index := index + seq(n - |index|, _ => 0);
      ExtendKeeps(T(), old(T()));
      ok := true;
    }

    /** Watch for an event. When memory is refused nothing changes for anybody. A negative descriptor
        passes for one that the index covers. */
    method Add(ev: Event, g: Grants) returns (r: Addition)
      requires Valid()
      modifies this
      ensures Valid()
      ensures r == if !ev.read && !ev.write then Added
                   else if old(nfds + 1 >= eventCount) && !(g.slots && g.readers && g.writers) then Refused
                   else if ev.fd < 0 then Outside
                   else if ev.fd >= old(|index|) && !g.index then Refused else Added
      ensures forall fd ::
                T().Watch(fd)
                == if fd == ev.fd && r == Added then With(old(T()).Watch(fd), ev) else old(T()).Watch(fd)
      ensures r == Added ==> T().Watch(ev.fd).reader == if ev.read then Some(ev) else old(T()).Watch(ev.fd).reader
      ensures r == Added ==> T().Watch(ev.fd).writer == if ev.write then Some(ev) else old(T()).Watch(ev.fd).writer
    {
      if !ev.read && !ev.write { return Added; }
      hide Table.Ok; hide Table.Watch;
      var ok := GrowSlots(g);
      if !ok { return Refused; }
      ok := GrowIndex(ev.fd, g.index);
      if !ok { return Refused; }
      if ev.fd < 0 { return Outside; }
      Enter(ev);
      r := Added;
    }

    /** The slot of the descriptor, or a new one at the end, gets the bits and the back pointers. */
    method Enter(ev: Event)
      requires Valid() && nfds + 1 < eventCount && 0 <= ev.fd < |index| && (ev.read || ev.write)
      modifies this`slots, this`readers, this`writers, this`index, this`nfds
      ensures Valid()
      ensures forall fd :: T().Watch(fd) == if fd == ev.fd then With(old(T()).Watch(fd), ev) else old(T()).Watch(fd)
    {
      hide Table.Ok; hide Table.Watch;
      ghost var goal := Entered(T(), ev);
      SlotFor(T(), ev.fd);
      var i := index[ev.fd] - 1;
      if i < 0 {
        i := nfds;
        nfds := nfds + 1;
        slots := slots[i := Slot(ev.fd, false, false)];
        writers, readers := writers[i := None], readers[i := None];
        index := index[ev.fd := i + 1];
      }
      if ev.write {
        slots := slots[i := slots[i].(pollOut := true)];
        writers := writers[i := Some(ev)];
      }
      if ev.read {
        slots := slots[i := slots[i].(pollIn := true)];
        readers := readers[i := Some(ev)];
      }
      assert T() == goal;
    }

    /** Watch no longer for an event. */
    method Del(ev: Event) returns (r: Deletion)
      requires Valid()
      modifies this
      ensures Valid()
      ensures r == if !ev.read && !ev.write then Done
                   else if !(0 <= ev.fd < |old(index)|) then Wild
                   else if old(T()).Watch(ev.fd) == NOBODY then NotWatched else Done
      ensures forall fd ::
                T().Watch(fd)
                == if fd == ev.fd && r == Done then Without(old(T()).Watch(fd), ev) else old(T()).Watch(fd)
      ensures r == Done ==> T().Watch(ev.fd).reader == if ev.read then None else old(T()).Watch(ev.fd).reader
      ensures r == Done ==> T().Watch(ev.fd).writer == if ev.write then None else old(T()).Watch(ev.fd).writer
    {
      if !ev.read && !ev.write { return Done; }
      hide Table.Ok; hide Table.Watch;
      if !(0 <= ev.fd < |index|) { return Wild; }
      SlotFor(T(), ev.fd);
      if index[ev.fd] - 1 < 0 { return NotWatched; }
      Leave(ev);
      r := Done;
    }

    /** The bits and the back pointers go; the last slot takes the place of one that is freed. */
    method Leave(ev: Event)
      requires Valid() && 0 <= ev.fd < |index| && index[ev.fd] > 0
      modifies this`slots, this`readers, this`writers, this`index, this`nfds
      ensures Valid()
      ensures forall fd :: T().Watch(fd) == if fd == ev.fd then Without(old(T()).Watch(fd), ev) else old(T()).Watch(fd)
    {
      hide Table.Ok; hide Table.Watch; hide Clear; hide Drop; hide Table.Backed; hide Table.Found; hide Table.Leads;
      ghost var t, goal := T(), Left(T(), ev);
      SlotFor(t, ev.fd);
      var i := index[ev.fd] - 1;
      LeftIs(t, ev, i);
      ClearBits(i, ev);
      if !slots[i].pollIn && !slots[i].pollOut { FreeSlot(ev.fd, i); }
    }

    method ClearBits(i: nat, ev: Event)
      requires T().Sized() && i < nfds
      modifies this`slots, this`readers, this`writers
      ensures T() == Clear(old(T()), ev, i)
    {
      if ev.read {
        slots := slots[i := slots[i].(pollIn := false)];
        readers := readers[i := None];
      }
      if ev.write {
        slots := slots[i := slots[i].(pollOut := false)];
        writers := writers[i := None];
      }
    }

    method FreeSlot(fd: int, i: nat)
      requires T().Sized() && i < nfds && 0 <= fd < |index| && 0 <= slots[nfds - 1].fd < |index|
      modifies this`slots, this`readers, this`writers, this`index, this`nfds
      ensures T() == Drop(old(T()), fd, i)
    {
      index := index[fd := 0];
      nfds := nfds - 1;
      if i != nfds {
        slots := slots[i := slots[nfds]];
        readers := readers[i := readers[nfds]];
        writers := writers[i := writers[nfds]];
        index := index[slots[i].fd := i + 1];
      }
    }
  }

  lemma LeftIs(t: Table, ev: Event, i: nat)
    requires t.Ok() && 0 <= ev.fd < |t.index| && t.index[ev.fd] == i + 1
    ensures t.Sized() && i < t.count
    ensures var u := Clear(t, ev, i);
            && u.Sized() && u.count == t.count && u.index == t.index && 0 <= u.slots[u.count - 1].fd < |u.index|
            && Left(t, ev) == if u.slots[i].pollIn || u.slots[i].pollOut then u else Drop(u, ev.fd, i)
  {
    assert t.Leads(ev.fd) && t.Found(t.count - 1);
  }

  lemma SlotFor(t: Table, fd: int)
    requires t.Ok() && 0 <= fd < |t.index|
    ensures t.Sized() && 0 <= t.index[fd] <= t.count && (t.index[fd] == 0 <==> t.Watch(fd) == NOBODY)
  {
    assert t.Leads(fd);
    if t.index[fd] > 0 { assert t.Used(t.index[fd] - 1) && t.Backed(t.index[fd] - 1); }
  }

  /** The event joins the slot of its descriptor, or a new one at the end. */
  function Entered(t: Table, ev: Event): (u: Table)
    requires t.Ok() && t.count < |t.slots| && t.count < |t.readers| && t.count < |t.writers|
    requires 0 <= ev.fd < |t.index| && (ev.read || ev.write)
    ensures u.Ok() && |u.slots| == |t.slots| && |u.readers| == |t.readers| && |u.writers| == |t.writers|
            && u.count <= t.count + 1
    ensures forall d :: u.Watch(d) == if d == ev.fd then With(t.Watch(d), ev) else t.Watch(d)
  {
    assert t.Leads(ev.fd);
    var i := t.index[ev.fd] - 1;
    if i >= 0 then
      JoinKeeps(t, ev, i);
      Join(t, ev, i)
    else
      FreshKeeps(t, ev.fd);
      JoinKeeps(Fresh(t, ev.fd), ev, t.count);
      Join(Fresh(t, ev.fd), ev, t.count)
  }

  /** The event leaves its slot, and the slot goes when nobody is left in it. */
  function Left(t: Table, ev: Event): (u: Table)
    requires t.Ok() && 0 <= ev.fd < |t.index| && t.index[ev.fd] > 0
    ensures u.Ok() && |u.slots| == |t.slots| && |u.readers| == |t.readers| && |u.writers| == |t.writers|
            && u.count <= t.count
    ensures forall d :: u.Watch(d) == if d == ev.fd then Without(t.Watch(d), ev) else t.Watch(d)
  {
    assert t.Leads(ev.fd);
    var i := t.index[ev.fd] - 1;
    ClearKeeps(t, ev, i);
    var u := Clear(t, ev, i);
    if u.Used(i) then u
    else
      DropKeeps(u, ev.fd, i);
      Drop(u, ev.fd, i)
  }
}
