/** The timer heap of libevent: an array-backed binary heap of events in which every member
    knows its own slot, so that any member can be erased. */
module TimerHeap {
  import opened Lists

  datatype Timeval = Timeval(sec: int, usec: int)

  /** `evutil_timercmp(a, b, >)`. */
  predicate Later(a: Timeval, b: Timeval) {
    if a.sec == b.sec then a.usec > b.usec else a.sec > b.sec
  }

  predicate Normal(t: Timeval) { 0 <= t.usec < 1000000 }

  /** `evutil_timersub`, with its single borrow. */
  function Minus(a: Timeval, b: Timeval): Timeval {
    var sec, usec := a.sec - b.sec, a.usec - b.usec;
    if usec < 0 then Timeval(sec - 1, usec + 1000000) else Timeval(sec, usec)
  }

  /** `evutil_timeradd`, with its single carry. */
  function Plus(a: Timeval, b: Timeval): Timeval {
    var sec, usec := a.sec + b.sec, a.usec + b.usec;
    if usec >= 1000000 then Timeval(sec + 1, usec - 1000000) else Timeval(sec, usec)
  }

  function Micros(t: Timeval): int { t.sec * 1000000 + t.usec }

  /** In microseconds: comparing compares, adding adds and subtracting subtracts. */
  lemma TimevalsAreMicros(a: Timeval, b: Timeval)
    requires Normal(a) && Normal(b)
    ensures Later(a, b) <==> a.sec * 1000000 + a.usec > b.sec * 1000000 + b.usec
    ensures Normal(Minus(a, b)) && Micros(Minus(a, b)) == Micros(a) - Micros(b)
    ensures Normal(Plus(a, b)) && Micros(Plus(a, b)) == Micros(a) + Micros(b)
  {}

  lemma PlusNormal(a: Timeval, b: Timeval)
    ensures Normal(a) && Normal(b) ==> Normal(Plus(a, b))
  {}

  /** Subtracting one offset everywhere keeps timevals normal and keeps their order. */
  lemma MinusKeepsOrder(a: Timeval, b: Timeval, off: Timeval)
    requires Normal(a) && Normal(b) && Normal(off)
    ensures Normal(Minus(a, off))
    ensures Later(Minus(a, off), Minus(b, off)) <==> Later(a, b)
    ensures Minus(a, off) == Minus(b, off) ==> a == b
  {}

  // ----- heaps of keys

  function Parent(i: int): int { (i - 1) / 2 }

  /** Slot `i` is not earlier than its parent. */
  ghost predicate Under(k: seq<Timeval>, i: int)
    requires 0 < i < |k|
  {
    !Later(k[Parent(i)], k[i])
  }

  ghost predicate IsHeap(k: seq<Timeval>) { forall i :: 0 < i < |k| ==> Under(k, i) }

  /** Slot `c` is not earlier than the parent of its parent. */
  ghost predicate Below(k: seq<Timeval>, c: int)
    requires 0 < Parent(c) < c < |k|
  {
    !Later(k[Parent(Parent(c))], k[c])
  }

  /** The children of slot `h` are not earlier than its parent. */
  ghost predicate ChildrenBelow(k: seq<Timeval>, h: int) {
    forall c :: 0 < c < |k| && Parent(c) == h && 0 < h ==> Below(k, c)
  }

  /** A heap but for slot `h` being possibly too early for its parent. */
  ghost predicate LooseAbove(k: seq<Timeval>, h: int) {
    (forall i :: 0 < i < |k| && i != h ==> Under(k, i)) && ChildrenBelow(k, h)
  }

  /** A heap but for slot `h` being possibly too late for its children. */
  ghost predicate LooseBelow(k: seq<Timeval>, h: int) {
    (forall i :: 0 < i < |k| && Parent(i) != h ==> Under(k, i)) && ChildrenBelow(k, h)
  }

  lemma LaterTransitive(a: Timeval, b: Timeval, c: Timeval)
    requires !Later(a, b) && !Later(b, c)
    ensures !Later(a, c)
  {}

  lemma ClimbStep(k: seq<Timeval>, h: int)
    requires 0 < h < |k| && LooseAbove(k, h) && Later(k[Parent(h)], k[h])
    ensures LooseAbove(k[h := k[Parent(h)]][Parent(h) := k[h]], Parent(h))
  {
    var f := Parent(h);
    var t := k[h := k[f]][f := k[h]];
    forall i | 0 < i < |t| && i != f ensures Under(t, i) {
      if i != h { assert Under(k, i); }
      if Parent(i) == h { assert Below(k, i); }
    }
    forall c | 0 < c < |t| && Parent(c) == f && 0 < f ensures Below(t, c) {
      assert Under(k, f);
      if c != h {
        assert Under(k, c);
        LaterTransitive(k[Parent(f)], k[f], k[c]);
      }
    }
  }

  lemma ClimbEnd(k: seq<Timeval>, h: int)
    requires 0 <= h < |k| && LooseAbove(k, h) && (h > 0 ==> !Later(k[Parent(h)], k[h]))
    ensures IsHeap(k)
  {
    forall i | 0 < i < |k| ensures Under(k, i) {}
  }

  lemma SinkStep(k: seq<Timeval>, h: int, c: int)
    requires 0 <= h < c < |k| && Parent(c) == h && LooseBelow(k, h) && Later(k[h], k[c])
    requires forall s :: 0 < s < |k| && Parent(s) == h ==> !Later(k[c], k[s])
    ensures LooseBelow(k[h := k[c]][c := k[h]], c)
  {
    var t := k[h := k[c]][c := k[h]];
    forall i | 0 < i < |t| && Parent(i) != c ensures Under(t, i) {
      if i == h {
        assert Below(k, c);
      } else if Parent(i) != h {
        assert Under(k, i);
      }
    }
    forall s | 0 < s < |t| && Parent(s) == c && 0 < c ensures Below(t, s) {
      assert Under(k, s);
    }
  }

  lemma SinkEnd(k: seq<Timeval>, h: int)
    requires 0 <= h < |k| && LooseBelow(k, h)
    requires forall c :: 0 < c < |k| && Parent(c) == h ==> !Later(k[h], k[c])
    ensures LooseAbove(k, h)
  {
    forall i | 0 < i < |k| && i != h ensures Under(k, i) {}
  }

  /** Putting any key into a slot of a heap leaves it loose above or loose below. */
  lemma ReplaceLoosens(k: seq<Timeval>, h: int, x: Timeval)
    requires 0 <= h < |k| && IsHeap(k)
    ensures h > 0 && Later(k[Parent(h)], x) ==> LooseAbove(k[h := x], h)
    ensures !(h > 0 && Later(k[Parent(h)], x)) ==> LooseBelow(k[h := x], h)
  {
    var t := k[h := x];
    forall c | 0 < c < |t| && Parent(c) == h && 0 < h ensures Below(t, c) {
      assert Under(k, c) && Under(k, h);
      LaterTransitive(k[Parent(h)], k[h], k[c]);
    }
    forall i | 0 < i < |t| && i != h && Parent(i) != h ensures Under(t, i) {
      assert Under(k, i);
    }
    if h > 0 && Later(k[Parent(h)], x) {
      forall i | 0 < i < |t| && i != h ensures Under(t, i) {
        if Parent(i) == h { assert Below(t, i); }
      }
    } else {
      forall i | 0 < i < |t| && Parent(i) != h ensures Under(t, i) {}
    }
  }

  /** The first key of a heap is a least one. */
  lemma {:induction false} TopIsLeast(k: seq<Timeval>, i: int)
    requires IsHeap(k) && 0 <= i < |k|
    ensures !Later(k[0], k[i])
    decreases i
  {
    if i > 0 {
      TopIsLeast(k, Parent(i));
      assert Under(k, i);
      LaterTransitive(k[0], k[Parent(i)], k[i]);
    }
  }

  lemma PrefixIsHeap(k: seq<Timeval>, n: int)
    requires IsHeap(k) && 0 <= n <= |k|
    ensures IsHeap(k[..n])
  {
    forall i | 0 < i < n ensures Under(k[..n], i) { assert Under(k, i); }
  }

  /** The same offset off every key: still a heap. */
  lemma ShiftedIsHeap(k: seq<Timeval>, off: Timeval)
    requires IsHeap(k) && Normal(off) && forall i :: 0 <= i < |k| ==> Normal(k[i])
    ensures IsHeap(seq(|k|, i requires 0 <= i < |k| => Minus(k[i], off)))
  {
    var t := seq(|k|, i requires 0 <= i < |k| => Minus(k[i], off));
    forall i | 0 < i < |t| ensures Under(t, i) {
      assert Under(k, i);
      MinusKeepsOrder(k[Parent(i)], k[i], off);
    }
  }

  // ----- the heap of events

  class Event {
    var timeout: Timeval
    var heapIdx: int
    // state of the event loop
    var inserted: bool
    var active: bool
    var timed: bool
    var timedOut: bool  // EV_TIMEOUT among the results of an active event
    const internal: bool
    const pri: nat
    const polled: bool  // EV_READ, EV_WRITE or EV_SIGNAL is asked for

    constructor (internal: bool, pri: nat, polled: bool)
      ensures heapIdx == -1 && !inserted && !active && !timed && !timedOut
      ensures this.internal == internal && this.pri == pri && this.polled == polled
    {
      timeout, heapIdx := Timeval(0, 0), -1;
      inserted, active, timed, timedOut := false, false, false, false;
      this.internal, this.pri, this.polled := internal, pri, polled;
    }
  }

  ghost function Elements(q: seq<Event>): set<Event> {
    set e | e in q
  }

  ghost function Keys(q: seq<Event>): (k: seq<Timeval>)
    reads Elements(q)`timeout
    ensures |k| == |q| && forall i :: 0 <= i < |q| ==> k[i] == q[i].timeout
  {
    if q == [] then []
    else
      var last := |q| - 1;
      assert forall e :: e in q[..last] ==> e in q;
      assert q[last] in q;
      Keys(q[..last]) + [q[last].timeout]
  }

  /** The sequence with two slots exchanged. */
  function Swap(q: seq<Event>, i: int, j: int): (r: seq<Event>)
    requires 0 <= i < |q| && 0 <= j < |q|
    ensures |r| == |q|
  {
    q[i := q[j]][j := q[i]]
  }

  lemma SwapKeeps(q: seq<Event>, i: int, j: int)
    requires 0 <= i < |q| && 0 <= j < |q| && i != j && Distinct(q)
    ensures Distinct(Swap(q, i, j)) && Elements(Swap(q, i, j)) == Elements(q)
    ensures Keys(Swap(q, i, j)) == Keys(q)[i := Keys(q)[j]][j := Keys(q)[i]]
  {
    hide Keys;
    var r := Swap(q, i, j);
    forall e | e in q ensures e in r {
      var k :| 0 <= k < |q| && q[k] == e;
      assert r[if k == i then j else if k == j then i else k] == e;
    }
    forall e | e in r ensures e in q {
      var k :| 0 <= k < |r| && r[k] == e;
    }
  }

  /** Every event but the one at `hole` knows its slot. */
  ghost predicate Placed(q: seq<Event>, hole: int)
    reads Elements(q)`heapIdx
  {
    forall i :: 0 <= i < |q| && i != hole ==> q[i].heapIdx == i
  }

  class Heap {
    var p: seq<Event>  // the slots in use so far; the first n hold the heap
    var n: nat
    var a: nat         // slots allocated

    constructor ()
      ensures Valid() && Contents() == [] && p == []
    {
      p, n, a := [], 0, 0;
    }

    ghost function Contents(): seq<Event>
      requires n <= |p|
      reads this
    {
      p[..n]
    }

    ghost predicate Valid()
      reads this, Elements(p)`timeout, Elements(p)`heapIdx
    {
      && n <= |p| <= a
      && Distinct(Contents()) && Placed(Contents(), -1) && IsHeap(Keys(Contents()))
    }

    /** The event in slot `from` moves into the hole; the hole moves to `from`. */
    method MoveInto(hole: int, from: int, e: Event, ghost r: seq<Event>)
      requires 0 <= hole < |r| <= |p| && 0 <= from < |r| && hole != from && r == p[..|r|][hole := e]
      requires Distinct(r) && Placed(r, hole)
      modifies this`p, Elements(r)`heapIdx
      ensures |p| == old(|p|) && p[|r|..] == old(p[|r|..])
      ensures Swap(r, hole, from) == p[..|r|][from := e] && Placed(Swap(r, hole, from), from)
      ensures Keys(Swap(r, hole, from)) == old(Keys(Swap(r, hole, from)))
    {
      assert p[from] == r[from] && r[from] in r;
      p := p[hole := p[from]];
      p[hole].heapIdx := hole;
    }

    method Settle(hole: int, e: Event, ghost r: seq<Event>)
      requires 0 <= hole < |r| <= |p| && r == p[..|r|][hole := e] && Placed(r, hole) && Distinct(r)
      modifies this`p, Elements(r)`heapIdx
      ensures |p| == old(|p|) && p[|r|..] == old(p[|r|..])
      ensures p[..|r|] == r && Placed(r, -1) && Keys(r) == old(Keys(r))
    {
      assert r[hole] in r;
      p := p[hole := e];
      e.heapIdx := hole;
      assert p[..|r|] == r;
    }

    /** Move a hole up until `e` fits. `q` is the sequence with `e` already in the hole. */
    method ShiftUp(start: nat, e: Event, ghost q: seq<Event>)
      requires start < |q| <= |p| && q == p[..|q|][start := e]
      requires Distinct(q) && Placed(q, start) && LooseAbove(Keys(q), start)
      modifies this`p, Elements(q)`heapIdx
      ensures |p| == old(|p|) && p[|q|..] == old(p[|q|..])
      ensures Distinct(p[..|q|]) && Elements(p[..|q|]) == Elements(q)
      ensures Placed(p[..|q|], -1) && IsHeap(Keys(p[..|q|]))
      ensures old(IsHeap(Keys(q))) ==> p[..|q|] == q
    {
      hide Keys; hide LooseAbove; hide IsHeap; hide Distinct; hide Swap; hide Placed; hide Elements;
      var hole := start;
      ghost var r := q;
      ghost var heap := IsHeap(Keys(q));
      if heap && hole > 0 { HeapAt(Keys(q), hole); assert p[Parent(hole)] == q[Parent(hole)]; }
      while hole > 0 && Later(p[Parent(hole)].timeout, e.timeout)
        invariant 0 <= hole < |q| <= |p| == old(|p|) && p[|q|..] == old(p[|q|..])
        invariant heap ==> r == q && !(hole > 0 && Later(p[Parent(hole)].timeout, e.timeout))
        invariant |r| == |q| && r == p[..|q|][hole := e]
        invariant Distinct(r) && Elements(r) == Elements(q) && Placed(r, hole) && LooseAbove(Keys(r), hole)
      {
        var up := Parent(hole);
        assert p[up] == r[up];
        ClimbStep(Keys(r), hole);
        SwapKeeps(r, hole, up);
        MoveInto(hole, up, e, r);
        r := Swap(r, hole, up);
        hole := up;
      }
      assert hole > 0 ==> p[Parent(hole)] == r[Parent(hole)];
      ClimbEnd(Keys(r), hole);
      Settle(hole, e, r);
    }

    /** Move a hole down past earlier children, then up until `e` fits. */
    method ShiftDown(start: nat, e: Event, ghost q: seq<Event>)
      requires start < |q| <= |p| && q == p[..|q|][start := e] && (n == |q| || (n + 1 == |q| && start == n))
      requires Distinct(q) && Placed(q, start) && LooseBelow(Keys(q), start)
      modifies this`p, Elements(q)`heapIdx
      ensures |p| == old(|p|) && p[|q|..] == old(p[|q|..])
      ensures Distinct(p[..|q|]) && Elements(p[..|q|]) == Elements(q)
      ensures Placed(p[..|q|], -1) && IsHeap(Keys(p[..|q|]))
      ensures old(IsHeap(Keys(q))) ==> p[..|q|] == q
    {
      hide Keys; hide LooseAbove; hide LooseBelow; hide IsHeap; hide Distinct; hide Swap; hide Placed; hide Elements;
      var hole := start;
      ghost var r := q;
      ghost var k := Keys(q);
      var minChild := 2 * (hole + 1);
      while minChild <= n
        invariant IsHeap(k) ==> r == q && hole == start
        invariant Keys(q) == k
        invariant 0 <= hole < |q| <= |p| == old(|p|) && p[|q|..] == old(p[|q|..]) && minChild == 2 * (hole + 1)
        invariant |r| == |q| && r == p[..|q|][hole := e] && (n == |q| || (n + 1 == |q| && hole == n))
        invariant Distinct(r) && Elements(r) == Elements(q) && Placed(r, hole) && LooseBelow(Keys(r), hole)
        decreases n - hole
      {
        assert minChild < n ==> p[minChild] == r[minChild];
        assert p[minChild - 1] == r[minChild - 1];
        if minChild == n || Later(p[minChild].timeout, p[minChild - 1].timeout) {
          minChild := minChild - 1;
        }
        LeastChild(Keys(r), hole, minChild);
        if !Later(e.timeout, p[minChild].timeout) { break; }
        if IsHeap(k) { HeapAt(k, minChild); }
        SinkStep(Keys(r), hole, minChild);
        SwapKeeps(r, hole, minChild);
        MoveInto(hole, minChild, e, r);
        r := Swap(r, hole, minChild);
        hole := minChild;
        minChild := 2 * (hole + 1);
      }
      SinkEnd(Keys(r), hole);
      ShiftUp(hole, e, r);
    }

    /** The event in the first slot has a least key. */
    lemma TopLeast()
      requires Valid() && n > 0
      ensures forall x :: x in Contents() ==> !Later(p[0].timeout, x.timeout)
    {
      forall x | x in Contents() ensures !Later(p[0].timeout, x.timeout) {
        var i :| 0 <= i < n && Contents()[i] == x;
        TopIsLeast(Keys(Contents()), i);
      }
    }

    method Top() returns (e: Event?)
      requires Valid()
      ensures e == null <==> n == 0
      ensures e != null ==> e == p[0] && forall x :: x in Contents() ==> !Later(e.timeout, x.timeout)
    {
      if n == 0 { return null; }
      TopLeast();
      e := p[0];
    }

    /** Make room for `k` slots; `granted` is the answer of the allocator. */
    method Reserve(k: nat, granted: bool) returns (ok: bool)
      requires Valid()
      modifies this`a
      ensures Valid() && (ok <==> old(a) >= k || granted)
      ensures a >= old(a) && (ok ==> a >= k) && (!ok || old(a) >= k ==> a == old(a))
      ensures ok && old(a) < k ==> a == k || (a >= k && a == if old(a) == 0 then 8 else 2 * old(a))
    {
      if a < k {
        var b := if a != 0 then 2 * a else 8;
        if b < k { b := k; }
        if !granted { return false; }
        a := b;
      }
      return true;
    }

    /** One more slot at the end, with a hole for `e` in it. */
    method AddSlot(e: Event) returns (ghost q: seq<Event>)
      requires Valid() && e !in Contents() && n < a
      modifies this`p, this`n
      ensures n == old(n) + 1 <= |p| <= a && q == old(Contents()) + [e] == p[..n][n - 1 := e]
      ensures Distinct(q) && Placed(q, n - 1) && LooseAbove(Keys(q), n - 1)
              && Elements(q) == Elements(old(Contents())) + {e}
    {
      hide LooseAbove; hide IsHeap; hide Elements; hide Keys; hide Distinct;
      ghost var c := Contents();
      AppendLoosens(Keys(c), e.timeout);
      AppendPlaced(c, e);
      q := c + [e];
      assert Keys(q) == Keys(c) + [e.timeout];
      ghost var k := Keys(q);
      if n == |p| { p := p + [e]; }
      n := n + 1;
      assert Keys(q) == k;
    }

    /** One slot fewer: the event of slot `i` is out, and the last one is bound for the hole. */
    method DropSlot(ghost i: nat) returns (ghost q: seq<Event>)
      requires Valid() && i < n
      modifies this`n
      ensures n == old(n) - 1 && n < |p| <= a && q == Fill(old(Contents()), i) == p[..|q|][i := p[n]]
      ensures n == |q| || (n + 1 == |q| && i == n)
      ensures Elements(q) <= Elements(old(Contents())) && p[i] in Elements(old(Contents())) && |q| <= |p|
      ensures Distinct(q) && Placed(q, i) && Distinct(old(Contents()))
      ensures i > 0 && Later(p[Parent(i)].timeout, p[n].timeout) ==> LooseAbove(Keys(q), i)
      ensures !(i > 0 && Later(p[Parent(i)].timeout, p[n].timeout)) ==> LooseBelow(Keys(q), i)
      ensures i == n ==> IsHeap(Keys(q))
    {
      hide LooseAbove; hide LooseBelow; hide IsHeap;
      ghost var c := Contents();
      Filled(c, i);
      q := Fill(c, i);
      ghost var k := Keys(q);
      n := n - 1;
      assert Keys(q) == k;
      assert q == p[..|q|][i := p[n]];
    }

    method Push(e: Event, granted: bool) returns (ok: bool)
      requires Valid() && e !in Contents()
      modifies this, Elements(Contents())`heapIdx, e`heapIdx
      ensures ok <==> old(a) > old(n) || granted
      ensures Valid() && n <= |p| <= a
      ensures ok ==> n == old(n) + 1 && Elements(Contents()) == Elements(old(Contents())) + {e}
      ensures !ok ==> n == old(n) && p == old(p) && a == old(a)
    {
      hide Keys; hide LooseAbove; hide IsHeap; hide Placed; hide Distinct; hide Elements;
      ok := Reserve(n + 1, granted);
      if !ok { return; }
      ghost var q := AddSlot(e);
      ShiftUp(n - 1, e, q);
    }

    method Pop() returns (e: Event?)
      requires Valid()
      modifies this`p, this`n, Elements(Contents())`heapIdx
      ensures Valid() && (e == null <==> old(n) == 0)
      ensures e == null ==> n == 0
      ensures e != null ==> e in old(Contents()) && e.heapIdx == -1 && n == old(n) - 1
      ensures e != null ==> Elements(Contents()) == Elements(old(Contents())) - {e}
      ensures e != null ==> forall x :: x in old(Contents()) ==> !Later(e.timeout, x.timeout)
    {
      e := Top();
      if e == null { return; }
      PopTop(e);
    }

    method PopTop(e: Event)
      requires Valid() && n > 0 && e == p[0]
      modifies this`p, this`n, Elements(Contents())`heapIdx
      ensures Valid() && e.heapIdx == -1 && n == old(n) - 1
      ensures Elements(Contents()) == Elements(old(Contents())) - {e}
    {
      hide Keys; hide LooseAbove; hide LooseBelow; hide IsHeap; hide Placed; hide Distinct; hide Elements;
      ghost var c := Contents();
      ghost var q := DropSlot(0);
      ShiftDown(0, p[n], q);
      Forget(c, 0, e);
    }

    /** `e` was in slot `i`; what is left below `n` is the heap without it. */
    method Forget(ghost c: seq<Event>, ghost i: int, e: Event)
      requires 0 <= i < |c| == n + 1 && c[i] == e && Distinct(c)
      requires |Fill(c, i)| <= |p| <= a
      requires var s := p[..|Fill(c, i)|];
               Distinct(s) && Elements(s) == Elements(Fill(c, i)) && Placed(s, -1) && IsHeap(Keys(s))
                 && (i == n ==> s == c)
      modifies e`heapIdx
      ensures Valid() && e.heapIdx == -1 && Elements(Contents()) == Elements(c) - {e}
    {
      hide Keys; hide IsHeap;
      ghost var s := p[..|Fill(c, i)|];
      PrefixIsHeap(Keys(s), n);
      assert s[..n] == p[..n];
      ghost var k := Keys(p[..n]);
      assert k == Keys(s)[..n];
      FillDrops(c, i, s);
      e.heapIdx := -1;
      assert Keys(p[..n]) == k;
    }

    method Erase(e: Event) returns (ok: bool)
      requires Valid() && (e.heapIdx == -1 || (0 <= e.heapIdx < n && p[e.heapIdx] == e))
      modifies this`p, this`n, Elements(Contents())`heapIdx
      ensures Valid() && (ok <==> old(e.heapIdx) != -1) && e.heapIdx == -1
      ensures n <= |p| <= a
      ensures ok ==> n == old(n) - 1 && Elements(Contents()) == Elements(old(Contents())) - {e}
      ensures !ok ==> n == old(n) && p == old(p)
    {
      if e.heapIdx == -1 { return false; }
      EraseAt(e.heapIdx, e);
      return true;
    }

    method EraseAt(i: nat, e: Event)
      requires Valid() && i < n && p[i] == e
      modifies this`p, this`n, Elements(Contents())`heapIdx
      ensures Valid() && e.heapIdx == -1 && n == old(n) - 1
      ensures Elements(Contents()) == Elements(old(Contents())) - {e}
    {
      hide Keys; hide LooseAbove; hide LooseBelow; hide IsHeap; hide Placed; hide Distinct; hide Elements;
      ghost var c := Contents();
      ghost var q := DropSlot(i);
      Reseat(i, p[n], q);
      Forget(c, i, e);
    }

    /** The key of an event outside the heap may change freely. */
    method SetTimeout(e: Event, t: Timeval)
      requires Valid() && e !in Contents()
      modifies e`timeout
      ensures Valid() && e.timeout == t
    {
      hide IsHeap;
      ghost var k := Keys(Contents());
      e.timeout := t;
      assert Keys(Contents()) == k;
    }

    /** Take the same offset off every key: order and slots stay as they are. */
    method ShiftClock(off: Timeval)
      requires Valid() && Normal(off) && forall e :: e in Contents() ==> Normal(e.timeout)
      modifies Elements(Contents())`timeout
      ensures Valid()
      ensures forall e :: e in Contents() ==> e.timeout == Minus(old(e.timeout), off) && Normal(e.timeout)
    {
      hide Keys; hide IsHeap; hide Minus; hide Normal;
      ghost var c := Contents();
      ghost var k := Keys(c);
      assert forall j :: 0 <= j < |k| ==> c[j] in c && Normal(k[j]);
      ShiftedIsHeap(k, off);
      var i := 0;
      while i < n
        invariant 0 <= i <= n && Contents() == c && Placed(c, -1)
        invariant forall j :: 0 <= j < n ==> c[j].timeout == if j < i then Minus(k[j], off) else k[j]
      {
        assert p[i] == c[i] && c[i] in c;
        p[i].timeout := Minus(p[i].timeout, off);
        i := i + 1;
      }
      assert Keys(c) == seq(|k|, j requires 0 <= j < |k| => Minus(k[j], off));
      forall e | e in c ensures Normal(e.timeout) && e.timeout == Minus(old(e.timeout), off) {
        var j :| 0 <= j < n && c[j] == e;
        assert k[j] == old(e.timeout);
        MinusKeepsOrder(k[j], k[j], off);
      }
    }

    /** The last event goes up from slot `i` if it is earlier than the parent there, else down. */
    method Reseat(i: nat, last: Event, ghost q: seq<Event>)
      requires i < |q| <= |p| && q == p[..|q|][i := last] && (n == |q| || (n + 1 == |q| && i == n))
      requires Distinct(q) && Placed(q, i)
      requires i > 0 && Later(p[Parent(i)].timeout, last.timeout) ==> LooseAbove(Keys(q), i)
      requires !(i > 0 && Later(p[Parent(i)].timeout, last.timeout)) ==> LooseBelow(Keys(q), i)
      modifies this`p, Elements(q)`heapIdx
      ensures |p| == old(|p|) && p[|q|..] == old(p[|q|..])
      ensures Distinct(p[..|q|]) && Elements(p[..|q|]) == Elements(q)
      ensures Placed(p[..|q|], -1) && IsHeap(Keys(p[..|q|]))
      ensures old(IsHeap(Keys(q))) ==> p[..|q|] == q
    {
      hide Keys; hide LooseAbove; hide LooseBelow; hide IsHeap; hide Placed; hide Distinct; hide Elements;
      if i > 0 && Later(p[Parent(i)].timeout, last.timeout) {
        ShiftUp(i, last, q);
      } else {
        ShiftDown(i, last, q);
      }
    }
  }

  lemma FillDrops(c: seq<Event>, i: int, s: seq<Event>)
    requires 0 <= i < |c| && Distinct(c) && Distinct(s) && |s| == |Fill(c, i)| && Elements(s) == Elements(Fill(c, i))
    requires i == |c| - 1 ==> s == c
    ensures var t := s[..|c| - 1]; Distinct(t) && c[i] !in t && Elements(t) == Elements(c) - {c[i]}
  {
    var m := |c| - 1;
    var q := Fill(c, i);
    var t := s[..m];
    if i < m {
      assert t == s;
      forall x | x in c && x != c[i] ensures x in q {
        var j :| 0 <= j < |c| && c[j] == x;
        assert q[if j == m then i else j] == x;
      }
      forall x | x in q ensures x in c && x != c[i] {
        var j :| 0 <= j < |q| && q[j] == x;
        assert j != i ==> c[j] == x;
      }
      forall x | x in Elements(t) ensures x in Elements(c) - {c[i]} { assert x in Elements(q); }
      forall x | x in Elements(c) - {c[i]} ensures x in Elements(t) { assert x in q && x in Elements(q); }
      assert c[i] !in Elements(q);
    } else {
      forall x | x in c && x != c[i] ensures x in t {
        var j :| 0 <= j < |c| && c[j] == x;
        assert t[j] == x;
      }
    }
  }

  lemma HeapAt(k: seq<Timeval>, i: int)
    requires IsHeap(k) && 0 < i < |k|
    ensures !Later(k[Parent(i)], k[i])
  {
    assert Under(k, i);
  }

  /** The heap with its last event moved into slot `i`; the whole of it when that is slot `i`. */
  function Fill(c: seq<Event>, i: int): (q: seq<Event>)
    requires 0 <= i < |c|
  {
    var m := |c| - 1;
    if i < m then c[..m][i := c[m]] else c
  }

  lemma Filled(c: seq<Event>, i: int)
    requires 0 <= i < |c| && Distinct(c) && Placed(c, -1) && IsHeap(Keys(c))
    ensures var q := Fill(c, i);
            var x := c[|c| - 1].timeout;
            && Distinct(q) && Placed(q, i) && i < |q|
            && (i > 0 && Later(c[Parent(i)].timeout, x) ==> LooseAbove(Keys(q), i))
            && (!(i > 0 && Later(c[Parent(i)].timeout, x)) ==> LooseBelow(Keys(q), i))
  {
    hide Keys; hide LooseAbove; hide LooseBelow;
    hide IsHeap;
    FillPlaced(c, i);
    if i < |c| - 1 {
      FilledLoose(c, i);
    } else {
      hide Placed; hide Distinct;
      assert Keys(c)[i := c[i].timeout] == Keys(c);
      ReplaceLoosens(Keys(c), i, c[i].timeout);
      if i > 0 { HeapAt(Keys(c), i); }
    }
  }

  lemma FillPlaced(c: seq<Event>, i: int)
    requires 0 <= i < |c| && Distinct(c) && Placed(c, -1)
    ensures Distinct(Fill(c, i)) && Placed(Fill(c, i), i) && i < |Fill(c, i)|
  {}

  lemma {:induction false} FilledLoose(c: seq<Event>, i: int)
    requires 0 <= i < |c| - 1 && IsHeap(Keys(c))
    ensures var q := Fill(c, i);
            var x := c[|c| - 1].timeout;
            && (i > 0 && Later(c[Parent(i)].timeout, x) ==> LooseAbove(Keys(q), i))
            && (!(i > 0 && Later(c[Parent(i)].timeout, x)) ==> LooseBelow(Keys(q), i))
  {
    hide *;
    KeysFill(c, i);
    KeysMean(c);
    ParentBefore(i);
    FilledKeys(Keys(c), i);
  }

  lemma ParentBefore(i: nat)
    ensures i > 0 ==> 0 <= Parent(i) < i
  {}

  lemma KeysMean(c: seq<Event>)
    ensures |Keys(c)| == |c| && forall j :: 0 <= j < |c| ==> Keys(c)[j] == c[j].timeout
  {}

  lemma FilledKeys(k: seq<Timeval>, i: nat)
    requires i < |k| - 1 && IsHeap(k)
    ensures (i > 0 ==> Parent(i) < |k|)
    ensures var x := k[|k| - 1];
            var t := k[..|k| - 1][i := x];
            && (i > 0 && Later(k[Parent(i)], x) ==> LooseAbove(t, i))
            && (!(i > 0 && Later(k[Parent(i)], x)) ==> LooseBelow(t, i))
  {
    hide LooseAbove; hide LooseBelow; hide IsHeap; hide Later;
    PrefixIsHeap(k, |k| - 1);
    ReplaceLoosens(k[..|k| - 1], i, k[|k| - 1]);
  }

  lemma KeysFill(c: seq<Event>, i: int)
    requires 0 <= i < |c| - 1
    ensures Keys(Fill(c, i)) == Keys(c)[..|c| - 1][i := c[|c| - 1].timeout]
  {
    hide Keys;
    var m := |c| - 1;
    var q := Fill(c, i);
    var k := Keys(c)[..m][i := c[m].timeout];
    assert |q| == m;
    forall j | 0 <= j < m ensures Keys(q)[j] == k[j] {
      assert q[j] == if j == i then c[m] else c[j];
    }
  }

  lemma AppendPlaced(c: seq<Event>, e: Event)
    requires Distinct(c) && Placed(c, -1) && e !in c
    ensures Distinct(c + [e]) && Placed(c + [e], |c|) && Elements(c + [e]) == Elements(c) + {e}
  {}

  lemma AppendLoosens(k: seq<Timeval>, x: Timeval)
    requires IsHeap(k)
    ensures LooseAbove(k + [x], |k|)
  {
    forall i | 0 < i < |k| ensures Under(k + [x], i) { assert Under(k, i); }
  }

  lemma LeastChild(k: seq<Timeval>, h: int, c: int)
    requires 0 <= h && (c == 2 * h + 1 || c == 2 * h + 2) && c < |k|
    requires c == 2 * h + 1 && 2 * h + 2 < |k| ==> Later(k[2 * h + 2], k[c])
    requires c == 2 * h + 2 ==> !Later(k[c], k[2 * h + 1])
    ensures Parent(c) == h && forall s :: 0 < s < |k| && Parent(s) == h ==> !Later(k[c], k[s])
  {
    forall s | 0 < s < |k| && Parent(s) == h ensures s == 2 * h + 1 || s == 2 * h + 2 {}
  }
}
