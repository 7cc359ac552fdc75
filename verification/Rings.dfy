/** The circular doubly linked lists of the resolver. A ring is described by the sequence of its
    members from the head on. */
module Rings {
  import opened Lists

  class Server {
    var next: Server?
    var address: int
    var up: bool        // `state`: thought to be working
    var choked: bool    // its socket had no room

    constructor (address: int)
      ensures this.address == address && up && !choked && next == null
    {
      this.address, up, choked, next := address, true, false, null;
    }
  }

  class Request {
    var next: Request?
    var prev: Request?
    var ns: Server?
    var txCount: nat
    var reissueCount: nat
    var transmitMe: bool

    constructor ()
      ensures next == null && prev == null && ns == null && txCount == 0 && !transmitMe
    {
      next, prev, ns, txCount, reissueCount, transmitMe := null, null, null, 0, 0, false;
    }
  }

  ghost function Members<T>(q: seq<T>): set<T> { set x | x in q }

  function Succ(i: nat, n: nat): nat { if i + 1 == n then 0 else i + 1 }

  function Pred(i: nat, n: nat): int { if i == 0 then n - 1 else i - 1 }

  /** The members point at each other in the order of `q`, and round from its end to its start. */
  ghost predicate Linked(q: seq<Request>)
    reads Members(q)`next, Members(q)`prev
  {
    && Distinct(q)
    && forall i :: 0 <= i < |q| ==> q[i].next == q[Succ(i, |q|)] && q[i].prev == q[Pred(i, |q|)]
  }

  /** `q` is a ring that starts at `head`. */
  ghost predicate Ring(q: seq<Request>, head: Request?)
    reads Members(q)`next, Members(q)`prev
  {
    Linked(q) && head == if q == [] then null else q[0]
  }

  function Turned<T>(q: seq<T>, k: nat): (r: seq<T>)
    requires k <= |q|
    ensures |r| == |q|
  {
    q[k..] + q[..k]
  }

  lemma TurnedIn<T>(q: seq<T>, k: nat)
    requires k <= |q|
    ensures Members(Turned(q, k)) == Members(q)
    ensures k < |q| ==> Turned(q, k)[0] == q[k]
  {
    assert q == q[..k] + q[k..];
  }

  lemma TurnOnce<T>(q: seq<T>, k: nat)
    requires k < |q|
    ensures Turned(q, k + 1) == Turned(Turned(q, k), 1)
  {}

  /** A ring may be read from its second member. */
  lemma TurnLinks(q: seq<Request>)
    requires Linked(q) && q != []
    ensures Linked(Turned(q, 1))
  {
    var r, n := Turned(q, 1), |q|;
    forall i | 0 <= i < n ensures r[i].next == r[Succ(i, n)] && r[i].prev == r[Pred(i, n)] {
      assert r[i] == q[Succ(i, n)];
    }
  }

  /** A ring may be read from any member. */
  lemma {:induction false} TurnedLinks(q: seq<Request>, k: nat)
    requires Linked(q) && k <= |q|
    ensures Linked(Turned(q, k))
  {
    hide Linked;
    if k == 0 {
      assert Turned(q, k) == q;
    } else {
      TurnedLinks(q, k - 1);
      TurnOnce(q, k - 1);
      TurnLinks(Turned(q, k - 1));
    }
  }

  /** Insert before the head, which is the end of the list. */
  method Insert(req: Request, head: Request?, ghost q: seq<Request>) returns (newHead: Request?)
    requires Ring(q, head) && req !in q
    modifies req`next, req`prev, Members(q)`next, Members(q)`prev
    ensures Ring(q + [req], newHead)
  {
    if head == null {
      req.next, req.prev := req, req;
      return req;
    }
    ghost var n := |q|;
    assert q[n - 1].next == q[0] && q[0].prev == q[n - 1];
    req.prev := head.prev;
    req.prev.next := req;
    req.next := head;
    head.prev := req;
    newHead := head;
    ghost var r := q + [req];
    forall i | 0 <= i < |r| ensures r[i].next == r[Succ(i, |r|)] && r[i].prev == r[Pred(i, |r|)] {
      if i < n - 1 { assert q[i + 1] != q[0]; }
    }
  }

  /** Join the neighbours of the first of several members. */
  method Bypass(req: Request, ghost q: seq<Request>)
    requires Linked(q) && |q| > 1 && q[0] == req
    modifies Members(q)`next, Members(q)`prev
    ensures Linked(q[1..]) && req.next == old(req.next) == q[1]
  {
    ghost var n := |q|;
    assert q[0].next == q[1] && q[0].prev == q[n - 1];
    req.next.prev := req.prev;
    req.prev.next := req.next;
    ghost var r := q[1..];
    forall i | 0 <= i < |r| ensures r[i].next == r[Succ(i, |r|)] && r[i].prev == r[Pred(i, |r|)] {
      assert r[i] == q[i + 1] && q[i + 1] != q[0];
    }
  }

  /** Take a member out. */
  method Unlink(req: Request, head: Request?, ghost q: seq<Request>, ghost k: nat) returns (newHead: Request?)
    requires Ring(q, head) && k < |q| && q[k] == req
    modifies Members(q)`next, Members(q)`prev
    ensures Ring(q[..k] + q[k + 1..], newHead)
  {
    hide Linked; hide Turned; hide Distinct;
    Neighbours(q, k);
    if req.next == req {
      NoneLeft();
      assert q[..k] + q[k + 1..] == [];
      return null;
    }
    newHead := if head == req then req.next else head;
    ghost var t := Turned(q, k);
    TurnedLinks(q, k);
    TurnedIn(q, k);
    TurnPast(q, k);
    Bypass(req, t);
    TurnedLinks(t[1..], |q| - 1 - k);
  }

  lemma NoneLeft()
    ensures Linked([])
  {}

  /** Turn to a member, drop it, and turn on to the start. */
  lemma TurnPast<T>(q: seq<T>, k: nat)
    requires k < |q|
    ensures Turned(q, k)[0] == q[k]
    ensures Turned(Turned(q, k)[1..], |q| - 1 - k) == q[..k] + q[k + 1..]
  {}

  lemma Neighbours(q: seq<Request>, k: nat)
    requires Linked(q) && k < |q|
    ensures q[k].next == q[Succ(k, |q|)] && q[k].prev == q[Pred(k, |q|)]
    ensures q[k].next == q[k] <==> |q| == 1
    ensures k > 0 ==> q[k] != q[0]
  {}

  /** Start the list one member earlier. */
  method StepBack(head: Request, ghost q: seq<Request>) returns (newHead: Request?)
    requires Ring(q, head)
    ensures Ring(Turned(q, |q| - 1), newHead)
  {
    Neighbours(q, 0);
    TurnedLinks(q, |q| - 1);
    hide Linked;
    newHead := head.prev;
  }

  // ----- servers

  ghost predicate ServerRing(q: seq<Server>, head: Server?)
    reads Members(q)`next
  {
    && Distinct(q)
    && head == (if q == [] then null else q[0])
    && forall i :: 0 <= i < |q| ==> q[i].next == q[Succ(i, |q|)]
  }

  lemma HeadServer(q: seq<Server>, head: Server?)
    requires ServerRing(q, head)
    ensures head == if q == [] then null else q[0]
    ensures forall i :: 0 <= i < |q| ==> q[i].next == q[Succ(i, |q|)]
    ensures forall i :: 0 < i < |q| ==> q[i] != q[0]
  {}

  lemma TurnServers(q: seq<Server>, head: Server)
    requires ServerRing(q, head)
    ensures q != [] && ServerRing(Turned(q, 1), head.next)
  {
    var r, n := Turned(q, 1), |q|;
    assert q[0].next == q[Succ(0, n)];
    forall i | 0 <= i < n ensures r[i].next == r[Succ(i, n)] {
      assert r[i] == q[Succ(i, n)];
    }
  }

  /** A new server goes after the head. */
  method InsertServer(ns: Server, head: Server?, ghost q: seq<Server>) returns (newHead: Server?)
    requires ServerRing(q, head) && ns !in q
    modifies ns`next, Members(q)`next
    ensures ServerRing(if q == [] then [ns] else [q[0], ns] + q[1..], newHead)
  {
    if head == null {
      ns.next := ns;
      return ns;
    }
    assert q[0].next == q[Succ(0, |q|)];
    ns.next := head.next;
    head.next := ns;
    newHead := head;
    ghost var r := [q[0], ns] + q[1..];
    forall i | 0 <= i < |r| ensures r[i].next == r[Succ(i, |r|)] {
      if i > 1 { assert r[i] == q[i - 1]; }
    }
  }
}
