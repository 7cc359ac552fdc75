/** The request lists and the nameserver ring of the resolver: requests in flight, requests that
    wait, and the round-robin choice of a server. */
module Resolver {
  import opened Lists
  import opened Rings

  /** What came of handing a packet to a socket. */
  datatype Sent = Done | Again | Broken

  function Reversed<T>(q: seq<T>): seq<T> {
    if q == [] then [] else [q[|q| - 1]] + Reversed(q[..|q| - 1])
  }

  /** The servers that are thought to be working. */
  ghost function Ups(servers: seq<Server>): set<Server>
    reads Members(servers)`up
  {
    set s | s in servers && s.up
  }

  /** The first working server from the head on. */
  ghost predicate FirstUp(servers: seq<Server>, k: int)
    reads Members(servers)`up
  {
    0 <= k < |servers| && servers[k].up && forall j :: 0 <= j < k ==> !servers[j].up
  }

  /** How many waiting requests a pump takes in. */
  function Pumped(inflight: int, max: int, waiting: nat): nat {
    if inflight >= max then 0 else if max - inflight < waiting then max - inflight else waiting
  }

  /** The servers, in a ring that turns as they are chosen. */
  class Pool {
    var head: Server?
    var good: int             // how many are thought to be working
    ghost var servers: seq<Server>

    ghost predicate Valid()
      reads this`head, this`good, this`servers, Members(servers)`next, Members(servers)`up
    {
      ServerRing(servers, head) && good == |Ups(servers)|
    }

    constructor ()
      ensures Valid() && servers == []
    {
      head, good, servers := null, 0, [];
    }

    /** No socket is known to be full. */
    ghost predicate Open()
      reads this`servers, Members(servers)`choked
    {
      forall s :: s in Members(servers) ==> !s.choked
    }

    /** The next working server in turn, or the next one at all when none works. */
    method Pick() returns (picked: Server?)
      requires Valid()
      modifies this`head, this`servers
      ensures Valid() && Members(servers) == old(Members(servers))
      ensures if Members(servers) == {} then picked == null else picked != null && picked in Members(servers)
      ensures good > 0 ==> picked != null && picked.up
      ensures good > 0 ==> exists k ::
                FirstUp(old(servers), k) && picked == old(servers)[k] && servers == Turned(old(servers), k + 1)
      ensures good == 0 && picked != null ==> servers == Turned(old(servers), 1) && picked == servers[0]
    {
      hide ServerRing; hide Ups; hide Turned;
      HeadServer(servers, head);
      if head == null {
        EmptyUps(servers);
        return null;
      }
      assert servers[0] in Members(servers);
      ghost var q := servers;
      if good == 0 {
        Advance();
        return head;
      }
      ghost var k := 0;
      var started := head;
      NoTurn(q);
      while !head.up
        invariant 0 <= k < |q| && servers == Turned(q, k) && Valid() && good > 0
        invariant head == q[k] && Members(servers) == Members(q)
        invariant forall j :: 0 <= j < k ==> !q[j].up
        decreases |q| - k
      {
        NoWrap(q, k);
        TurnOnce(q, k);
        Advance();
        k := k + 1;
        TurnedIn(q, k);
        if head == started { assert false; }
      }
      picked := head;
      TurnOnce(q, k);
      Advance();
      assert FirstUp(q, k);
    }

    /** Move the head on. */
    method Advance()
      requires Valid() && head != null
      modifies this`head, this`servers
      ensures Valid() && servers == Turned(old(servers), 1) && head == servers[0]
      ensures Members(servers) == old(Members(servers)) && |servers| == |old(servers)| > 0
    {
      TurnServers(servers, head);
      TurnedIn(servers, 1);
      ghost var u := Ups(servers);
      head := head.next;
      servers := Turned(servers, 1);
      assert Ups(servers) == u by {
        forall s | s in u ensures s in Ups(servers) { assert s in Members(servers); }
      }
    }

    /** While a server works, the search for it stops before it is back at its start. */
    lemma NoWrap(q: seq<Server>, k: nat)
      requires Valid() && good > 0 && k < |q| && servers == Turned(q, k)
      requires forall j :: 0 <= j <= k ==> !q[j].up
      ensures k + 1 < |q|
    {
      var s := SomeElement(Ups(servers));
      TurnedIn(q, k);
      assert s in Members(q);
      var j :| 0 <= j < |q| && q[j] == s;
    }

    lemma HeadMeans()
      requires Valid()
      ensures head == null <==> Members(servers) == {}
    {
      if servers != [] { assert servers[0] in Members(servers); }
    }

    lemma HeadIs()
      requires Valid()
      ensures head == null <==> servers == []
    {}

    method MarkDown(ns: Server)
      requires Valid() && ns in servers && ns.up
      modifies this`good, ns`up
      ensures Valid() && !ns.up && good == old(good) - 1
    {
      ghost var u := Ups(servers);
      ns.up := false;
      good := good - 1;
      assert Ups(servers) == u - {ns};
    }

    method MarkUp(ns: Server)
      requires Valid() && ns in servers
      modifies this`good, ns`up
      ensures Valid() && ns.up && good == old(good) + if old(ns.up) then 0 else 1
    {
      if ns.up { return; }
      ghost var u := Ups(servers);
      ns.up := true;
      good := good + 1;
      assert Ups(servers) == u + {ns};
    }

    /** A new server starts out as working; `ready` tells whether its socket could be set up. */
    method Add(address: int, ready: bool) returns (ns: Server?)
      requires Valid()
      modifies this, Members(servers)`next
      ensures Valid() && (ns == null ==> servers == old(servers) && good == old(good))
      ensures ns == null <==> !ready || exists s :: s in old(servers) && s.address == address
      ensures ns != null ==> fresh(ns) && ns.up && ns.address == address && good == old(good) + 1
                             && servers == if old(servers) == [] then [ns]
                                else [old(servers)[0], ns] + old(servers)[1..]
    {
      var known := Known(address);
      if known || !ready { return null; }
      ns := new Server(address);
      Join(ns);
    }

    method Join(ns: Server)
      requires Valid() && ns !in servers && ns.up
      modifies this, ns`next, Members(servers)`next
      ensures Valid() && good == old(good) + 1
      ensures servers == if old(servers) == [] then [ns] else [old(servers)[0], ns] + old(servers)[1..]
    {
      hide ServerRing; hide Distinct; hide Ups;
      ghost var q := servers;
      head := InsertServer(ns, head, servers);
      servers := if q == [] then [ns] else [q[0], ns] + q[1..];
      good := good + 1;
      Inserted(q, ns);
      assert Ups(q) == old(Ups(servers));
      UpsGrow(q, servers, ns);
    }

    lemma UpsGrow(q: seq<Server>, r: seq<Server>, ns: Server)
      requires (forall s :: s in r <==> s in q || s == ns) && ns.up && ns !in q
      ensures |Ups(r)| == |Ups(q)| + 1
    {
      assert Ups(r) == Ups(q) + {ns};
    }

    /** Whether a server with this address is in the ring. */
    method Known(address: int) returns (b: bool)
      requires Valid()
      ensures b <==> exists s :: s in servers && s.address == address
    {
      hide ServerRing; hide Ups;
      HeadServer(servers, head);
      if head == null { return false; }
      var s := head;
      ghost var i := 0;
      while true
        invariant 0 <= i < |servers| && s == servers[i]
        invariant forall j :: 0 <= j < i ==> servers[j].address != address
        decreases |servers| - i
      {
        if s.address == address { return true; }
        s := s.next;
        if s == head { return false; }
        i := i + 1;
      }
    }

    /** Forget every server. */
    method Clear()
      requires Valid()
      modifies this
      ensures Valid() && servers == [] && head == null && good == 0
    {
      head, good, servers := null, 0, [];
    }

    lemma EmptyValid()
      requires servers == [] && head == null && good == 0
      ensures Valid()
    {}
  }

  /** Requests in flight and requests that wait. */
  class Queues {
    const pool: Pool
    var reqHead: Request?
    var waitHead: Request?
    var inflight: int
    var waiting: int
    var max: int
    ghost var flying: seq<Request>
    ghost var queued: seq<Request>

    /** Two disjoint rings with their lengths counted. */
    ghost predicate Rings()
      reads this`reqHead, this`waitHead, this`inflight, this`waiting, this`flying, this`queued
      reads Members(flying)`next, Members(flying)`prev, Members(queued)`next, Members(queued)`prev
    {
      && Ring(flying, reqHead) && Ring(queued, waitHead)
      && inflight == |flying| && waiting == |queued|
      && Members(flying) !! Members(queued)
    }

    /** Every request in flight is assigned to a server of the pool. */
    ghost predicate Assigned()
      reads this`flying, pool`servers, Members(flying)`ns
    {
      forall r :: r in flying ==> r.ns != null && r.ns in Members(pool.servers)
    }

    ghost predicate Valid()
      reads this, Members(flying), Members(queued), pool, Members(pool.servers)
    {
      Rings() && pool.Valid() && Assigned()
    }

    constructor (max: int)
      ensures Valid() && flying == [] && queued == [] && this.max == max && fresh(pool) && pool.servers == []
    {
      pool := new Pool();
      reqHead, waitHead, inflight, waiting := null, null, 0, 0;
      this.max := max;
      flying, queued := [], [];
    }

    /** Give a request that `ns` holds and that was not sent yet to a working server. */
    method ReassignOne(req: Request, ns: Server)
      requires Valid() && req in flying && !ns.up && pool.good > 0
      modifies pool`head, pool`servers, req`ns
      ensures Valid() && Members(pool.servers) == old(Members(pool.servers))
      ensures req.txCount == 0 ==> req.ns != ns
      ensures req.txCount > 0 || old(req.ns) != ns ==> req.ns == old(req.ns)
    {
      hide Pool.Valid; hide Linked;
      if req.txCount == 0 && req.ns == ns {
        var picked := pool.Pick();
        req.ns := picked;
      }
    }

    /** The same for every request in flight. */
    method Reassign(ns: Server)
      requires Valid() && !ns.up && pool.good > 0
      modifies pool`head, pool`servers, Members(flying)`ns
      ensures Valid() && Members(pool.servers) == old(Members(pool.servers))
      ensures forall r :: r in flying && r.txCount == 0 ==> r.ns != ns
      ensures forall r :: r in flying && (r.txCount > 0 || old(r.ns) != ns) ==> r.ns == old(r.ns)
    {
      hide Linked; hide Pool.Valid; hide Distinct; hide Queues.Rings; hide Queues.Assigned;
      FlyingLinks();
      var req := reqHead;
      if req == null { return; }
      ghost var i := 0;
      while true
        invariant 0 <= i < |flying| && req == flying[i]
        invariant Valid() && Members(pool.servers) == old(Members(pool.servers))
        invariant forall j :: 0 <= j < i && flying[j].txCount == 0 ==> flying[j].ns != ns
        invariant forall j :: 0 <= j < i && (flying[j].txCount > 0 || old(flying[j].ns) != ns) ==>
                    flying[j].ns == old(flying[j].ns)
        invariant forall j :: i <= j < |flying| ==> flying[j].ns == old(flying[j].ns)
        decreases |flying| - i
      {
        ReassignOne(req, ns);
        FlyingLinks();
        req := req.next;
        if req == reqHead { break; }
        i := i + 1;
      }
      assert i == |flying| - 1;
    }

    /** A server failed. Unless it was the last one that worked, requests that it holds and that
        were not sent yet move on. */
    method NameserverFailed(ns: Server)
      requires Valid() && ns in Members(pool.servers)
      modifies pool, ns`up, Members(flying)`ns
      ensures Valid() && !ns.up && Members(pool.servers) == old(Members(pool.servers))
      ensures pool.good == old(pool.good) - if old(ns.up) then 1 else 0
      ensures old(ns.up) && pool.good > 0 ==> forall r :: r in flying && r.txCount == 0 ==> r.ns != ns
      ensures forall r :: r in flying && (r.txCount > 0 || old(r.ns) != ns) ==> r.ns == old(r.ns)
    {
      if !ns.up { return; }
      hide Queues.Rings; hide Pool.Valid;
      pool.MarkDown(ns);
      if pool.good == 0 {
        return;
      }
      Reassign(ns);
    }

    method Mark(req: Request, due: bool, count: nat)
      requires Valid() && req in flying
      modifies req`transmitMe, req`txCount
      ensures Valid() && req.transmitMe == due && req.txCount == count
    {
      hide Queues.Rings; hide Pool.Valid; hide Queues.Assigned;
      req.transmitMe, req.txCount := due, count;
    }

    method Choke(ns: Server)
      requires Valid()
      modifies ns`choked
      ensures Valid() && ns.choked
    {
      hide Queues.Rings; hide Pool.Valid; hide Queues.Assigned;
      ns.choked := true;
    }

    /** Send a request to its server. */
    method Transmit(req: Request, sent: Sent)
      requires Valid() && req in flying
      modifies pool, Members(pool.servers)`up, Members(pool.servers)`choked, Members(flying)`ns
      modifies req`transmitMe, req`txCount
      ensures Valid() && Members(pool.servers) == old(Members(pool.servers))
      ensures req.transmitMe <==> old(req.ns.choked) || sent.Again?
      ensures !old(req.ns.choked) && sent.Again? ==> old(req.ns).choked
      ensures !old(req.ns.choked) && sent.Broken? ==> !old(req.ns).up
      ensures !sent.Again? ==> forall s :: s in Members(pool.servers) ==> s.choked == old(s.choked)
      ensures req.txCount == old(req.txCount) + if req.transmitMe then 0 else 1
    {
      hide Queues.Rings; hide Pool.Valid;
      Mark(req, true, req.txCount);
      if req.ns.choked { return; }
      if sent.Again? {
        Choke(req.ns);
        return;
      }
      if sent.Broken? { NameserverFailed(req.ns); }
      Mark(req, false, req.txCount + 1);
    }

    /** Send every request that is marked as due. */
    method TransmitDue(sends: nat -> Sent)
      requires Valid()
      modifies pool, Members(pool.servers)`up, Members(pool.servers)`choked
      modifies Members(flying)`ns, Members(flying)`transmitMe, Members(flying)`txCount
      ensures Valid() && Members(pool.servers) == old(Members(pool.servers))
      ensures forall r :: r in flying ==> Progressed(r, old(r.transmitMe), old(r.txCount))
      ensures old(pool.Open()) && (forall i :: !sends(i).Again?) ==>
                pool.Open() && forall r :: r in flying ==> !r.transmitMe
    {
      hide Linked; hide Pool.Valid; hide Distinct; hide Queues.Rings; hide Queues.Assigned; hide Pool.Open;
      hide Progressed; hide Halfway; hide NoneDueBelow;
      FlyingLinks();
      var req := reqHead;
      if req == null { return; }
      ghost var servers := Members(pool.servers);
      ghost var due: map<Request, bool> := map r: Request | r in flying :: r.transmitMe;
      ghost var tx: map<Request, int> := map r: Request | r in flying :: r.txCount;
      ghost var open := pool.Open() && forall i :: !sends(i).Again?;
      var i := 0;
      HalfwayStart(due, tx);
      while true
        invariant 0 <= i < |flying| && req == flying[i]
        invariant Valid() && Members(pool.servers) == servers
        invariant Halfway(i, due, tx) && (open ==> pool.Open() && NoneDueBelow(i))
        decreases |flying| - i
      {
        SendAt(req, i, sends(i), due, tx);
        FlyingLinks();
        req := req.next;
        if req == reqHead { break; }
        i := i + 1;
      }
      HalfwayEnd(due, tx);
    }

    /** The first `i` requests in flight had their turn, the others not yet. */
    ghost predicate Halfway(i: nat, due: map<Request, bool>, tx: map<Request, int>)
      requires i <= |flying|
      reads this`flying, Members(flying)`transmitMe, Members(flying)`txCount
    {
      && (forall r :: r in flying ==> r in due && r in tx)
      && (forall j :: 0 <= j < i ==> Progressed(flying[j], due[flying[j]], tx[flying[j]]))
      && (forall j :: i <= j < |flying| ==>
            flying[j].transmitMe == due[flying[j]] && flying[j].txCount == tx[flying[j]])
    }

    ghost predicate NoneDueBelow(i: nat)
      requires i <= |flying|
      reads this`flying, Members(flying)`transmitMe
    {
      forall j :: 0 <= j < i ==> !flying[j].transmitMe
    }

    lemma HalfwayStart(due: map<Request, bool>, tx: map<Request, int>)
      requires forall r :: r in flying ==> r in due && r in tx && due[r] == r.transmitMe && tx[r] == r.txCount
      ensures Halfway(0, due, tx) && NoneDueBelow(0)
    {}

    lemma HalfwayEnd(due: map<Request, bool>, tx: map<Request, int>)
      requires Halfway(|flying|, due, tx)
      ensures forall r :: r in flying ==> r in due && r in tx && Progressed(r, due[r], tx[r])
      ensures NoneDueBelow(|flying|) ==> forall r :: r in flying ==> !r.transmitMe
    {
      hide Progressed;
    }

    method SendAt(req: Request, ghost i: nat, sent: Sent, ghost due: map<Request, bool>, ghost tx: map<Request, int>)
      requires Valid() && i < |flying| && req == flying[i] && Halfway(i, due, tx)
      modifies pool, Members(pool.servers)`up, Members(pool.servers)`choked
      modifies Members(flying)`ns, Members(flying)`transmitMe, Members(flying)`txCount
      ensures Valid() && Members(pool.servers) == old(Members(pool.servers)) && Halfway(i + 1, due, tx)
      ensures old(pool.Open()) && !sent.Again? && old(NoneDueBelow(i)) ==> pool.Open() && NoneDueBelow(i + 1)
    {
      hide Linked; hide Pool.Valid; hide Distinct; hide Queues.Rings; hide Queues.Assigned; hide Pool.Open;
      hide Progressed;
      FlyingLinks();
      assert req in Members(flying);
      SendIfDue(req, sent);
    }

    /** A request is sent once, if it is due, or stays due. */
    ghost predicate Progressed(r: Request, due: bool, count: int)
      reads r`transmitMe, r`txCount
    {
      (r.transmitMe ==> due) && r.txCount == count + if due && !r.transmitMe then 1 else 0
    }

    method SendIfDue(req: Request, sent: Sent)
      requires Valid() && req in flying
      modifies pool, Members(pool.servers)`up, Members(pool.servers)`choked, Members(flying)`ns
      modifies req`transmitMe, req`txCount
      ensures Valid() && Members(pool.servers) == old(Members(pool.servers))
      ensures Progressed(req, old(req.transmitMe), old(req.txCount))
      ensures old(pool.Open()) && !sent.Again? ==> pool.Open() && !req.transmitMe
    {
      hide Queues.Rings; hide Pool.Valid;
      assert req.ns in Members(pool.servers);
      if req.transmitMe { Transmit(req, sent); }
    }

    /** Take the first waiting request out of its ring. */
    method TakeWaiting() returns (req: Request)
      requires Valid() && waiting > 0
      modifies this`waitHead, this`waiting, this`queued, Members(queued)`next, Members(queued)`prev
      ensures Valid() && req == old(queued)[0] && queued == old(queued)[1..]
      ensures req !in flying && req !in queued
    {
      hide Pool.Valid; hide Linked; hide Distinct;
      FirstAlone(queued);
      req := waitHead;
      ghost var q := queued;
      assert req in Members(q);
      assert q[..0] + q[1..] == q[1..];
      Apart(q, pool);
      var next := Unlink(req, waitHead, q, 0);
      waitHead, waiting := next, waiting - 1;
      queued := q[1..];
    }

    /** Put a request at the end of the ring of those in flight. */
    method Launch(req: Request)
      requires Valid() && req !in flying && req !in queued && req.ns != null && req.ns in Members(pool.servers)
      modifies this`reqHead, this`inflight, this`flying, req`next, req`prev, Members(flying)`next, Members(flying)`prev
      ensures Valid() && flying == old(flying) + [req]
    {
      hide Pool.Valid; hide Linked; hide Distinct;
      Apart(flying + [req], pool);
      var head := Insert(req, reqHead, flying);
      assert req in Members(flying + [req]);
      assert pool.Valid();
      reqHead, inflight := head, inflight + 1;
      flying := flying + [req];
    }

    /** A request that was sent, or is due. */
    ghost predicate Started(r: Request, count: int)
      reads r`transmitMe, r`txCount
    {
      r.txCount == count + if r.transmitMe then 0 else 1
    }

    /** Give the first waiting request a server and move it to those in flight. */
    method MoveUp() returns (req: Request)
      requires Valid() && waiting > 0 && Members(pool.servers) != {}
      modifies this`reqHead, this`waitHead, this`inflight, this`waiting, this`flying, this`queued
      modifies Members(flying)`next, Members(flying)`prev, pool`head, pool`servers
      modifies Members(queued)`next, Members(queued)`prev, Members(queued)`ns
      ensures Valid() && Members(pool.servers) == old(Members(pool.servers)) && req == old(queued)[0]
      ensures flying == old(flying) + [req] && queued == old(queued)[1..]
    {
      hide Queues.Rings; hide Pool.Valid;
      Counted();
      assert queued[0] in Members(queued);
      req := TakeWaiting();
      Assign(req);
      Launch(req);
    }

    lemma ListsApart()
      requires Valid()
      ensures forall r :: r in flying ==> r !in queued
      ensures forall r :: r in flying ==> r.ns != null && r.ns in Members(pool.servers)
    {
      hide Pool.Valid; hide Ring;
      forall r | r in flying ensures r !in queued { assert r in Members(flying) && r !in Members(queued); }
    }

    /** Move a waiting request up, send it, and send what else is due. */
    method Promote(sends: nat -> Sent)
      requires Valid() && waiting > 0 && Members(pool.servers) != {}
      modifies this`reqHead, this`waitHead, this`inflight, this`waiting, this`flying, this`queued
      modifies Members(flying), Members(queued), pool, Members(pool.servers)
      ensures Valid() && Members(pool.servers) == old(Members(pool.servers))
      ensures flying == old(flying) + [old(queued)[0]] && queued == old(queued)[1..]
      ensures Started(old(queued)[0], old(queued[0].txCount))
      ensures forall r :: r in old(flying) ==> Progressed(r, old(r.transmitMe), old(r.txCount))
      ensures forall r :: r in queued ==> r.txCount == old(r.txCount)
      ensures old(pool.Open()) && (forall i :: !sends(i).Again?) ==>
                pool.Open() && forall r :: r in flying ==> !r.transmitMe
    {
      hide Queues.Rings; hide Pool.Valid; hide Queues.Assigned;
      Counted();
      ListsApart();
      assert queued[0] in queued && queued[0] in Members(queued);
      var req := MoveUp();
      ListsApart();
      Transmit(req, sends(0));
      TransmitDue((i: nat) => sends(i + 1));
    }

    /** Choose a server for a request that is in neither list. */
    method Assign(req: Request)
      requires Valid() && req !in flying && req !in queued
      modifies pool`head, pool`servers, req`ns
      ensures Valid() && Members(pool.servers) == old(Members(pool.servers))
      ensures if Members(pool.servers) == {} then req.ns == null else req.ns != null && req.ns in Members(pool.servers)
      ensures pool.good > 0 ==> req.ns != null && req.ns.up
    {
      hide Pool.Valid; hide Linked;
      var picked := pool.Pick();
      req.ns := picked;
    }

    lemma Counted()
      requires Rings()
      ensures inflight == |flying| && waiting == |queued|
    {}

    /** Move waiting requests to those in flight while there is room. A request that finds no
        server is handed to a null pointer: the answer is then no, and nothing more is claimed. */
    method Pump(sends: (nat, nat) -> Sent) returns (ok: bool)
      requires Valid()
      modifies this`reqHead, this`waitHead, this`inflight, this`waiting, this`flying, this`queued
      modifies Members(flying), Members(queued), pool, Members(pool.servers)
      ensures ok <==> old(Members(pool.servers)) != {} || old(queued) == [] || old(inflight) >= max
      ensures ok ==> Valid() && Members(pool.servers) == old(Members(pool.servers))
      ensures var k := Pumped(old(inflight), max, |old(queued)|);
              ok ==> flying == old(flying) + old(queued)[..k] && queued == old(queued)[k..]
      ensures ok ==> flying + queued == old(flying) + old(queued) && (queued == [] || inflight >= max)
      ensures ok ==> inflight == old(inflight) || inflight <= max
      ensures ok ==> forall r :: r in old(flying) ==> Progressed(r, old(r.transmitMe), old(r.txCount))
      ensures var k := Pumped(old(inflight), max, |old(queued)|);
              ok ==> forall r :: r in old(queued)[..k] ==> Started(r, old(r.txCount))
      ensures ok && old(pool.Open()) && (forall a, b :: !sends(a, b).Again?) && old(queued) != queued ==> NoneDue()
    {
      hide Queues.Rings; hide Pool.Valid; hide Queues.Assigned; hide Progressed; hide Started; hide Sending;
      hide Pool.Open; hide NoneDue;
      Counted();
      pool.HeadMeans();
      if pool.head == null && inflight < max && waiting > 0 { return false; }
      ghost var f, q, all := flying, queued, Members(flying) + Members(queued);
      ghost var due: map<Request, bool> := map r: Request | r in all :: r.transmitMe;
      ghost var tx: map<Request, int> := map r: Request | r in all :: r.txCount;
      SendingStart(f, q, due, tx);
      ghost var k := PumpAll(sends, due, tx);
      SendingEnd(f, q, k, due, tx);
      assert k == 0 ==> queued == q;
      ok := true;
    }

    /** The loop: requests go up as long as there is room. */
    method PumpAll(sends: (nat, nat) -> Sent, ghost due: map<Request, bool>, ghost tx: map<Request, int>)
      returns (ghost k: nat)
      requires Valid() && (Members(pool.servers) != {} || inflight >= max || waiting == 0)
      requires Sending(flying, queued, 0, due, tx)
      modifies this`reqHead, this`waitHead, this`inflight, this`waiting, this`flying, this`queued
      modifies Members(flying), Members(queued), pool, Members(pool.servers)
      ensures Valid() && Members(pool.servers) == old(Members(pool.servers))
      ensures k == Pumped(old(inflight), max, |old(queued)|) && inflight == old(inflight) + k
      ensures flying == old(flying) + old(queued)[..k] && queued == old(queued)[k..]
      ensures Sending(old(flying), old(queued), k, due, tx) && (waiting == 0 || inflight >= max)
      ensures old(pool.Open()) && (forall a, b :: !sends(a, b).Again?) && k > 0 ==> NoneDue()
    {
      hide Queues.Rings; hide Pool.Valid; hide Queues.Assigned; hide Sending; hide Pool.Open; hide NoneDue;
      ghost var f, q, all := flying, queued, Members(flying) + Members(queued);
      ghost var servers := Members(pool.servers);
      ghost var open := pool.Open() && forall a, b :: !sends(a, b).Again?;
      k := 0;
      var rounds: nat := 0;
      Counted();
      while inflight < max && waiting > 0
        invariant 0 <= k <= |q| && (k == 0 || inflight <= max)
        invariant Valid() && Members(pool.servers) == servers
        invariant flying == f + q[..k] && queued == q[k..]
        invariant inflight == |f| + k && waiting == |q| - k
        invariant Members(flying) + Members(queued) == all
        invariant Sending(f, q, k, due, tx) && (open ==> pool.Open() && (k > 0 ==> NoneDue()))
        decreases waiting
      {
        PromoteNext((i: nat) => sends(rounds, i), f, q, k, due, tx);
        k, rounds := k + 1, rounds + 1;
        Counted();
        SameMembers(f, q, k);
      }
    }

    ghost predicate NoneDue()
      reads this`flying, Members(flying)`transmitMe
    {
      forall r :: r in flying ==> !r.transmitMe
    }

    /** Of the requests in `f` those that were due were sent or still are; the first `k` of `q` were sent
        or are due; nothing was done for the others. */
    ghost predicate Sending(f: seq<Request>, q: seq<Request>, k: nat, due: map<Request, bool>, tx: map<Request, int>)
      requires k <= |q|
      reads Members(f)`transmitMe, Members(f)`txCount, Members(q)`transmitMe, Members(q)`txCount
    {
      && (forall r :: r in f ==> r in due && r in tx && Progressed(r, due[r], tx[r]))
      && (forall j :: 0 <= j < |q| ==> q[j] in tx)
      && (forall j :: 0 <= j < k ==> Started(q[j], tx[q[j]]))
      && (forall j :: k <= j < |q| ==> q[j].txCount == tx[q[j]])
    }

    lemma SendingStart(f: seq<Request>, q: seq<Request>, due: map<Request, bool>, tx: map<Request, int>)
      requires forall r :: r in f || r in q ==> r in due && r in tx && due[r] == r.transmitMe && tx[r] == r.txCount
      ensures Sending(f, q, 0, due, tx)
    {}

    lemma SendingEnd(f: seq<Request>, q: seq<Request>, k: nat, due: map<Request, bool>, tx: map<Request, int>)
      requires k <= |q| && Sending(f, q, k, due, tx)
      ensures forall r :: r in f ==> r in due && r in tx && Progressed(r, due[r], tx[r])
      ensures forall r :: r in q[..k] ==> r in tx && Started(r, tx[r])
    {
      hide Progressed; hide Started;
    }

    /** One more request goes up while `f` and the first `k` of `q` are in flight. */
    method PromoteNext(sends: nat -> Sent, ghost f: seq<Request>, ghost q: seq<Request>, ghost k: nat,
                       ghost due: map<Request, bool>, ghost tx: map<Request, int>)
      requires Valid() && waiting > 0 && Members(pool.servers) != {}
      requires k < |q| && flying == f + q[..k] && queued == q[k..] && Sending(f, q, k, due, tx)
      modifies this`reqHead, this`waitHead, this`inflight, this`waiting, this`flying, this`queued
      modifies Members(flying), Members(queued), pool, Members(pool.servers)
      ensures Valid() && Members(pool.servers) == old(Members(pool.servers))
      ensures flying == f + q[..k + 1] && queued == q[k + 1..] && Sending(f, q, k + 1, due, tx)
      ensures old(pool.Open()) && (forall i :: !sends(i).Again?) ==> pool.Open() && NoneDue()
    {
      hide Queues.Rings; hide Pool.Valid; hide Queues.Assigned; hide Pool.Open;
      Promote(sends);
      assert q[k..][1..] == q[k + 1..] && q[..k] + [q[k]] == q[..k + 1];
      forall j | 0 <= j < k ensures Started(q[j], tx[q[j]]) { assert q[j] in q[..k]; }
      forall j | k + 1 <= j < |q| ensures q[j].txCount == tx[q[j]] { assert q[j] == q[k + 1..][j - k - 1]; }
    }

    /** Put a request at the end of the waiting ring. */
    method Enqueue(req: Request)
      requires Valid() && req !in flying && req !in queued
      modifies this`waitHead, this`waiting, this`queued, req`next, req`prev, Members(queued)`next, Members(queued)`prev
      ensures Valid() && queued == old(queued) + [req]
    {
      hide Pool.Valid; hide Linked; hide Distinct;
      Apart(queued + [req], pool);
      assert req in Members(queued + [req]);
      var head := Insert(req, waitHead, queued);
      assert pool.Valid();
      waitHead, waiting := head, waiting + 1;
      queued := queued + [req];
    }

    /** A new request goes out at once when there is room and a server, and waits otherwise. */
    method Submit(req: Request, sent: Sent)
      requires Valid() && req !in flying && req !in queued
      modifies this`reqHead, this`waitHead, this`inflight, this`waiting, this`flying, this`queued
      modifies req, Members(flying), Members(queued), pool, Members(pool.servers)
      ensures Valid() && Members(pool.servers) == old(Members(pool.servers))
      ensures if old(inflight) < max && Members(pool.servers) != {}
              then flying == old(flying) + [req] && queued == old(queued)
                   && req.txCount == old(req.txCount) + (if req.transmitMe then 0 else 1)
                   && (!sent.Again? && old(pool.Open()) ==> !req.transmitMe)
              else flying == old(flying) && queued == old(queued) + [req] && req.ns == null
    {
      hide Queues.Rings; hide Pool.Valid;
      if inflight < max {
        Assign(req);
      } else {
        Unassign(req);
      }
      if req.ns != null {
        Launch(req);
        Transmit(req, sent);
      } else {
        Enqueue(req);
      }
    }

    method Unassign(req: Request)
      requires Valid() && req !in flying
      modifies req`ns
      ensures Valid() && req.ns == null
    {
      hide Queues.Rings; hide Pool.Valid;
      req.ns := null;
    }

    /** A probe goes to a given server at once, whether there is room or not. Like any request it
        has taken its turn in the ring when there is room. */
    method Probe(req: Request, ns: Server, sent: Sent)
      requires Valid() && req !in flying && req !in queued && ns in Members(pool.servers)
      modifies this`reqHead, this`inflight, this`flying
      modifies req, Members(flying), pool, Members(pool.servers)
      ensures Valid() && Members(pool.servers) == old(Members(pool.servers))
      ensures flying == old(flying) + [req] && req.txCount == old(req.txCount) + if req.transmitMe then 0 else 1
      ensures !sent.Again? && old(pool.Open()) ==> !req.transmitMe
    {
      hide Queues.Rings; hide Pool.Valid;
      if inflight < max { Assign(req); }
      Direct(req, ns);
      Launch(req);
      Transmit(req, sent);
    }

    method Direct(req: Request, ns: Server)
      requires Valid() && req !in flying
      modifies req`ns
      ensures Valid() && req.ns == ns
    {
      hide Queues.Rings; hide Pool.Valid;
      req.ns := ns;
    }

    /** Take a request out of those in flight. */
    method Land(req: Request)
      requires Valid() && req in flying
      modifies this`reqHead, this`inflight, this`flying, Members(flying)`next, Members(flying)`prev
      ensures Valid() && flying == RemoveFirst(old(flying), req)
    {
      hide Pool.Valid; hide Linked; hide Distinct; hide RemoveFirst;
      ghost var q := flying;
      ghost var k :| 0 <= k < |q| && q[k] == req;
      Alone(q, k);
      Apart(q, pool);
      var head := Unlink(req, reqHead, q, k);
      assert pool.Valid();
      reqHead, inflight := head, inflight - 1;
      flying := q[..k] + q[k + 1..];
      Fewer(q, k);
    }

    /** A request is done; waiting ones may take its place. */
    method Finish(req: Request, sends: (nat, nat) -> Sent)
      requires Valid() && req in flying
      modifies this`reqHead, this`waitHead, this`inflight, this`waiting, this`flying, this`queued
      modifies Members(flying), Members(queued), pool, Members(pool.servers)
      ensures Valid() && Members(pool.servers) == old(Members(pool.servers))
      ensures var k := Pumped(old(inflight) - 1, max, |old(queued)|);
              flying == RemoveFirst(old(flying), req) + old(queued)[..k] && queued == old(queued)[k..]
    {
      hide Queues.Rings; hide Pool.Valid; hide Pumped;
      ghost var q := flying;
      assert req.ns in Members(pool.servers);
      Counted();
      Land(req);
      Counted();
      Remaining(q, req);
      var ok := Pump(sends);
    }

    /** Put a request, as if it had never been sent, in front of the waiting ones: at the end of
        the ring, whose start is then moved back by one. */
    /** A request that was never sent. */
    ghost predicate Anew(r: Request)
      reads r`txCount, r`reissueCount, r`ns, r`transmitMe
    {
      r.txCount == 0 && r.reissueCount == 0 && r.ns == null && !r.transmitMe
    }

    ghost predicate AllAnew(q: seq<Request>, i: nat)
      requires i <= |q|
      reads Members(q)`txCount, Members(q)`reissueCount, Members(q)`ns, Members(q)`transmitMe
    {
      forall j :: 0 <= j < i ==> Anew(q[j])
    }

    method PushFront(req: Request)
      requires Ring(queued, waitHead) && waiting == |queued| && req !in queued
      modifies this`waitHead, this`waiting, this`queued, req, Members(queued)`next, Members(queued)`prev
      ensures Ring(queued, waitHead) && waiting == |queued| && queued == [req] + old(queued) && Anew(req)
    {
      hide Linked; hide Distinct;
      ghost var q := queued;
      req.txCount, req.reissueCount, req.ns, req.transmitMe := 0, 0, null, false;
      assert Anew(req);
      hide Anew;
      waitHead := Insert(req, waitHead, q);
      waitHead := StepBack(waitHead, q + [req]);
      waiting := waiting + 1;
      queued := [req] + q;
      assert Turned(q + [req], |q|) == queued;
    }

    /** The first `i` requests of `q` are in front of those in `was`, last one first, and the rest
        still follow each other. */
    ghost predicate Moved(q: seq<Request>, i: nat, was: seq<Request>)
      requires i <= |q|
      reads this`waitHead, this`waiting, this`queued, Members(queued)`next, Members(queued)`prev, Members(q)`next
    {
      && Ring(queued, waitHead) && waiting == |queued|
      && queued == Reversed(q[..i]) + was
      && Members(queued) == Members(q[..i]) + Members(was)
      && forall j :: i <= j < |q| ==> q[j].next == q[Succ(j, |q|)]
    }

    method PushOne(req: Request, ghost q: seq<Request>, ghost i: nat, ghost was: seq<Request>)
      requires i < |q| && Moved(q, i, was) && req == q[i] && Members(q) !! Members(was)
      requires Distinct(q) && AllAnew(q, i)
      modifies this`waitHead, this`waiting, this`queued, req, Members(q[..i])`next, Members(q[..i])`prev,
               Members(was)`next, Members(was)`prev
      ensures Moved(q, i + 1, was) && AllAnew(q, i + 1)
    {
      hide Linked; hide Ring; hide Reversed; hide Anew;
      Untouched(q, i, was);
      PushFront(req);
      ReversedStep(q, i);
      assert [req] + (Reversed(q[..i]) + was) == Reversed(q[..i + 1]) + was;
      PushedMembers(q, i, was, queued);
    }

    /** Move the requests of a ring, one after the other, in front of the waiting ones. */
    method PushAll(first: Request, ghost q: seq<Request>)
      requires Ring(q, first) && Ring(queued, waitHead) && waiting == |queued| && Members(q) !! Members(queued)
      modifies this`waitHead, this`waiting, this`queued, Members(q), Members(queued)`next, Members(queued)`prev
      ensures Ring(queued, waitHead) && waiting == |queued| && queued == Reversed(q) + old(queued)
      ensures forall r :: r in q ==> Anew(r)
    {
      hide *;
      NoneAnew(q);
      RingPlaces(q, first);
      ghost var was := queued;
      var req := first;
      ghost var i := 0;
      MovedStart(q, first);
      while true
        invariant 0 <= i < |q| && req == q[i] && Moved(q, i, was) && AllAnew(q, i)
        decreases |q| - i
      {
        MovedNext(q, i, was);
        var next := req.next;
        FrontMembers(q, i);
        PushOne(req, q, i, was);
        SuccMeans(i, |q|);
        if next == first { break; }
        req := next;
        i := i + 1;
      }
      MovedEnd(q, was);
      AnewAll(q);
    }

    lemma NoneAnew(q: seq<Request>)
      ensures AllAnew(q, 0)
    {}

    lemma AnewAll(q: seq<Request>)
      requires AllAnew(q, |q|)
      ensures forall r :: r in q ==> Anew(r)
    {
      hide Anew;
    }

    lemma MovedStart(q: seq<Request>, first: Request)
      requires Ring(q, first) && Ring(queued, waitHead) && waiting == |queued|
      ensures Moved(q, 0, queued)
    {
      assert [] + queued == queued && q[..0] == [];
    }

    lemma MovedNext(q: seq<Request>, i: nat, was: seq<Request>)
      requires i < |q| && Moved(q, i, was)
      ensures q[i].next == q[Succ(i, |q|)]
    {}

    lemma MovedEnd(q: seq<Request>, was: seq<Request>)
      requires Moved(q, |q|, was)
      ensures Ring(queued, waitHead) && waiting == |queued| && queued == Reversed(q) + was
    {
      hide Ring;
      assert q[..|q|] == q;
    }

    /** Forget every server; the requests in flight go in front of the waiting ones, last one
        first, so their order survives exactly when there is at most one. */
    method Suspend()
      requires Valid()
      modifies this`reqHead, this`waitHead, this`inflight, this`waiting, this`flying, this`queued
      modifies Members(flying), Members(queued)`next, Members(queued)`prev, pool
      ensures Valid() && pool.servers == [] && flying == []
      ensures queued == Reversed(old(flying)) + old(queued)
      ensures queued == old(flying) + old(queued) <==> |old(flying)| <= 1
      ensures forall r :: r in old(flying) ==> Anew(r)
    {
      hide Linked; hide Distinct; hide Reversed; hide Pool.Valid; hide Anew;
      OrderLost(flying, queued);
      pool.HeadIs();
      if pool.head == null {
        NoFlights();
        NoneReversed(flying, queued);
        return;
      }
      ghost var q := flying;
      pool.Clear();
      if reqHead == null {
        NoneReversed(flying, queued);
        return;
      }
      Apart(q, pool);
      Apart(queued, pool);
      PushAll(reqHead, q);
      pool.EmptyValid();
      reqHead, inflight, flying := null, 0, [];
      NoneLeft();
    }

    lemma NoFlights()
      requires Assigned()
      ensures flying == [] || pool.servers != []
    {
      if flying != [] {
        var r := flying[0];
        assert r in flying && r.ns in Members(pool.servers);
      }
    }

    /** With servers again, waiting requests go out; without any, the first that could go out is
        handed to a null pointer. */
    method Resume(sends: (nat, nat) -> Sent) returns (ok: bool)
      requires Valid()
      modifies this`reqHead, this`waitHead, this`inflight, this`waiting, this`flying, this`queued
      modifies Members(flying), Members(queued), pool, Members(pool.servers)
      ensures ok <==> old(Members(pool.servers)) != {} || old(inflight) >= max || old(queued) == []
      ensures ok ==> Valid() && Members(pool.servers) == old(Members(pool.servers))
      ensures ok ==> Members(flying) + Members(queued) == old(Members(flying) + Members(queued))
      ensures ok && queued != [] ==> inflight >= max
    {
      hide Queues.Rings; hide Pool.Valid; hide Queues.Assigned; hide Members;
      ghost var f, q := flying, queued;
      Counted();
      ok := Pump(sends);
      if !ok { return; }
      Counted();
      SameMembers(f, q, Pumped(|f|, max, |q|));
    }

    method NameserverUp(ns: Server)
      requires Valid() && ns in Members(pool.servers)
      modifies pool`good, ns`up
      ensures Valid() && ns.up && pool.good == old(pool.good) + if old(ns.up) then 0 else 1
    {
      hide Pool.Valid; hide Linked; hide Distinct;
      pool.MarkUp(ns);
    }

    method NameserverAdd(address: int, ready: bool) returns (ns: Server?)
      requires Valid()
      modifies pool, Members(pool.servers)`next
      ensures Valid() && pool.good == old(pool.good) + if ns == null then 0 else 1
      ensures ns == null <==> !ready || exists s :: s in old(pool.servers) && s.address == address
      ensures Members(pool.servers) == old(Members(pool.servers)) + if ns == null then {} else {ns}
      ensures ns != null ==> fresh(ns) && ns.up && ns.address == address
    {
      hide Pool.Valid; hide Linked; hide Distinct;
      ghost var q := pool.servers;
      ns := pool.Add(address, ready);
      if ns != null { Inserted(q, ns); }
    }

    lemma FlyingLinks()
      requires Rings()
      ensures reqHead == if flying == [] then null else flying[0]
      ensures forall i :: 0 <= i < |flying| ==> flying[i].next == flying[Succ(i, |flying|)]
      ensures forall i, j :: 0 <= i < j < |flying| ==> flying[i] != flying[j]
    {}
  }

  /** Requests, servers and pools are different objects. */
  lemma Apart(q: seq<Request>, p: Pool)
    ensures forall x: object :: x in Members(q) ==> x !in Members(p.servers) && x != p
  {}

  lemma SameMembers<T>(f: seq<T>, q: seq<T>, k: nat)
    requires k <= |q|
    ensures Members(f + q[..k]) + Members(q[k..]) == Members(f) + Members(q)
    ensures k > 0 ==> q[..k - 1] + [q[k - 1]] == q[..k] && q[k - 1..][1..] == q[k..]
  {
    assert q == q[..k] + q[k..];
  }

  /** A member stands at one place only. */
  lemma Alone(q: seq<Request>, k: nat)
    requires Linked(q) && k < |q|
    ensures q[..k] + q[k + 1..] == RemoveFirst(q, q[k])
  {
    RemoveAt(q, q[k], k);
  }

  lemma Fewer<T>(q: seq<T>, k: nat)
    requires k < |q|
    ensures Members(q[..k] + q[k + 1..]) <= Members(q)
  {}

  lemma Remaining<T>(q: seq<T>, x: T)
    requires x in q
    ensures |RemoveFirst(q, x)| == |q| - 1 && Members(RemoveFirst(q, x)) <= Members(q)
  {
    CountRemoved(q, x, x);
    forall y | y in RemoveFirst(q, x) ensures y in q {
      CountIn(RemoveFirst(q, x), y);
      CountIn(q, y);
      CountRemoved(q, x, y);
    }
  }

  lemma RingPlaces(q: seq<Request>, head: Request)
    requires Ring(q, head)
    ensures q != [] && head == q[0] && Distinct(q)
    ensures forall i :: 0 <= i < |q| ==> q[i].next == q[Succ(i, |q|)]
    ensures forall i :: 0 < i < |q| ==> q[i] != q[0]
  {}

  lemma ReversedStep<T>(q: seq<T>, i: nat)
    requires i < |q|
    ensures Reversed(q[..i + 1]) == [q[i]] + Reversed(q[..i])
    ensures Reversed(q[..0]) == []
  {
    assert q[..i + 1][..i] == q[..i];
  }

  lemma PushedMembers<T>(q: seq<T>, i: nat, was: seq<T>, now: seq<T>)
    requires i < |q| && now == Reversed(q[..i + 1]) + was
    ensures Members(now) == Members(q[..i + 1]) + Members(was)
  {
    ReversedMembers(q[..i + 1]);
  }

  lemma {:induction false} ReversedMembers<T>(q: seq<T>)
    ensures Members(Reversed(q)) == Members(q) && |Reversed(q)| == |q|
  {
    if q != [] {
      var front, last := q[..|q| - 1], q[|q| - 1];
      ReversedMembers(front);
      assert q == front + [last];
      assert Members(Reversed(q)) == {last} + Members(Reversed(front));
    }
  }

  lemma FrontMembers<T>(q: seq<T>, i: nat)
    requires i < |q|
    ensures Members(q[..i]) <= Members(q) && q[i] in Members(q)
  {}

  lemma SuccMeans(i: nat, n: nat)
    requires i < n
    ensures if i + 1 == n then Succ(i, n) == 0 else Succ(i, n) == i + 1
  {}

  lemma NoneReversed<T>(q: seq<T>, was: seq<T>)
    requires q == []
    ensures Reversed(q) + was == was
  {}

  /** Turning the order round shows as soon as there are two. */
  lemma {:induction false} ReversedAt<T>(q: seq<T>, i: nat)
    requires i < |q|
    ensures |Reversed(q)| == |q| && Reversed(q)[i] == q[|q| - 1 - i]
  {
    if i > 0 {
      ReversedAt(q[..|q| - 1], i - 1);
    } else if |q| > 1 {
      ReversedAt(q[..|q| - 1], 0);
    }
  }

  /** A ring keeps its order in front of another list exactly when it has at most one member. */
  lemma OrderLost(q: seq<Request>, was: seq<Request>)
    requires Linked(q)
    ensures Reversed(q) + was == q + was <==> |q| <= 1
  {
    ReversedSame(q);
    ReversedMembers(q);
    assert (Reversed(q) + was)[..|q|] == Reversed(q) && (q + was)[..|q|] == q;
  }

  lemma ReversedSame<T>(q: seq<T>)
    requires Distinct(q)
    ensures Reversed(q) == q <==> |q| <= 1
  {
    if |q| > 1 {
      ReversedAt(q, 0);
    } else if |q| == 1 {
      assert q[..0] == [] && q == [q[0]];
    }
  }

  /** Requests that were not moved yet are none of the moved ones. */
  lemma Untouched(q: seq<Request>, i: nat, was: seq<Request>)
    requires i < |q| && Members(q) !! Members(was) && Distinct(q)
    ensures forall j :: i <= j < |q| ==> q[j] !in Members(q[..i]) + Members(was)
  {
    forall j | i <= j < |q| ensures q[j] !in Members(q[..i]) + Members(was) {
      assert q[j] in Members(q);
    }
  }

  lemma FirstAlone(q: seq<Request>)
    requires Linked(q) && q != []
    ensures q[0] !in q[1..]
  {}

  lemma EmptyUps(servers: seq<Server>)
    requires servers == []
    ensures Ups(servers) == {}
  {}

  lemma NoTurn<T>(q: seq<T>)
    ensures Turned(q, 0) == q
  {}

  lemma Inserted(q: seq<Server>, ns: Server)
    ensures forall s :: s in (if q == [] then [ns] else [q[0], ns] + q[1..]) <==> s in q || s == ns
  {
    if q != [] { assert q == [q[0]] + q[1..]; }
  }
}
