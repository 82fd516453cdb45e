/** The Kademlia node's routing table: the `Kbucket` object and its per-message dispatch,
    reduced to one message at a time. */
module Kbucket {
  import opened Wrappers
  import opened NodeIds
  import opened KQue
  import opened Routing
  import Partions
  import Storage

  /** Bucket size. */
  const KCOUNT := 8
  /** Search fan-out. */
  const ALPHA := 3

  datatype KbConfig = KbConfig(seeds: seq<string>, localIP: string, port: nat, id: NodeID)

  /** The routing table's state as a value. */
  datatype State = State(routes: Routes, self: Node, k: int, alpha: int, store: Storage.Store)

  /** A mailbox message, with its payload typed. */
  datatype Note =
    | NAddNode(node: Node)
    | NDelNode(node: Node)
    | NFind(id: NodeID)
    | NFindOne(id: NodeID)
    | NStore(key: string, value: string)

  /** What becomes of a message's reply channel. */
  datatype Reply =
    | NoReply                       // the message carries no reply channel
    | Sent(nodes: seq<Node>)        // a value was sent, then the channel closed
    | Closed                        // the channel closed without a value
    | Unanswered(result: Result<Node>)  // a result was computed, nothing written, never closed

  ghost predicate Invariant(s: State) {
    s.k >= 0 && TableOk(s.routes, s.self.id, s.k)
  }

  /** One iteration of `run` on a mailbox message: each message kind reaches exactly one
      operation; queries change nothing and mutations answer nothing. */
  ghost function Step(s: State, m: Note): (r: (State, Reply))
    ensures r.0.self == s.self && r.0.k == s.k && r.0.alpha == s.alpha
    ensures m.NFind? || m.NFindOne? ==> r.0 == s
    ensures m.NAddNode? || m.NDelNode? || m.NStore? ==> r.1 == NoReply
    ensures m.NAddNode? || m.NDelNode? ==> r.0.store == s.store
    ensures m.NStore? ==> r.0.routes == s.routes && Storage.Get(r.0.store, m.key) == Some(m.value)
    ensures m.NFind? ==> r.1.Sent? || r.1.Closed?
    ensures m.NFind? && r.1.Sent? ==> |r.1.nodes| <= s.alpha
    ensures m.NFind? && m.id == s.self.id ==> r.1 == Closed
    ensures m.NFindOne? ==> r.1.Unanswered?
  {
    match m
    case NAddNode(n) =>
      (s.(routes := AddRoutes(s.routes, s.self.id, s.k, n)), NoReply)
    case NDelNode(n) =>
      (s.(routes := RemoveRoutes(s.routes, s.self.id, n)), NoReply)
    case NFind(id) =>
      FindBounded(s.routes, s.self.id, s.alpha, id);
      var reply := FindSpec(s.routes, s.self.id, s.alpha, id);
      (s, if reply.Some? then Sent(reply.value) else Closed)
    case NFindOne(id) => (s, Unanswered(FindOneSpec(s.routes, s.self, id)))
    case NStore(key, value) => (s.(store := Storage.Put(s.store, key, value)), NoReply)
  }

  lemma StepKeepsInvariant(s: State, m: Note)
    requires Invariant(s)
    ensures Invariant(Step(s, m).0)
  {
    match m
    case NAddNode(n) => AddKeepsTable(s.routes, s.self.id, s.k, n);
    case NDelNode(n) => RemoveKeepsTable(s.routes, s.self.id, s.k, n);
    case _ =>
  }

  /** The state after the worker drained the messages in arrival order. */
  ghost function Run(s: State, ms: seq<Note>): (t: State)
    decreases |ms|
  {
    if ms == [] then s else Run(Step(s, ms[0]).0, ms[1..])
  }

  /** Every bucket stays within k nodes of its own partition with distinct identifiers,
      whatever messages arrive. */
  lemma {:induction false} RunKeepsInvariant(s: State, ms: seq<Note>)
    requires Invariant(s)
    ensures Invariant(Run(s, ms))
    ensures Run(s, ms).self == s.self && Run(s, ms).k == s.k && Run(s, ms).alpha == s.alpha
    decreases |ms|
  {
    if ms != [] {
      StepKeepsInvariant(s, ms[0]);
      RunKeepsInvariant(Step(s, ms[0]).0, ms[1..]);
    }
  }

  /** One add message per node, in order. */
  function Adds(ns: seq<Node>): (ms: seq<Note>)
  {
    seq(|ns|, i requires 0 <= i < |ns| => NAddNode(ns[i]))
  }

  /** One add of a new node of partition p whose bucket has room appends it there. */
  lemma AddAppends(s: State, p: int, n: Node)
    requires NodePartition(n.id, s.self.id) == p
    requires !HasId(BucketAt(s.routes, p), n.id) && |BucketAt(s.routes, p)| < s.k
    ensures BucketAt(Step(s, NAddNode(n)).0.routes, p) == BucketAt(s.routes, p) + [n]
    ensures Step(s, NAddNode(n)).0.self == s.self && Step(s, NAddNode(n)).0.k == s.k
  {
  }

  lemma RunCons(s: State, ns: seq<Node>)
    requires ns != []
    ensures Run(s, Adds(ns)) == Run(Step(s, NAddNode(ns[0])).0, Adds(ns[1..]))
  {
    assert Adds(ns)[1..] == Adds(ns[1..]);
  }

  lemma FirstFits(b: Bucket, ns: seq<Node>, k: int)
    requires ns != [] && DistinctIds(b + ns) && |b| + |ns| <= k
    ensures !HasId(b, ns[0].id) && |b| < k
    ensures b + ns == (b + [ns[0]]) + ns[1..]
  {
    DistinctSplit(b, ns);
    assert ns[0] in ns;
    assert ns == [ns[0]] + ns[1..];
    assert b + ([ns[0]] + ns[1..]) == (b + [ns[0]]) + ns[1..];
  }

  /** The first add of AddsFillBucket leaves the rest of the sequence in the same situation. */
  lemma AddsStep(s: State, p: int, ns: seq<Node>)
    requires ns != []
    requires forall x :: x in ns ==> NodePartition(x.id, s.self.id) == p
    requires DistinctIds(BucketAt(s.routes, p) + ns)
    requires |BucketAt(s.routes, p)| + |ns| <= s.k
    ensures var next := Step(s, NAddNode(ns[0])).0;
      && (forall x :: x in ns[1..] ==> NodePartition(x.id, next.self.id) == p)
      && BucketAt(next.routes, p) + ns[1..] == BucketAt(s.routes, p) + ns
      && |BucketAt(next.routes, p)| + |ns[1..]| <= next.k
      && Run(s, Adds(ns)) == Run(next, Adds(ns[1..]))
  {
    RunCons(s, ns);
    FirstFits(BucketAt(s.routes, p), ns, s.k);
    assert ns[0] in ns;
    AddAppends(s, p, ns[0]);
    assert forall x :: x in ns[1..] ==> x in ns;
  }

  /** Adds for distinct nodes of one partition, no more than the room left in its bucket,
      leave every one of them in the bucket, in arrival order. */
  lemma {:induction false} AddsFillBucket(s: State, p: int, ns: seq<Node>)
    requires forall x :: x in ns ==> NodePartition(x.id, s.self.id) == p
    requires DistinctIds(BucketAt(s.routes, p) + ns)
    requires |BucketAt(s.routes, p)| + |ns| <= s.k
    ensures BucketAt(Run(s, Adds(ns)).routes, p) == BucketAt(s.routes, p) + ns
    decreases |ns|
  {
    if ns == [] {
      assert BucketAt(s.routes, p) + ns == BucketAt(s.routes, p);
    } else {
      AddsStep(s, p, ns);
      AddsFillBucket(Step(s, NAddNode(ns[0])).0, p, ns[1..]);
    }
  }

  /** How `Find` reads its reply channel: a closed channel is a failure. */
  function FindResult(r: Reply): (res: Result<seq<Node>>)
  {
    if r.Sent? then Ok(r.nodes) else Err(Failed)
  }

  /** What a `Find` caller gets back: Failed exactly when `find` sends nothing, otherwise the
      nodes sent, at most alpha of them and every one a node of the table. */
  lemma FindAnswers(s: State, id: NodeID)
    ensures FindResult(Step(s, NFind(id)).1).Ok? <==> FindSpec(s.routes, s.self.id, s.alpha, id).Some?
    ensures FindResult(Step(s, NFind(id)).1).Err? ==> FindResult(Step(s, NFind(id)).1).error == Failed
    ensures FindResult(Step(s, NFind(id)).1).Ok? ==>
      var ns := FindResult(Step(s, NFind(id)).1).value;
      && ns == FindSpec(s.routes, s.self.id, s.alpha, id).value
      && |ns| <= s.alpha
      && forall x :: x in ns ==> InTable(s.routes, x)
  {
    FindBounded(s.routes, s.self.id, s.alpha, id);
  }

  /** Find on the local identifier fails: find closes the channel without sending. */
  lemma FindSelfFails(s: State)
    ensures FindResult(Step(s, NFind(s.self.id)).1) == Err(Failed)
  {
  }

  class Kbucket {
    const config: KbConfig
    var routes: Routes
    const self: Node
    var store: Storage.Store
    const k: int
    const alpha: int

    ghost function Abs(): (st: State)
      reads this
    {
      State(routes, self, k, alpha, store)
    }

    ghost predicate Valid()
      reads this
    {
      Invariant(Abs())
    }

    /** `New`: an empty table and store, k = 8, alpha = 3. */
    constructor (config: KbConfig)
      ensures this.config == config
      ensures self == Node(config.id, config.localIP, config.port)
      ensures routes == map[] && store == map[]
      ensures k == KCOUNT && alpha == ALPHA
      ensures Valid()
    {
      this.config := config;
      self := Node(config.id, config.localIP, config.port);
      routes := map[];
      store := map[];
      k := KCOUNT;
      alpha := ALPHA;
    }

    /** `add`; a failed distance computation is only logged, the zero distance is used. */
    method Add(n: Node)
      requires Valid()
      modifies this`routes
      ensures Valid()
      ensures routes == AddRoutes(old(routes), self.id, k, n)
    {
      var d := CalDistance(n.id, self.id);
      var distance := if d.Ok? then d.value else [];
      var partion := Partition(distance);
      var que: Bucket;
      if partion !in routes {
        que := [];
      } else {
        que := routes[partion];
      }
      que := UpdateAdd(que, n, k);
      routes := routes[partion := que];
      AddKeepsTable(old(routes), self.id, k, n);
    }

    /** `remove`; a failed distance computation is only logged, the zero distance is used. */
    method Remove(n: Node)
      requires Valid()
      modifies this`routes
      ensures Valid()
      ensures routes == RemoveRoutes(old(routes), self.id, n)
    {
      var d := CalDistance(n.id, self.id);
      var distance := if d.Ok? then d.value else [];
      var partion := Partition(distance);
      if partion !in routes {
        return;
      }
      var que := routes[partion];
      que := KQue.Remove(que, n);
      routes := routes[partion := que];
      RemoveKeepsTable(old(routes), self.id, k, n);
    }

    /** The populated partition indices, in the map's iteration order. */
    method Partitions() returns (parts: seq<int>)
      ensures multiset(parts) == multiset(routes.Keys)
    {
      var pslice := new int[|routes.Keys|];
      var i := 0;
      var rest := routes.Keys;
      while rest != {}
        invariant 0 <= i <= pslice.Length
        invariant rest <= routes.Keys
        invariant i + |rest| == pslice.Length
        invariant multiset(pslice[..i]) + multiset(rest) == multiset(routes.Keys)
        decreases |rest|
      {
        Partions.NonEmptyHasMember(rest);
        var key :| key in rest;
        pslice[i] := key;
        assert pslice[..i + 1] == pslice[..i] + [key];
        assert multiset(rest) == multiset(rest - {key}) + multiset{key};
        i := i + 1;
        rest := rest - {key};
      }
      assert pslice[..] == pslice[..i];
      parts := pslice[..];
    }

    /** `find`: the value sent on the reply channel, None when it is closed without one. */
    method Find(nid: NodeID) returns (reply: Option<seq<Node>>)
      ensures reply == FindSpec(routes, self.id, alpha, nid)
      ensures nid == self.id ==> reply == None
    {
      var ns: seq<Node> := [];
      if self.id == nid {
        return None;
      }
      var dist := CalDistance(nid, self.id);
      if dist.Err? {
        return None;
      }
      var partion := Partition(dist.value);
      if partion in routes {
        var r := FindN(routes[partion], nid, alpha);
        if r.Err? {
          return None;
        }
        ns := r.value;
      }
      if alpha <= |ns| {
        return None;
      }
      assert FindSpec(routes, self.id, alpha, nid)
          == Widen(routes, nid, alpha, Partions.Order(routes.Keys, partion), ns);
      var parts := SortedPartitions(partion);
      reply := Widening(nid, parts, ns);
    }

    /** The populated partition indices sorted around base, as `find` and `findOne` build
        them. */
    method SortedPartitions(base: int) returns (parts: seq<int>)
      ensures parts == Partions.Order(routes.Keys, base)
    {
      parts := Partitions();
      Partions.SortIsOrder(base, parts, routes.Keys);
      parts := Partions.Sort(base, parts);
    }

    /** The widening pass of `find` over the sorted partitions, holding ns so far. */
    method Widening(nid: NodeID, parts: seq<int>, ns0: seq<Node>) returns (reply: Option<seq<Node>>)
      ensures reply == Widen(routes, nid, alpha, parts, ns0)
    {
      var ns := ns0;
      for j := 0 to |parts|
        invariant Widen(routes, nid, alpha, parts[j..], ns) == Widen(routes, nid, alpha, parts, ns0)
      {
        var v := parts[j];
        assert parts[j..][1..] == parts[j + 1..];
        if v in routes {
          var res := FindN(routes[v], nid, alpha - |ns|);
          if res.Err? {
            return None;
          }
          ns := ns + res.value;
          if alpha <= |ns| {
            break;
          }
        }
      }
      reply := Some(ns);
    }

    /** `findOne`: its return value (the run loop drops it). */
    method FindOne(nid: NodeID) returns (r: Result<Node>)
      ensures r == FindOneSpec(routes, self, nid)
      ensures nid == self.id ==> r == Ok(self)
    {
      if self.id == nid {
        return Ok(self);
      }
      var dist := CalDistance(nid, self.id);
      if dist.Err? {
        return Ok(NO_NODE);
      }
      var partion := Partition(dist.value);
      if partion in routes {
        var found := KQue.FindOne(routes[partion], nid);
        if found.Some? {
          return Ok(found.value);
        }
      }
      var parts := SortedPartitions(partion);
      var found := Probing(nid, parts);
      r := if found.Some? then Ok(found.value) else Err(NotFound);
    }

    /** The exact-match pass of `findOne` over the sorted partitions. */
    method Probing(nid: NodeID, parts: seq<int>) returns (found: Option<Node>)
      ensures found == Probe(routes, nid, parts)
    {
      for j := 0 to |parts|
        invariant Probe(routes, nid, parts[j..]) == Probe(routes, nid, parts)
      {
        var v := parts[j];
        assert parts[j..][1..] == parts[j + 1..];
        if v in routes {
          var hit := KQue.FindOne(routes[v], nid);
          if hit.Some? {
            return hit;
          }
        }
      }
      return None;
    }

    /** `storeKV`. */
    method StoreKV(key: string, value: string)
      modifies this`store
      ensures store == Storage.Put(old(store), key, value)
    {
      store := Storage.Put(store, key, value);
    }

    /** The body of `run` for one mailbox message. */
    method Handle(m: Note) returns (reply: Reply)
      requires Valid()
      modifies this`routes, this`store
      ensures Valid()
      ensures (Abs(), reply) == Step(old(Abs()), m)
    {
      match m
      case NAddNode(n) =>
        Add(n);
        reply := NoReply;
      case NDelNode(n) =>
        Remove(n);
        reply := NoReply;
      case NFind(id) =>
        var r := Find(id);
        reply := if r.Some? then Sent(r.value) else Closed;
      case NFindOne(id) =>
        var r := FindOne(id);
        reply := Unanswered(r);
      case NStore(key, value) =>
        StoreKV(key, value);
        reply := NoReply;
    }
  }
}
