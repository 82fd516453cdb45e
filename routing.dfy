/** The routing table as values: partition index to bucket, with what `add`, `remove`,
    `find` and `findOne` compute from it. */
module Routing {
  import opened Wrappers
  import opened NodeIds
  import opened KQue
  import Partions

  type Routes = map<int, Bucket>

  /** A missing partition stands for an empty bucket. */
  function BucketAt(routes: Routes, p: int): (b: Bucket) {
    if p in routes then routes[p] else []
  }

  /** Every bucket holds at most k nodes, no identifier twice, and only nodes of its own
      partition. */
  ghost predicate TableOk(routes: Routes, self: NodeID, k: int) {
    forall p :: p in routes ==>
      && |routes[p]| <= k
      && DistinctIds(routes[p])
      && forall x :: x in routes[p] ==> NodePartition(x.id, self) == p
  }

  ghost predicate InTable(routes: Routes, x: Node) {
    exists p :: p in routes && x in routes[p]
  }

  lemma InTableAt(routes: Routes, q: int, x: Node)
    requires q in routes && x in routes[q]
    ensures InTable(routes, x)
  {
  }

  /** `add`: the node's partition gets its bucket, fetched or created, after `updateAdd`. */
  function AddRoutes(routes: Routes, self: NodeID, k: int, n: Node): (r: Routes)
    ensures NodePartition(n.id, self) in r
    ensures r.Keys == routes.Keys + {NodePartition(n.id, self)}
    ensures forall q :: q in routes && q != NodePartition(n.id, self) ==> r[q] == routes[q]
  {
    var p := NodePartition(n.id, self);
    routes[p := UpdateAdd(BucketAt(routes, p), n, k)]
  }

  /** After `add` the node is the most recently seen entry of its bucket, unless that bucket
      was full without it, in which case the bucket is as it was. */
  lemma AddRecords(routes: Routes, self: NodeID, k: int, n: Node)
    ensures var b, r := BucketAt(routes, NodePartition(n.id, self)), AddRoutes(routes, self, k, n)[NodePartition(n.id, self)];
      && (HasId(b, n.id) || |b| < k ==> |r| > 0 && r[|r| - 1] == n)
      && (!HasId(b, n.id) && |b| >= k ==> r == b)
      && (forall x :: x in b && x.id != n.id ==> x in r)
  {
  }

  lemma AddKeepsTable(routes: Routes, self: NodeID, k: int, n: Node)
    requires k >= 0 && TableOk(routes, self, k)
    ensures TableOk(AddRoutes(routes, self, k, n), self, k)
  {
  }

  /** `remove`: nothing happens when the partition has no bucket; otherwise the node is
      dropped from its bucket, which stays in the table. */
  function RemoveRoutes(routes: Routes, self: NodeID, n: Node): (r: Routes)
    ensures NodePartition(n.id, self) !in routes ==> r == routes
    ensures r.Keys == routes.Keys
    ensures forall q :: q in routes && q != NodePartition(n.id, self) ==> r[q] == routes[q]
    ensures NodePartition(n.id, self) in routes ==>
      forall x :: x in r[NodePartition(n.id, self)] <==>
        x in routes[NodePartition(n.id, self)] && x.id != n.id
  {
    var p := NodePartition(n.id, self);
    if p !in routes then routes
    else routes[p := Remove(routes[p], n)]
  }

  lemma RemoveKeepsTable(routes: Routes, self: NodeID, k: int, n: Node)
    requires TableOk(routes, self, k)
    ensures TableOk(RemoveRoutes(routes, self, n), self, k)
  {
    var p := NodePartition(n.id, self);
    if p in routes {
      RemoveDistinct(routes[p], n);
    }
  }

  /** The widening pass of `find`: probe the partitions in order, asking each populated one
      for the remaining quota, appending in visiting order, stopping once alpha nodes are
      held; a failed probe abandons the search. */
  function Widen(routes: Routes, nid: NodeID, alpha: int, parts: seq<int>, ns: seq<Node>)
    : (reply: Option<seq<Node>>)
    decreases |parts|
  {
    if parts == [] then Some(ns)
    else if parts[0] !in routes then Widen(routes, nid, alpha, parts[1..], ns)
    else
      match FindN(routes[parts[0]], nid, alpha - |ns|)
      case Err(_) => None
      case Ok(res) =>
        if alpha <= |ns + res| then Some(ns + res)
        else Widen(routes, nid, alpha, parts[1..], ns + res)
  }

  /** What `find` sends on its reply channel; None when the channel is closed without a
      value. */
  ghost function FindSpec(routes: Routes, self: NodeID, alpha: int, nid: NodeID)
    : (reply: Option<seq<Node>>)
  {
    if self == nid then None
    else
      match CalDistance(nid, self)
      case Err(_) => None
      case Ok(d) =>
        var p := Partition(d);
        var base := if p in routes then FindN(routes[p], nid, alpha) else Ok([]);
        if base.Err? then None
        else if alpha <= |base.value| then None
        else Widen(routes, nid, alpha, Partions.Order(routes.Keys, p), base.value)
  }

  lemma {:induction false} WidenBounded(routes: Routes, nid: NodeID, alpha: int,
                                        parts: seq<int>, ns: seq<Node>)
    requires |ns| < alpha
    ensures Widen(routes, nid, alpha, parts, ns).Some? ==>
      |Widen(routes, nid, alpha, parts, ns).value| <= alpha &&
      ns <= Widen(routes, nid, alpha, parts, ns).value
    decreases |parts|
  {
    if parts != [] {
      if parts[0] !in routes {
        WidenBounded(routes, nid, alpha, parts[1..], ns);
      } else if FindN(routes[parts[0]], nid, alpha - |ns|).Ok? {
        var res := FindN(routes[parts[0]], nid, alpha - |ns|).value;
        if |ns + res| < alpha {
          WidenBounded(routes, nid, alpha, parts[1..], ns + res);
        }
      }
    }
  }

  /** How many nodes the populated buckets among parts hold together. */
  function Held(routes: Routes, parts: seq<int>): (total: nat)
    decreases |parts|
  {
    if parts == [] then 0
    else (if parts[0] in routes then |routes[parts[0]]| else 0) + Held(routes, parts[1..])
  }

  /** A bucket holding a node of another width makes `findN` fail, and the widening pass gives
      up without a value once it reaches that bucket, provided the buckets before it could
      not fill the quota. */
  lemma {:induction false} WidenAbandons(routes: Routes, nid: NodeID, alpha: int,
                                         parts: seq<int>, ns: seq<Node>, j: int)
    requires 0 <= j < |parts| && parts[j] in routes
    requires exists x :: x in routes[parts[j]] && |x.id| != |nid|
    requires |ns| + Held(routes, parts[..j]) < alpha
    ensures Widen(routes, nid, alpha, parts, ns) == None
    decreases j
  {
    if j > 0 {
      assert parts[..j][0] == parts[0] && parts[..j][1..] == parts[1..][..j - 1];
      if parts[0] in routes && FindN(routes[parts[0]], nid, alpha - |ns|).Ok? {
        var res := FindN(routes[parts[0]], nid, alpha - |ns|).value;
        assert |ns + res| < alpha;
        WidenAbandons(routes, nid, alpha, parts[1..], ns + res, j - 1);
      } else if parts[0] !in routes {
        WidenAbandons(routes, nid, alpha, parts[1..], ns, j - 1);
      }
    }
  }

  lemma AppendFromTable(routes: Routes, q: int, ns: seq<Node>, res: seq<Node>)
    requires q in routes && forall x :: x in res ==> x in routes[q]
    requires forall x :: x in ns ==> InTable(routes, x)
    ensures forall x :: x in ns + res ==> InTable(routes, x)
  {
    forall x | x in ns + res ensures InTable(routes, x) {
      if x !in ns {
        assert x in res;
      }
    }
  }

  lemma {:induction false} WidenFromTable(routes: Routes, nid: NodeID, alpha: int,
                                          parts: seq<int>, ns: seq<Node>)
    requires forall x :: x in ns ==> InTable(routes, x)
    ensures Widen(routes, nid, alpha, parts, ns).Some? ==>
      forall x :: x in Widen(routes, nid, alpha, parts, ns).value ==> InTable(routes, x)
    decreases |parts|
  {
    if parts != [] {
      if parts[0] !in routes {
        WidenFromTable(routes, nid, alpha, parts[1..], ns);
      } else if FindN(routes[parts[0]], nid, alpha - |ns|).Ok? {
        var res := FindN(routes[parts[0]], nid, alpha - |ns|).value;
        AppendFromTable(routes, parts[0], ns, res);
        WidenFromTable(routes, nid, alpha, parts[1..], ns + res);
      }
    }
  }

  /** The base bucket's answer is drawn from the table. */
  lemma BaseFromTable(routes: Routes, p: int, nid: NodeID, alpha: int)
    ensures var base := if p in routes then FindN(routes[p], nid, alpha) else Ok([]);
      base.Ok? ==> forall x :: x in base.value ==> InTable(routes, x)
  {
    if p in routes && FindN(routes[p], nid, alpha).Ok? {
      AppendFromTable(routes, p, [], FindN(routes[p], nid, alpha).value);
      assert [] + FindN(routes[p], nid, alpha).value == FindN(routes[p], nid, alpha).value;
    }
  }

  /** `find` never hands back more than alpha nodes, every one of them a node of the table,
      the base bucket's answers first. */
  lemma FindBounded(routes: Routes, self: NodeID, alpha: int, nid: NodeID)
    ensures FindSpec(routes, self, alpha, nid).Some? ==>
      var r := FindSpec(routes, self, alpha, nid).value;
      && |r| <= alpha
      && forall x :: x in r ==> InTable(routes, x)
  {
    if self != nid && |nid| == |self| {
      var p := Partition(CalDistance(nid, self).value);
      var base := if p in routes then FindN(routes[p], nid, alpha) else Ok([]);
      if base.Ok? && |base.value| < alpha {
        var parts := Partions.Order(routes.Keys, p);
        assert FindSpec(routes, self, alpha, nid) == Widen(routes, nid, alpha, parts, base.value);
        WidenBounded(routes, nid, alpha, parts, base.value);
        BaseFromTable(routes, p, nid, alpha);
        WidenFromTable(routes, nid, alpha, parts, base.value);
      }
    }
  }

  /** The exact-match pass of `findOne`: the first probed bucket reporting nid. */
  function Probe(routes: Routes, nid: NodeID, parts: seq<int>): (r: Option<Node>)
    ensures r.Some? ==> r.value.id == nid && InTable(routes, r.value)
  {
    if parts == [] then None
    else if parts[0] in routes && FindOne(routes[parts[0]], nid).Some? then
      var r := FindOne(routes[parts[0]], nid);
      InTableAt(routes, parts[0], r.value);
      r
    else Probe(routes, nid, parts[1..])
  }

  lemma {:induction false} ProbeNone(routes: Routes, nid: NodeID, parts: seq<int>)
    ensures Probe(routes, nid, parts).None? <==>
      forall q :: q in parts && q in routes ==> !HasId(routes[q], nid)
  {
    if parts != [] {
      ProbeNone(routes, nid, parts[1..]);
      assert forall q :: q in parts <==> q == parts[0] || q in parts[1..] by {
        assert parts == [parts[0]] + parts[1..];
      }
    }
  }

  /** What `findOne` returns: the local node for the local identifier, the zero node when the
      distance cannot be computed, else the first match in the base bucket, then in the
      sorted partitions, else NOT FOUND. */
  ghost function FindOneSpec(routes: Routes, self: Node, nid: NodeID): (r: Result<Node>) {
    if self.id == nid then Ok(self)
    else
      match CalDistance(nid, self.id)
      case Err(_) => Ok(NO_NODE)
      case Ok(d) =>
        var p := Partition(d);
        if p in routes && FindOne(routes[p], nid).Some? then Ok(FindOne(routes[p], nid).value)
        else
          match Probe(routes, nid, Partions.Order(routes.Keys, p))
          case Some(n) => Ok(n)
          case None => Err(NotFound)
  }

  /** `findOne` on a comparable identifier other than the local one answers with a node of
      the table carrying that identifier, and reports NOT FOUND exactly when no bucket holds
      it. */
  lemma FindOneCorrect(routes: Routes, self: Node, nid: NodeID)
    requires nid != self.id && |nid| == |self.id|
    ensures FindOneSpec(routes, self, nid) == Err(NotFound) <==>
      forall q :: q in routes ==> !HasId(routes[q], nid)
    ensures FindOneSpec(routes, self, nid).Ok? ==>
      FindOneSpec(routes, self, nid).value.id == nid &&
      InTable(routes, FindOneSpec(routes, self, nid).value)
  {
    var p := Partition(CalDistance(nid, self.id).value);
    var parts := Partions.Order(routes.Keys, p);
    ProbeNone(routes, nid, parts);
    if p in routes && FindOne(routes[p], nid).Some? {
      var n := FindOne(routes[p], nid).value;
      InTableAt(routes, p, n);
      assert FindOneSpec(routes, self, nid) == Ok(n);
    } else {
      assert FindOneSpec(routes, self, nid)
          == if Probe(routes, nid, parts).Some? then Ok(Probe(routes, nid, parts).value)
             else Err(NotFound);
    }
  }
}
