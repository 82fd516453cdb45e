/** Three places where `find` and `findOne` do not do what their callers rely on, each shown
    on the as-written model and paired with the evidently intended behaviour. */
module Findings {
  import opened Wrappers
  import opened NodeIds
  import opened KQue
  import opened Routing
  import opened Kbucket
  import Partions

  const F := false
  const T := true

  const SELF_ID: NodeID := [F, F, F, F]
  const N1 := Node([F, F, F, T], "", 0)
  const N2 := Node([F, F, T, F], "", 0)
  const N3 := Node([F, F, T, T], "", 0)

  /** 0001 lies in partition 0; 0010 and 0011 in partition 1. */
  const TABLE: Routes := map[0 := [N1], 1 := [N2, N3]]

  lemma ExamplePartitions()
    ensures NodePartition(N1.id, SELF_ID) == 0
    ensures NodePartition(N2.id, SELF_ID) == 1
    ensures NodePartition(N3.id, SELF_ID) == 1
  {
    assert CalDistance(N1.id, SELF_ID).value == N1.id;
    assert CalDistance(N2.id, SELF_ID).value == N2.id;
    assert CalDistance(N3.id, SELF_ID).value == N3.id;
  }

  lemma BucketsOfExample()
    ensures DistinctIds([N1]) && DistinctIds([N2, N3])
    ensures forall x :: x in [N1] ==> NodePartition(x.id, SELF_ID) == 0
    ensures forall x :: x in [N2, N3] ==> NodePartition(x.id, SELF_ID) == 1
  {
    ExamplePartitions();
    assert [N1][1..] == [];
    assert [N2, N3][1..] == [N3] && [N3][1..] == [];
    assert !HasId([N3], N2.id);
  }

  /** The example table satisfies the invariant `add` and `remove` keep: small buckets,
      distinct identifiers, every node in its own partition. */
  lemma TableIsValid()
    ensures TableOk(TABLE, SELF_ID, KCOUNT)
  {
    BucketsOfExample();
    TableEntries();
  }

  /** The state `New` builds for identifier 0000, before any message. */
  const START := State(map[], Node(SELF_ID, "", 0), KCOUNT, ALPHA, map[])

  lemma FirstAdds()
    ensures Step(START, NAddNode(N1)).0.routes == map[0 := [N1]]
    ensures Step(Step(START, NAddNode(N1)).0, NAddNode(N2)).0.routes == map[0 := [N1], 1 := [N2]]
  {
    ExamplePartitions();
    assert UpdateAdd([], N1, KCOUNT) == [N1];
    assert UpdateAdd([], N2, KCOUNT) == [N2];
  }

  lemma ThirdAdd(s: State)
    requires s.routes == map[0 := [N1], 1 := [N2]] && s.self == START.self && s.k == KCOUNT
    ensures Step(s, NAddNode(N3)).0.routes == TABLE
  {
    ExamplePartitions();
    AppendN3();
  }

  lemma AppendN3()
    ensures UpdateAdd([N2], N3, KCOUNT) == [N2, N3]
  {
    assert !HasId([N2], N3.id);
  }

  /** A one-bit identifier: it cannot be compared with the four-bit local identifier. */
  const NARROW := Node([T], "", 0)

  /** Under the assumed partition -1 for an incomparable identifier, `add` files NARROW there,
      and a later `find` for 0011 probes that bucket in its widening pass, where `findN` fails,
      so the channel is closed without a value. */
  lemma NarrowAddThenFind()
    ensures Step(START, NAddNode(NARROW)).0.routes == map[-1 := [NARROW]]
    ensures Step(Step(START, NAddNode(NARROW)).0, NFind(N3.id)).1 == Closed
  {
    var s := Step(START, NAddNode(NARROW)).0;
    assert CalDistance(NARROW.id, SELF_ID).Err?;
    assert NodePartition(NARROW.id, SELF_ID) == -1;
    assert UpdateAdd([], NARROW, KCOUNT) == [NARROW];
    assert s.routes == map[-1 := [NARROW]];
    BasePartition();
    assert 1 !in s.routes && s.routes.Keys == {-1};
    var parts := Partions.Order(s.routes.Keys, 1);
    assert parts == [-1] by {
      assert |parts| == 1 && -1 in parts;
    }
    assert NARROW in s.routes[-1] && |NARROW.id| != |N3.id|;
    assert parts[..0] == [];
    WidenAbandons(s.routes, N3.id, ALPHA, parts, [], 0);
    assert FindSpec(s.routes, SELF_ID, ALPHA, N3.id) == Widen(s.routes, N3.id, ALPHA, parts, []);
  }

  /** Running three adds is doing the three steps in turn. */
  lemma RunThree(s: State, a: Node, b: Node, c: Node)
    ensures Run(s, Adds([a, b, c])) ==
      Step(Step(Step(s, NAddNode(a)).0, NAddNode(b)).0, NAddNode(c)).0
  {
    var s1 := Step(s, NAddNode(a)).0;
    var s2 := Step(s1, NAddNode(b)).0;
    RunCons(s, [a, b, c]);
    assert [a, b, c][1..] == [b, c];
    RunCons(s1, [b, c]);
    assert [b, c][1..] == [c];
    RunCons(s2, [c]);
    assert [c][1..] == [] && Adds([]) == [];
  }

  /** The example table is the one three adds build from the state `New` starts in. */
  lemma BuiltByAdds()
    ensures Run(START, Adds([N1, N2, N3])).routes == TABLE
  {
    RunThree(START, N1, N2, N3);
    FirstAdds();
    ThirdAdd(Step(Step(START, NAddNode(N1)).0, NAddNode(N2)).0);
  }

  lemma BasePartition()
    ensures CalDistance(N3.id, SELF_ID) == Ok(N3.id)
    ensures Partition(N3.id) == 1
  {
    assert CalDistance(N3.id, SELF_ID).value == N3.id;
    assert N3.id[1..] == [F, T, T] && [F, T, T][1..] == [T, T];
    assert Partition([T, T]) == 1;
    assert Partition([F, T, T]) == 1;
  }

  lemma DistancesToN3()
    ensures DistanceTo(N1, N3.id) == [F, F, T, F]
    ensures DistanceTo(N2, N3.id) == [F, F, F, T]
    ensures DistanceTo(N3, N3.id) == [F, F, F, F]
  {
    assert CalDistance(N1.id, N3.id).value == [F, F, T, F];
    assert CalDistance(N2.id, N3.id).value == [F, F, F, T];
    assert CalDistance(N3.id, N3.id).value == [F, F, F, F];
  }

  lemma N3BeforeN2()
    ensures !NoFarther(DistanceTo(N2, N3.id), DistanceTo(N3, N3.id))
  {
    DistancesToN3();
    assert [F, F, F, T][1..] == [F, F, T] && [F, F, T][1..] == [F, T] && [F, T][1..] == [T];
    assert [F, F, F, F][1..] == [F, F, F] && [F, F, F][1..] == [F, F] && [F, F][1..] == [F];
    assert !NoFarther([T], [F]);
    assert !NoFarther([F, T], [F, F]);
    assert !NoFarther([F, F, T], [F, F, F]);
  }

  lemma SortedPartitionOne()
    ensures SortByDistance([N2, N3], N3.id) == [N3, N2]
  {
    assert SortByDistance([N3], N3.id) == [N3] by {
      assert [N3][1..] == [];
    }
    assert [N2, N3][1..] == [N3];
    N3BeforeN2();
    assert InsertByDistance(N2, [N3], N3.id) == [N3] + InsertByDistance(N2, [], N3.id);
  }

  lemma TableEntries()
    ensures TABLE.Keys == {0, 1}
    ensures TABLE.Keys - {1} == {0}
    ensures 0 in TABLE && TABLE[0] == [N1]
    ensures 1 in TABLE && TABLE[1] == [N2, N3]
  {
  }

  lemma ProbesOfExample()
    ensures FindN([N2, N3], N3.id, 3) == Ok([N3, N2])
    ensures FindN([N2, N3], N3.id, 1) == Ok([N3])
    ensures FindN([N1], N3.id, 1) == Ok([N1])
  {
    SortedPartitionOne();
    assert forall x :: x in [N2, N3] ==> |x.id| == |N3.id|;
    assert forall x :: x in [N1] ==> |x.id| == |N3.id|;
    assert [N3, N2][..2] == [N3, N2] && [N3, N2][..1] == [N3];
    assert SortByDistance([N1], N3.id) == [N1] by {
      assert [N1][1..] == [];
    }
    assert [N1][..1] == [N1];
  }

  lemma SortOfExample()
    ensures Partions.Sort(1, [1, 0]) == [1, 0]
    ensures Partions.Sort(1, [0]) == [0]
  {
    assert [1, 0][1..] == [0] && [0][1..] == [];
    assert Partions.Sort(1, []) == [];
    assert Partions.Insert(1, 0, []) == [0];
    assert Partions.Precedes(1, 1, 0);
    assert Partions.Insert(1, 1, [0]) == [1] + [0];
  }

  lemma OrderOfExample()
    ensures Partions.Order({0, 1}, 1) == [1, 0]
  {
    SortOfExample();
    assert multiset([1, 0]) == multiset({0, 1});
    Partions.SortIsOrder(1, [1, 0], {0, 1});
  }

  lemma OrderOfRest()
    ensures Partions.Order({0}, 1) == [0]
  {
    SortOfExample();
    assert multiset([0]) == multiset({0});
    Partions.SortIsOrder(1, [0], {0});
  }

  lemma WidenOnExample()
    ensures Widen(TABLE, N3.id, 3, [1, 0], [N3, N2]) == Some([N3, N2, N3])
  {
    TableEntries();
    ProbesOfExample();
    assert [N3, N2] + [N3] == [N3, N2, N3];
  }

  lemma WidenOnRest()
    ensures Widen(TABLE, N3.id, 3, [0], [N3, N2]) == Some([N3, N2, N1])
  {
    TableEntries();
    ProbesOfExample();
    assert [N3, N2] + [N1] == [N3, N2, N1];
  }

  /** As written, the widening pass probes the base partition again, so looking up 0011 from
      0000 with alpha = 3 answers 0011 twice and never reaches 0001. */
  lemma WideningRepeatsBase()
    ensures FindSpec(TABLE, SELF_ID, ALPHA, N3.id) == Some([N3, N2, N3])
  {
    TableEntries();
    BasePartition();
    ProbesOfExample();
    OrderOfExample();
    WidenOnExample();
  }

  /** As written, whenever the base bucket alone can fill the quota, `find` closes the channel
      without sending and `Find` reports failure. */
  lemma BaseFullFails(s: State, nid: NodeID)
    requires nid != s.self.id && |nid| == |s.self.id|
    requires Partition(CalDistance(nid, s.self.id).value) in s.routes
    requires forall x :: x in s.routes[Partition(CalDistance(nid, s.self.id).value)] ==>
      |x.id| == |nid|
    requires 0 <= s.alpha <= |s.routes[Partition(CalDistance(nid, s.self.id).value)]|
    ensures FindSpec(s.routes, s.self.id, s.alpha, nid) == None
    ensures Step(s, NFind(nid)).1 == Closed
    ensures FindResult(Step(s, NFind(nid)).1) == Err(Failed)
  {
  }

  /** `find` as intended: the base bucket's answer is sent when it fills the quota, and the
      widening pass probes the other populated partitions only. */
  ghost function FindIntended(routes: Routes, self: NodeID, alpha: int, nid: NodeID)
    : (reply: Option<seq<Node>>)
  {
    if self == nid then None
    else
      match CalDistance(nid, self)
      case Err(_) => None
      case Ok(d) =>
        var p := Partition(d);
        var base := if p in routes then FindN(routes[p], nid, alpha) else Ok([]);
        if base.Err? then None
        else if alpha <= |base.value| then Some(base.value)
        else Widen(routes, nid, alpha, Partions.Order(routes.Keys - {p}, p), base.value)
  }

  /** With a base bucket able to fill the quota, the intended `find` answers with exactly
      alpha nodes. */
  lemma IntendedBaseFullAnswers(routes: Routes, self: NodeID, alpha: int, nid: NodeID)
    requires nid != self && |nid| == |self|
    requires Partition(CalDistance(nid, self).value) in routes
    requires forall x :: x in routes[Partition(CalDistance(nid, self).value)] ==> |x.id| == |nid|
    requires 0 <= alpha <= |routes[Partition(CalDistance(nid, self).value)]|
    ensures FindIntended(routes, self, alpha, nid).Some?
    ensures |FindIntended(routes, self, alpha, nid).value| == alpha
  {
  }

  /** The intended `find` never answers more than alpha nodes, all of them from the table. */
  lemma IntendedBounded(routes: Routes, self: NodeID, alpha: int, nid: NodeID)
    requires alpha >= 0
    ensures FindIntended(routes, self, alpha, nid).Some? ==>
      var r := FindIntended(routes, self, alpha, nid).value;
      && |r| <= alpha
      && forall x :: x in r ==> InTable(routes, x)
  {
    if self != nid && |nid| == |self| {
      var p := Partition(CalDistance(nid, self).value);
      var base := if p in routes then FindN(routes[p], nid, alpha) else Ok([]);
      if base.Ok? {
        BaseFromTable(routes, p, nid, alpha);
        if |base.value| < alpha {
          var parts := Partions.Order(routes.Keys - {p}, p);
          assert FindIntended(routes, self, alpha, nid) == Widen(routes, nid, alpha, parts, base.value);
          WidenBounded(routes, nid, alpha, parts, base.value);
          WidenFromTable(routes, nid, alpha, parts, base.value);
        } else {
          assert FindIntended(routes, self, alpha, nid) == Some(base.value);
        }
      }
    }
  }

  /** On a valid table, a probe answers distinct nodes of the probed partition. */
  lemma ProbedSound(routes: Routes, self: NodeID, k: int, q: int, nid: NodeID, n: int)
    requires TableOk(routes, self, k) && q in routes
    ensures FindN(routes[q], nid, n).Ok? ==>
      && DistinctIds(FindN(routes[q], nid, n).value)
      && forall y :: y in FindN(routes[q], nid, n).value ==> NodePartition(y.id, self) == q
  {
  }

  /** One probe of the intended widening pass adds only identifiers of a partition not yet
      visited, so none of them is held already. */
  lemma ProbeDisjoint(self: NodeID, q: int, ns: seq<Node>, res: seq<Node>, seen: set<int>)
    requires DistinctIds(ns) && DistinctIds(res)
    requires forall x :: x in ns ==> NodePartition(x.id, self) in seen
    requires forall y :: y in res ==> NodePartition(y.id, self) == q
    requires q !in seen
    ensures DistinctIds(ns + res)
    ensures forall x :: x in ns + res ==> NodePartition(x.id, self) in seen + {q}
  {
    forall y | y in res ensures !HasId(ns, y.id) {
      forall x | x in ns ensures x.id != y.id {
        assert NodePartition(x.id, self) != NodePartition(y.id, self);
      }
    }
    DistinctAppend(ns, res);
  }

  lemma {:induction false} WidenDistinct(routes: Routes, self: NodeID, k: int, nid: NodeID,
                                         alpha: int, parts: seq<int>, ns: seq<Node>,
                                         seen: set<int>)
    requires TableOk(routes, self, k)
    requires DistinctIds(ns)
    requires forall x :: x in ns ==> NodePartition(x.id, self) in seen
    requires Partions.NoDup(parts)
    requires forall q :: q in parts ==> q !in seen
    ensures Widen(routes, nid, alpha, parts, ns).Some? ==>
      DistinctIds(Widen(routes, nid, alpha, parts, ns).value)
    decreases |parts|, 1
  {
    if parts != [] {
      if parts[0] in routes {
        WidenDistinctProbe(routes, self, k, nid, alpha, parts, ns, seen);
      } else {
        assert forall r :: r in parts[1..] ==> r in parts;
        WidenDistinct(routes, self, k, nid, alpha, parts[1..], ns, seen);
      }
    }
  }

  /** The step of WidenDistinct where the next partition is populated. */
  lemma {:induction false} WidenDistinctProbe(routes: Routes, self: NodeID, k: int, nid: NodeID,
                                              alpha: int, parts: seq<int>, ns: seq<Node>,
                                              seen: set<int>)
    requires TableOk(routes, self, k)
    requires DistinctIds(ns)
    requires forall x :: x in ns ==> NodePartition(x.id, self) in seen
    requires Partions.NoDup(parts)
    requires forall q :: q in parts ==> q !in seen
    requires parts != [] && parts[0] in routes
    ensures Widen(routes, nid, alpha, parts, ns).Some? ==>
      DistinctIds(Widen(routes, nid, alpha, parts, ns).value)
    decreases |parts|, 0
  {
    var q, rest := parts[0], parts[1..];
    if FindN(routes[q], nid, alpha - |ns|).Ok? {
      var res := FindN(routes[q], nid, alpha - |ns|).value;
      assert q in parts;
      ProbedSound(routes, self, k, q, nid, alpha - |ns|);
      ProbeDisjoint(self, q, ns, res, seen);
      if |ns + res| < alpha {
        assert q !in rest;
        assert forall r :: r in rest ==> r in parts && r != q;
        WidenDistinct(routes, self, k, nid, alpha, rest, ns + res, seen + {q});
      }
    }
  }

  /** On a well-formed table the intended `find` never answers the same identifier twice. */
  lemma IntendedDistinct(routes: Routes, self: NodeID, k: int, alpha: int, nid: NodeID)
    requires TableOk(routes, self, k)
    ensures FindIntended(routes, self, alpha, nid).Some? ==>
      DistinctIds(FindIntended(routes, self, alpha, nid).value)
  {
    if nid != self && |nid| == |self| {
      var p := Partition(CalDistance(nid, self).value);
      var base := if p in routes then FindN(routes[p], nid, alpha) else Ok([]);
      if base.Ok? && |base.value| < alpha {
        if p in routes {
          forall x | x in base.value ensures NodePartition(x.id, self) in {p} {
            assert x in routes[p];
          }
        }
        WidenDistinct(routes, self, k, nid, alpha, Partions.Order(routes.Keys - {p}, p),
                      base.value, {p});
      }
    }
  }

  /** On the example table the intended `find` answers the three distinct nodes. */
  lemma IntendedOnExample()
    ensures FindIntended(TABLE, SELF_ID, ALPHA, N3.id) == Some([N3, N2, N1])
  {
    TableEntries();
    BasePartition();
    ProbesOfExample();
    OrderOfRest();
    WidenOnRest();
  }

  /** As written, `findOne`'s answer never reaches the caller: its reply channel is neither
      written nor closed, so `FindOne` waits forever. */
  lemma FindOneLeavesCallerWaiting(s: State, id: NodeID)
    ensures Step(s, NFindOne(id)).1.Unanswered?
    ensures Step(s, NFindOne(id)).1 != Closed && !Step(s, NFindOne(id)).1.Sent?
  {
  }

  /** What `FindOne` returns once `findOne` sends its node, or closes the channel on failure. */
  ghost function FindOneIntended(s: State, id: NodeID): (r: Result<Node>)
    ensures id == s.self.id ==> r == Ok(s.self)
    ensures id != s.self.id && |id| == |s.self.id| ==>
      && (r.Err? <==> forall q :: q in s.routes ==> !HasId(s.routes[q], id))
      && (r.Err? ==> r.error == Failed)
      && (r.Ok? ==> r.value.id == id && InTable(s.routes, r.value))
  {
    var r := match FindOneSpec(s.routes, s.self, id)
      case Ok(n) => Ok(n)
      case Err(_) => Err(Failed);
    if id != s.self.id && |id| == |s.self.id| then
      FindOneCorrect(s.routes, s.self, id);
      r
    else r
  }
}
