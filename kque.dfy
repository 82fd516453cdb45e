/** A bucket (KQue): the peers of one partition, least recently seen first, at most `cap` of
    them. Peers are told apart by identifier. */
module KQue {
  import opened Wrappers
  import opened NodeIds

  type Bucket = seq<Node>

  predicate HasId(b: Bucket, id: NodeID) {
    exists x :: x in b && x.id == id
  }

  /** No identifier occurs twice. */
  predicate DistinctIds(b: Bucket) {
    b == [] || (!HasId(b[1..], b[0].id) && DistinctIds(b[1..]))
  }

  /** Drops every entry with n's identifier, keeping the order of the rest. */
  function Remove(b: Bucket, n: Node): (r: Bucket)
    ensures forall x :: x in r <==> x in b && x.id != n.id
    ensures |r| <= |b|
  {
    if b == [] then []
    else if b[0].id == n.id then Remove(b[1..], n)
    else
      var r := Remove(b[1..], n);
      assert forall x :: x in b <==> x == b[0] || x in b[1..] by { assert b == [b[0]] + b[1..]; }
      [b[0]] + r
  }

  lemma {:induction false} RemoveAbsent(b: Bucket, n: Node)
    requires !HasId(b, n.id)
    ensures Remove(b, n) == b
  {
    if b != [] {
      assert b[0] in b;
      assert !HasId(b[1..], n.id) by {
        forall x | x in b[1..] ensures x.id != n.id { assert x in b; }
      }
      RemoveAbsent(b[1..], n);
    }
  }

  lemma {:induction false} RemovePresent(b: Bucket, n: Node)
    requires HasId(b, n.id)
    ensures |Remove(b, n)| < |b|
    ensures DistinctIds(b) ==> |Remove(b, n)| == |b| - 1
  {
    if b[0].id == n.id {
      if DistinctIds(b) {
        RemoveAbsent(b[1..], n);
      }
    } else {
      var x :| x in b && x.id == n.id;
      assert x in b[1..] by { assert b == [b[0]] + b[1..]; }
      RemovePresent(b[1..], n);
    }
  }

  lemma {:induction false} RemoveDistinct(b: Bucket, n: Node)
    requires DistinctIds(b)
    ensures DistinctIds(Remove(b, n))
  {
    if b != [] {
      RemoveDistinct(b[1..], n);
      if b[0].id != n.id {
        var r := Remove(b[1..], n);
        assert ([b[0]] + r)[1..] == r;
      }
    }
  }

  /** Two buckets with distinct identifiers and no identifier in common join into one. */
  lemma {:induction false} DistinctAppend(a: Bucket, c: Bucket)
    requires DistinctIds(a) && DistinctIds(c)
    requires forall x :: x in c ==> !HasId(a, x.id)
    ensures DistinctIds(a + c)
  {
    if a == [] {
      assert a + c == c;
    } else {
      assert (a + c)[0] == a[0] && (a + c)[1..] == a[1..] + c;
      assert a[0] in a;
      forall x | x in c ensures !HasId(a[1..], x.id) {
        forall y | y in a[1..] ensures y.id != x.id {
          assert y in a;
        }
      }
      DistinctAppend(a[1..], c);
      forall y | y in a[1..] + c ensures y.id != a[0].id {
        if y in c {
          assert !HasId(a, y.id);
        }
      }
    }
  }

  /** The two halves of a bucket with distinct identifiers share no identifier. */
  lemma {:induction false} DistinctSplit(a: Bucket, c: Bucket)
    requires DistinctIds(a + c)
    ensures DistinctIds(c)
    ensures forall x :: x in c ==> !HasId(a, x.id)
  {
    if a == [] {
      assert a + c == c;
    } else {
      assert (a + c)[0] == a[0] && (a + c)[1..] == a[1..] + c;
      DistinctSplit(a[1..], c);
      forall x | x in c ensures !HasId(a, x.id) {
        assert x in (a + c)[1..];
        assert forall y :: y in a ==> y == a[0] || y in a[1..] by {
          assert a == [a[0]] + a[1..];
        }
      }
    }
  }

  /** A node whose identifier is new to the bucket can be appended. */
  lemma AppendDistinct(b: Bucket, n: Node)
    requires DistinctIds(b) && !HasId(b, n.id)
    ensures DistinctIds(b + [n])
  {
    DistinctAppend(b, [n]);
  }

  /** Records that n was seen: a known identifier moves to the most recently seen end (with
      n's address), a new one is appended while the bucket has room, and a full bucket
      discards the newcomer. */
  function UpdateAdd(b: Bucket, n: Node, cap: int): (r: Bucket)
    ensures forall x :: x in r ==> x == n || x in b
    ensures |b| <= cap ==> |r| <= cap
    ensures DistinctIds(b) ==> DistinctIds(r)
    ensures HasId(b, n.id) ==> |r| > 0 && r[|r| - 1] == n && forall x :: x in b && x.id != n.id ==> x in r
    ensures HasId(b, n.id) && DistinctIds(b) ==> |r| == |b|
    ensures !HasId(b, n.id) && |b| < cap ==> r == b + [n]
    ensures !HasId(b, n.id) && |b| >= cap ==> r == b
  {
    if HasId(b, n.id) then
      var rest := Remove(b, n);
      RemovePresent(b, n);
      if DistinctIds(b) then
        RemoveDistinct(b, n);
        AppendDistinct(rest, n);
        rest + [n]
      else rest + [n]
    else if |b| < cap then
      if DistinctIds(b) then
        AppendDistinct(b, n);
        b + [n]
      else b + [n]
    else b
  }

  /** Exact identifier lookup. */
  function FindOne(b: Bucket, id: NodeID): (r: Option<Node>)
    ensures r.Some? <==> HasId(b, id)
    ensures r.Some? ==> r.value in b && r.value.id == id
  {
    if b == [] then None
    else if b[0].id == id then Some(b[0])
    else
      assert forall x :: x in b <==> x == b[0] || x in b[1..] by { assert b == [b[0]] + b[1..]; }
      FindOne(b[1..], id)
  }

  function DistanceTo(x: Node, id: NodeID): (d: Distance) {
    DistanceOr0(x.id, id)
  }

  /** Nearest to id first. */
  predicate SortedByDistance(s: seq<Node>, id: NodeID) {
    forall i :: 0 < i < |s| ==> NoFarther(DistanceTo(s[i - 1], id), DistanceTo(s[i], id))
  }

  function InsertByDistance(x: Node, s: seq<Node>, id: NodeID): (r: seq<Node>)
    requires SortedByDistance(s, id)
    ensures SortedByDistance(r, id)
    ensures multiset(r) == multiset(s) + multiset{x}
    ensures r[0] == x || (s != [] && r[0] == s[0])
  {
    if s == [] then [x]
    else if NoFarther(DistanceTo(x, id), DistanceTo(s[0], id)) then
      ConsSorted(x, s, id);
      [x] + s
    else
      var r := InsertByDistance(x, s[1..], id);
      InsertBehind(x, s, id, r);
      [s[0]] + r
  }

  /** x goes behind the head of s: the head followed by x inserted into the tail is sorted and
      holds x and the elements of s. */
  lemma InsertBehind(x: Node, s: seq<Node>, id: NodeID, r: seq<Node>)
    requires SortedByDistance(s, id) && s != []
    requires !NoFarther(DistanceTo(x, id), DistanceTo(s[0], id))
    requires SortedByDistance(r, id) && multiset(r) == multiset(s[1..]) + multiset{x}
    requires r[0] == x || (s[1..] != [] && r[0] == s[1..][0])
    ensures SortedByDistance([s[0]] + r, id)
    ensures multiset([s[0]] + r) == multiset(s) + multiset{x}
  {
    NoFartherTotal(DistanceTo(x, id), DistanceTo(s[0], id));
    assert s == [s[0]] + s[1..];
    ConsSorted(s[0], r, id);
  }

  lemma ConsSorted(y: Node, r: seq<Node>, id: NodeID)
    requires SortedByDistance(r, id)
    requires r != [] ==> NoFarther(DistanceTo(y, id), DistanceTo(r[0], id))
    ensures SortedByDistance([y] + r, id)
  {
    forall i | 0 < i < |[y] + r|
      ensures NoFarther(DistanceTo(([y] + r)[i - 1], id), DistanceTo(([y] + r)[i], id))
    {
      if i > 1 {
        assert ([y] + r)[i - 1] == r[i - 2] && ([y] + r)[i] == r[i - 1];
      }
    }
  }

  lemma {:induction false} InsertDistinct(x: Node, s: seq<Node>, id: NodeID)
    requires SortedByDistance(s, id)
    requires DistinctIds(s) && !HasId(s, x.id)
    ensures DistinctIds(InsertByDistance(x, s, id))
  {
    if s == [] {
      assert DistinctIds([x][1..]);
    } else if NoFarther(DistanceTo(x, id), DistanceTo(s[0], id)) {
      assert ([x] + s)[1..] == s;
    } else {
      var r := InsertByDistance(x, s[1..], id);
      assert !HasId(s[1..], x.id) by {
        forall z | z in s[1..] ensures z.id != x.id { assert z in s; }
      }
      InsertDistinct(x, s[1..], id);
      assert s[0] in s;
      assert !HasId(r, s[0].id) by {
        forall z | z in r ensures z.id != s[0].id {
          assert z in multiset(r);
          assert z == x || z in s[1..];
        }
      }
      assert ([s[0]] + r)[1..] == r;
    }
  }

  /** Insertion sort of a bucket by distance to id. */
  function SortByDistance(b: Bucket, id: NodeID): (r: seq<Node>)
    ensures SortedByDistance(r, id)
    ensures multiset(r) == multiset(b)
  {
    if b == [] then []
    else
      assert b == [b[0]] + b[1..];
      InsertByDistance(b[0], SortByDistance(b[1..], id), id)
  }

  lemma {:induction false} SortDistinct(b: Bucket, id: NodeID)
    requires DistinctIds(b)
    ensures DistinctIds(SortByDistance(b, id))
  {
    if b != [] {
      var t := SortByDistance(b[1..], id);
      SortDistinct(b[1..], id);
      assert !HasId(t, b[0].id) by {
        forall z | z in t ensures z.id != b[0].id {
          assert z in multiset(t);
          assert z in b[1..];
        }
      }
      InsertDistinct(b[0], t, id);
    }
  }

  lemma {:induction false} TakeDistinct(s: seq<Node>, m: nat)
    requires DistinctIds(s) && m <= |s|
    ensures DistinctIds(s[..m])
  {
    if m > 0 {
      assert s[..m][1..] == s[1..][..m - 1];
      assert !HasId(s[..m][1..], s[0].id) by {
        forall z | z in s[..m][1..] ensures z.id != s[0].id { assert z in s[1..]; }
      }
      TakeDistinct(s[1..], m - 1);
    }
  }

  /** Up to n nodes of the bucket, nearest to id first; fails when some entry cannot be
      compared with id. */
  function FindN(b: Bucket, id: NodeID, n: int): (r: Result<seq<Node>>)
    ensures r.Err? <==> exists x :: x in b && |x.id| != |id|
    ensures r.Err? ==> r.error == InvalidID
    ensures r.Ok? ==> |r.value| == if n <= 0 then 0 else if n < |b| then n else |b|
    ensures r.Ok? ==> forall x :: x in r.value ==> x in b
    ensures r.Ok? ==> SortedByDistance(r.value, id)
    ensures r.Ok? && DistinctIds(b) ==> DistinctIds(r.value)
  {
    if exists x :: x in b && |x.id| != |id| then Err(InvalidID)
    else
      var s := SortByDistance(b, id);
      assert |s| == |b| by { assert |multiset(s)| == |multiset(b)|; }
      var m := if n <= 0 then 0 else if n < |b| then n else |b|;
      assert forall x :: x in s[..m] ==> x in b by {
        forall x | x in s[..m] ensures x in b { assert x in multiset(s); }
      }
      if DistinctIds(b) then
        SortDistinct(b, id);
        TakeDistinct(s, m);
        Ok(s[..m])
      else Ok(s[..m])
  }
}
