/** The order in which a search widens across partitions: by how far a partition index lies
    from the base partition's index, ties going to the smaller index. */
module Partions {

  function Gap(base: int, i: int): (g: nat) {
    if i >= base then i - base else base - i
  }

  /** Partition i is probed no later than partition j. */
  predicate Precedes(base: int, i: int, j: int) {
    Gap(base, i) < Gap(base, j) || (Gap(base, i) == Gap(base, j) && i <= j)
  }

  lemma PrecedesTotal(base: int, i: int, j: int)
    ensures Precedes(base, i, j) || Precedes(base, j, i)
    ensures Precedes(base, i, j) && Precedes(base, j, i) ==> i == j
  {
  }

  predicate Sorted(base: int, s: seq<int>) {
    forall i, j :: 0 <= i < j < |s| ==> Precedes(base, s[i], s[j])
  }

  /** No index occurs twice. */
  predicate NoDup(s: seq<int>) {
    s == [] || (s[0] !in s[1..] && NoDup(s[1..]))
  }

  /** The head of a sorted sequence precedes every element of an insertion into its tail. */
  lemma HeadPrecedes(base: int, x: int, s: seq<int>, r: seq<int>)
    requires Sorted(base, s) && s != [] && Precedes(base, s[0], x)
    requires forall y :: y in r ==> y == x || y in s[1..]
    ensures forall j :: 0 <= j < |r| ==> Precedes(base, s[0], r[j])
  {
    forall j | 0 <= j < |r| ensures Precedes(base, s[0], r[j]) {
      assert r[j] in r;
      if r[j] != x {
        var k :| 0 <= k < |s[1..]| && s[1..][k] == r[j];
        assert s[k + 1] == r[j];
      }
    }
  }

  function Insert(base: int, x: int, s: seq<int>): (r: seq<int>)
    requires Sorted(base, s)
    ensures Sorted(base, r)
    ensures multiset(r) == multiset(s) + multiset{x}
    ensures forall y :: y in r <==> y == x || y in s
    ensures NoDup(s) && x !in s ==> NoDup(r)
  {
    if s == [] then
      assert NoDup([x][1..]);
      [x]
    else if Precedes(base, x, s[0]) then
      assert forall j :: 0 <= j < |s| ==> Precedes(base, x, s[j]) by {
        forall j | 0 <= j < |s| ensures Precedes(base, x, s[j]) {
          if j > 0 { assert Precedes(base, s[0], s[j]); }
        }
      }
      assert ([x] + s)[1..] == s;
      [x] + s
    else
      PrecedesTotal(base, x, s[0]);
      var r := Insert(base, x, s[1..]);
      assert s == [s[0]] + s[1..];
      HeadPrecedes(base, x, s, r);
      assert ([s[0]] + r)[1..] == r;
      [s[0]] + r
  }

  /** `sort.Sort` over a `Partions` value: a sorted permutation of parts. */
  function Sort(base: int, parts: seq<int>): (r: seq<int>)
    ensures Sorted(base, r)
    ensures multiset(r) == multiset(parts)
    ensures forall y :: y in r <==> y in parts
    ensures NoDup(parts) ==> NoDup(r)
  {
    if parts == [] then []
    else
      assert parts == [parts[0]] + parts[1..];
      Insert(base, parts[0], Sort(base, parts[1..]))
  }

  lemma SortedHead(base: int, s: seq<int>, t: seq<int>)
    requires Sorted(base, s) && Sorted(base, t)
    requires multiset(s) == multiset(t) && s != []
    ensures t != [] && s[0] == t[0]
  {
    assert s[0] in multiset(s);
    var i :| 0 <= i < |t| && t[i] == s[0];
    assert t[0] in multiset(t);
    var j :| 0 <= j < |s| && s[j] == t[0];
    assert Precedes(base, t[0], t[i]) by { if i > 0 { assert Precedes(base, t[0], t[i]); } }
    assert Precedes(base, s[0], s[j]) by { if j > 0 { assert Precedes(base, s[0], s[j]); } }
    PrecedesTotal(base, s[0], t[0]);
  }

  lemma DropHead(s: seq<int>, t: seq<int>)
    requires s != [] && t != [] && s[0] == t[0]
    requires multiset(s) == multiset(t)
    ensures multiset(s[1..]) == multiset(t[1..])
  {
    assert s == [s[0]] + s[1..] && t == [t[0]] + t[1..];
    assert multiset(s[1..]) == multiset(s) - multiset{s[0]};
    assert multiset(t[1..]) == multiset(t) - multiset{t[0]};
  }

  /** The order is total, so a sorted permutation is determined by its elements. */
  lemma {:induction false} SortedUnique(base: int, s: seq<int>, t: seq<int>)
    requires Sorted(base, s) && Sorted(base, t)
    requires multiset(s) == multiset(t)
    ensures s == t
  {
    if s == [] {
      assert |t| == |multiset(t)| == 0;
    } else {
      SortedHead(base, s, t);
      DropHead(s, t);
      SortedUnique(base, s[1..], t[1..]);
      assert s == [s[0]] + s[1..] && t == [t[0]] + t[1..];
    }
  }

  lemma NonEmptyHasMember(keys: set<int>)
    requires keys != {}
    ensures exists y :: y in keys
  {
    assert (forall y :: y !in keys) ==> keys == {};
  }

  /** Some enumeration of a set of partition indices (a map's iteration order). */
  ghost function Enumerate(keys: set<int>): (r: seq<int>)
    ensures multiset(r) == multiset(keys)
    ensures forall y :: y in r <==> y in keys
    ensures NoDup(r)
  {
    if keys == {} then []
    else
      NonEmptyHasMember(keys);
      var x :| x in keys;
      assert multiset(keys) == multiset(keys - {x}) + multiset{x};
      var rest := Enumerate(keys - {x});
      assert ([x] + rest)[1..] == rest;
      [x] + rest
  }

  /** The probing order of a widening search based at base over the populated partitions. */
  ghost function Order(keys: set<int>, base: int): (r: seq<int>)
    ensures Sorted(base, r)
    ensures forall p :: p in r <==> p in keys
    ensures |r| == |keys|
    ensures NoDup(r)
  {
    var r := Sort(base, Enumerate(keys));
    assert |r| == |multiset(r)| == |multiset(keys)|;
    r
  }

  /** Sorting any enumeration of the keys yields the probing order. */
  lemma SortIsOrder(base: int, parts: seq<int>, keys: set<int>)
    requires multiset(parts) == multiset(keys)
    ensures Sort(base, parts) == Order(keys, base)
  {
    SortedUnique(base, Sort(base, parts), Order(keys, base));
  }

  /** The base partition, when populated, is probed first. */
  lemma BaseFirst(keys: set<int>, base: int)
    requires base in keys
    ensures Order(keys, base)[0] == base
  {
    var r := Order(keys, base);
    var i :| 0 <= i < |r| && r[i] == base;
    if i > 0 {
      assert Precedes(base, r[0], r[i]);
    }
  }
}
