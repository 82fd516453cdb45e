/** Node identifiers, the XOR distance between them and the partition index a distance
    selects. Identifiers are bit strings, most significant bit first. */
module NodeIds {
  import opened Wrappers

  type NodeID = seq<bool>

  /** The XOR of two identifiers of the same width. */
  type Distance = seq<bool>

  /** A known peer: its identifier and its address. */
  datatype Node = Node(id: NodeID, ip: string, port: nat)

  /** The zero `Node{}` value. */
  const NO_NODE := Node([], "", 0)

  predicate IsZero(d: Distance) {
    forall i :: 0 <= i < |d| ==> !d[i]
  }

  /** XOR distance; identifiers of different widths cannot be compared. */
  function CalDistance(a: NodeID, b: NodeID): (r: Result<Distance>)
    ensures r.Err? <==> |a| != |b|
    ensures r.Err? ==> r.error == InvalidID
    ensures r.Ok? ==> |r.value| == |a|
    ensures r.Ok? ==> forall i :: 0 <= i < |a| ==> r.value[i] == (a[i] != b[i])
    ensures r.Ok? ==> (IsZero(r.value) <==> a == b)
  {
    if |a| != |b| then Err(InvalidID)
    else
      var d := seq(|a|, i requires 0 <= i < |a| => a[i] != b[i]);
      assert IsZero(d) ==> a == b by {
        if IsZero(d) {
          assert forall i :: 0 <= i < |a| ==> a[i] == b[i] by {
            forall i | 0 <= i < |a| ensures a[i] == b[i] { assert !d[i]; }
          }
        }
      }
      Ok(d)
  }

  /** The index of the highest set bit of d, -1 when no bit is set. */
  function Partition(d: Distance): (p: int)
    ensures -1 <= p < |d|
    ensures p == -1 <==> IsZero(d)
    ensures p >= 0 ==> d[|d| - 1 - p] && forall i :: 0 <= i < |d| - 1 - p ==> !d[i]
  {
    if d == [] then -1
    else if d[0] then |d| - 1
    else
      var p := Partition(d[1..]);
      assert forall i :: 1 <= i < |d| ==> d[i] == d[1..][i - 1];
      p
  }

  /** The distance the routing table works with: a failed distance computation leaves the
      zero Distance value in its place. */
  function DistanceOr0(a: NodeID, b: NodeID): (d: Distance)
    ensures |a| != |b| ==> d == []
    ensures |a| == |b| ==> |d| == |a| && (IsZero(d) <==> a == b)
  {
    match CalDistance(a, b)
    case Ok(d) => d
    case Err(_) => []
  }

  /** The partition a node with identifier id falls into, seen from the local identifier self. */
  function NodePartition(id: NodeID, self: NodeID): (p: int)
    ensures |id| != |self| || id == self ==> p == -1
    ensures |id| == |self| && id != self ==> 0 <= p < |id|
  {
    Partition(DistanceOr0(id, self))
  }

  lemma DistanceSymmetric(a: NodeID, b: NodeID)
    ensures CalDistance(a, b) == CalDistance(b, a)
  {
    if |a| == |b| {
      var d, e := CalDistance(a, b).value, CalDistance(b, a).value;
      assert forall i :: 0 <= i < |d| ==> d[i] == e[i];
      assert d == e;
    }
  }

  /** Distances of equal width compare as unsigned numbers: lexicographically, MSB first. */
  predicate NoFarther(a: Distance, b: Distance) {
    if a == [] then true
    else if b == [] then false
    else if a[0] != b[0] then !a[0]
    else NoFarther(a[1..], b[1..])
  }

  lemma {:induction false} NoFartherTotal(a: Distance, b: Distance)
    ensures NoFarther(a, b) || NoFarther(b, a)
  {
    if a != [] && b != [] && a[0] == b[0] {
      NoFartherTotal(a[1..], b[1..]);
    }
  }
}
