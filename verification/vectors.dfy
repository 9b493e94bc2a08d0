/** Binary vectors and Hamming distance, shared by the C++ utilities and the Python harness. */
module Vectors {
  import opened SeqFacts

  /** One entry of a vector: a uint8_t in the C++ code, a small int in the numpy arrays. */
  type Byte = bv8

  /** A vector of entries; the protocol only ever stores 0 and 1 in it. */
  type Vector = seq<Byte>

  predicate IsBitVector(v: Vector) {
    forall i :: 0 <= i < |v| ==> v[i] == 0 || v[i] == 1
  }

  /** The positions below m at which the two vectors differ. */
  function Mismatches(v1: Vector, v2: Vector, m: nat): (r: set<int>)
    requires m <= |v1| && m <= |v2|
    ensures forall i :: i in r <==> 0 <= i < m && v1[i] != v2[i]
  {
    if m == 0 then {}
    else Mismatches(v1, v2, m - 1) + (if v1[m - 1] != v2[m - 1] then {m - 1} else {})
  }

  /** One more position adds one mismatch exactly when the vectors differ there. */
  lemma MismatchesStep(v1: Vector, v2: Vector, m: nat)
    requires m < |v1| && m < |v2|
    ensures |Mismatches(v1, v2, m + 1)| == |Mismatches(v1, v2, m)| + (if v1[m] != v2[m] then 1 else 0)
  {
    var r := Mismatches(v1, v2, m);
    if v1[m] != v2[m] {
      calc {
        |Mismatches(v1, v2, m + 1)|;
        |r + {m}|;
        { assert m !in r; }
        |r| + 1;
      }
    } else {
      assert Mismatches(v1, v2, m + 1) == r + {};
    }
  }

  /** Number of positions, within the shorter of the two vectors, where they differ. */
  function Hamming(v1: Vector, v2: Vector): nat {
    |Mismatches(v1, v2, Min(|v1|, |v2|))|
  }

  lemma HammingSymmetric(v1: Vector, v2: Vector)
    ensures Hamming(v1, v2) == Hamming(v2, v1)
  {
    var a, b := Mismatches(v1, v2, Min(|v1|, |v2|)), Mismatches(v2, v1, Min(|v2|, |v1|));
    assert forall i :: i in a <==> i in b;
    assert a == b;
  }

  /** The distance never exceeds the length of the shorter vector. */
  lemma HammingBounded(v1: Vector, v2: Vector)
    ensures Hamming(v1, v2) <= Min(|v1|, |v2|)
  {
    var m := Min(|v1|, |v2|);
    IndexSetSize(m);
    SubsetNoLarger(Mismatches(v1, v2, m), IndexSet(m));
  }

  /** The distance is zero exactly when the vectors agree on their common prefix. */
  lemma HammingZeroIff(v1: Vector, v2: Vector)
    ensures var m := Min(|v1|, |v2|);
      Hamming(v1, v2) == 0 <==> v1[..m] == v2[..m]
  {
    var m := Min(|v1|, |v2|);
    var diff := Mismatches(v1, v2, m);
    if diff == {} {
      assert v1[..m] == v2[..m];
    }
    if v1[..m] == v2[..m] {
      assert forall i :: 0 <= i < m ==> v1[..m][i] == v2[..m][i];
      assert forall i :: i !in diff;
      assert diff == {};
    }
  }

  lemma HammingSelf(v: Vector)
    ensures Hamming(v, v) == 0
  {
    HammingZeroIff(v, v);
  }

  /** v with each entry at one of the listed positions replaced by 1 - entry. Listing a
      position twice flips it once, as numpy's fancy-index assignment does. */
  function FlipAt(v: Vector, positions: seq<nat>): (r: Vector)
    ensures |r| == |v|
    ensures forall i :: 0 <= i < |v| && i !in positions ==> r[i] == v[i]
    ensures forall i :: 0 <= i < |v| && i in positions ==> r[i] != v[i]
    ensures IsBitVector(v) ==> IsBitVector(r)
  {
    seq(|v|, i requires 0 <= i < |v| => if i in positions then 1 - v[i] else v[i])
  }

  /** Flipping k distinct in-range positions moves the vector exactly k away. */
  lemma FlipDistance(v: Vector, positions: seq<nat>)
    requires Distinct(positions) && AllBelow(positions, |v|)
    ensures Hamming(v, FlipAt(v, positions)) == |positions|
  {
    var w := FlipAt(v, positions);
    forall i ensures i in Mismatches(v, w, |v|) <==> i in Elements(positions) {
      if i in positions {
        var j :| 0 <= j < |positions| && positions[j] == i;
        assert 0 <= i < |v|;
      }
    }
    assert Mismatches(v, w, |v|) == Elements(positions);
    DistinctSize(positions);
  }
}
