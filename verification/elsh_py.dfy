/** The Python ELSHFmap class of the evaluation script (test.py).

    As in the C++ model, the entropy of each dimension is an input: `high[i]` says whether
    it exceeds tau and `ranking` is the order `sorted(..., reverse=True)` puts the dims
    in. The `np.random.choice(..., replace=False)` draw of each subset is an input list of
    distinct pool positions. */
module ElshPy {
  import opened SeqFacts
  import opened Results
  import opened Vectors
  import opened Tags
  import Fingerprint

  /** The tau the constructor uses when the caller gives none. */
  const DefaultTau: real := 0.5

  // ---------------------------------------------------------------------------
  // _select_high_entropy_dimensions

  predicate Increasing(s: seq<nat>) {
    forall a, b :: 0 <= a < b < |s| ==> s[a] < s[b]
  }

  /** The list comprehension `[i for i in range(n) if entropy(i) > tau]`. */
  function HighDims(high: seq<bool>, n: nat): (dims: seq<nat>)
    requires n <= |high|
    ensures forall x :: x in dims <==> 0 <= x < n && high[x]
    ensures Increasing(dims) && AllBelow(dims, n)
  {
    if n == 0 then []
    else
      var dims := HighDims(high, n - 1);
      if high[n - 1] then dims + [n - 1] else dims
  }

  /** An increasing list has no repetitions. */
  lemma IncreasingIsDistinct(s: seq<nat>)
    requires Increasing(s)
    ensures Distinct(s)
  {
  }

  /** The dims above tau in increasing order, unless fewer than k of them exist; then the
      first max(k*L, d) dims of the entropy ranking, which is the whole ranking since the
      bound is at least d. */
  function SelectHighEntropyDimensions(d: nat, k: nat, L: nat, ranking: seq<nat>, high: seq<bool>): (pool: seq<nat>)
    requires |high| == d && IsPermutationOfRange(ranking, d)
    ensures Distinct(pool) && AllBelow(pool, d)
    ensures forall i :: 0 <= i < d && high[i] ==> i in pool
    ensures Min(k, d) <= |pool|
    ensures k <= |HighDims(high, d)| ==>
      Increasing(pool) && forall x :: x in pool <==> 0 <= x < d && high[x]
    ensures |HighDims(high, d)| < k ==> pool == ranking
  {
    var dims := HighDims(high, d);
    if |dims| < k then
      PermutationCoversRange(ranking, d);
      // Python clamps a slice bound past the end to the length.
      var pool := ranking[..Min(|ranking|, Max(k * L, d))];
      assert pool == ranking;
      pool
    else
      IncreasingIsDistinct(dims);
      dims
  }

  // ---------------------------------------------------------------------------
  // The ELSHFmap object

  /** What __init__ fixes: the parameters, k, the pool and the L subsets. */
  datatype Fmap = Fmap(d: nat, delta: nat, L: nat, tau: real, k: nat,
                       highEntropyDims: seq<nat>, subsets: seq<seq<nat>>)

  /** Valid draws of `np.random.choice(pool, size=min(k, n), replace=False)` for a pool of
      n dims: L lists of min(k, n) distinct pool positions. */
  predicate ChoicesFor(choices: seq<seq<nat>>, L: nat, k: nat, n: nat) {
    |choices| == L &&
    forall l :: 0 <= l < L ==>
      |choices[l]| == Min(k, n) && Distinct(choices[l]) && AllBelow(choices[l], n)
  }

  /** __init__: k = ceil(d/(delta+1)), then the pool, then L subsets of min(k, |pool|)
      distinct pool dims each. */
  function Create(d: nat, delta: nat, L: nat, ranking: seq<nat>, high: seq<bool>,
                  choices: seq<seq<nat>>, tau: real := DefaultTau): (m: Fmap)
    requires |high| == d && IsPermutationOfRange(ranking, d)
    requires ChoicesFor(choices, L, Fingerprint.SubsetSize(d, delta),
      |SelectHighEntropyDimensions(d, Fingerprint.SubsetSize(d, delta), L, ranking, high)|)
    ensures m.d == d && m.delta == delta && m.L == L && m.tau == tau
    ensures m.k * (delta + 1) >= d && (m.k - 1) * (delta + 1) < d
    ensures Distinct(m.highEntropyDims) && AllBelow(m.highEntropyDims, d)
    ensures forall i :: 0 <= i < d && high[i] ==> i in m.highEntropyDims
    ensures |m.subsets| == L
    ensures forall l :: 0 <= l < L ==>
      |m.subsets[l]| == Min(m.k, |m.highEntropyDims|) && Distinct(m.subsets[l])
    ensures forall l, j :: 0 <= l < L && 0 <= j < |m.subsets[l]| ==>
      m.subsets[l][j] in m.highEntropyDims
    ensures forall l :: 0 <= l < L ==> |m.subsets[l]| == m.k
  {
    var k := Fingerprint.SubsetSize(d, delta);
    var pool := SelectHighEntropyDimensions(d, k, L, ranking, high);
    Fingerprint.SubsetSizeAtMostD(d, delta);
    Fmap(d, delta, L, tau, k, pool, Fingerprint.DrawSubsets(pool, k, choices))
  }

  // ---------------------------------------------------------------------------
  // compute_id

  /** Every dim of the subset indexes into a vector of length n; otherwise numpy raises. */
  predicate Fits(subset: seq<nat>, n: nat) {
    forall j :: 0 <= j < |subset| ==> subset[j] < n
  }

  /** Every subset fits a vector of length n. */
  predicate SubsetsFit(subsets: seq<seq<nat>>, n: nat) {
    forall l :: 0 <= l < |subsets| ==> Fits(subsets[l], n)
  }

  /** compute_id: for each subset, XOR the vector's entries on it and add the tag
      (l, parity). A subset dim past the end of the vector raises IndexError. On vectors
      that every subset fits, the result is the ID set the C++ computeID builds. */
  method ComputeId(m: Fmap, v: Vector) returns (r: Result<set<Tag>>)
    ensures r.Err? <==> !SubsetsFit(m.subsets, |v|)
    ensures r.Err? ==> r.error == IndexError
    ensures r.Ok? ==> r.value == Fingerprint.ComputeId(v, m.subsets)
  {
    var ids: set<Tag> := {};
    var l := 0;
    while l < |m.subsets|
      invariant l <= |m.subsets|
      invariant ids == Fingerprint.TagsUpTo(v, m.subsets, l)
      invariant forall l' :: 0 <= l' < l ==> Fits(m.subsets[l'], |v|)
    {
      var parity := SubsetParity(v, m.subsets[l]);
      if parity.Err? {
        assert !SubsetsFit(m.subsets, |v|) by {
          assert !Fits(m.subsets[l], |v|);
        }
        return Err(IndexError);
      }
      Fingerprint.TagsUpToStep(v, m.subsets, l);
      ids := ids + {Tag(l, parity.value)};
      l := l + 1;
    }
    assert SubsetsFit(m.subsets, |v|);
    r := Ok(ids);
  }

  /** The inner loop of compute_id: `parity ^= int(vector[i])` over the subset, in order.
      The first dim past the end of the vector raises IndexError. */
  method SubsetParity(v: Vector, subset: seq<nat>) returns (r: Result<Byte>)
    ensures r.Err? <==> !Fits(subset, |v|)
    ensures r.Err? ==> r.error == IndexError
    ensures r.Ok? ==> r.value == Fingerprint.Parity(v, subset)
  {
    var parity: Byte := 0;
    var j := 0;
    while j < |subset|
      invariant j <= |subset|
      invariant forall j' :: 0 <= j' < j ==> subset[j'] < |v|
      invariant parity == Fingerprint.Parity(v, subset[..j])
    {
      if subset[j] >= |v| {
        return Err(IndexError);
      }
      assert subset[..j + 1][..j] == subset[..j];
      parity := parity ^ v[subset[j]];
      j := j + 1;
    }
    assert subset[..j] == subset;
    r := Ok(parity);
  }

  /** compute_id_batch: one ID set per input vector, in input order; the first vector a
      subset does not fit aborts the whole batch. */
  method ComputeIdBatch(m: Fmap, vectors: seq<Vector>) returns (r: Result<seq<set<Tag>>>)
    ensures r.Err? <==> exists i :: 0 <= i < |vectors| && !SubsetsFit(m.subsets, |vectors[i]|)
    ensures r.Err? ==> r.error == IndexError
    ensures r.Ok? ==> |r.value| == |vectors|
    ensures r.Ok? ==> forall i :: 0 <= i < |vectors| ==> r.value[i] == Fingerprint.ComputeId(vectors[i], m.subsets)
  {
    var result: seq<set<Tag>> := [];
    var i := 0;
    while i < |vectors|
      invariant i <= |vectors|
      invariant |result| == i
      invariant forall i' :: 0 <= i' < i ==> SubsetsFit(m.subsets, |vectors[i']|)
      invariant forall i' :: 0 <= i' < i ==> result[i'] == Fingerprint.ComputeId(vectors[i'], m.subsets)
    {
      var ids := ComputeId(m, vectors[i]);
      if ids.Err? {
        return Err(ids.error);
      }
      result := result + [ids.value];
      i := i + 1;
    }
    r := Ok(result);
  }
}
