/** The C++ ELSHFmap class (elsh.h, elsh.cpp).

    The entropy of each dimension comes from a seeded uniform draw and floating point, so
    the model takes its outcome as input: `ranking` is the order std::sort leaves the
    (entropy, dim) pairs in (highest first), and `high[i]` says whether the entropy of
    dimension i exceeds tau. The std::shuffle of each subset draw is likewise an input
    permutation of pool positions. */
module ElshCpp {
  import opened SeqFacts
  import opened Vectors
  import opened Tags
  import opened Fingerprint

  /** The tau the constructor uses when the caller gives none. */
  const DefaultTau: real := 0.5

  // ---------------------------------------------------------------------------
  // selectHighEntropyDimensions

  /** The first loop: walk the dims in entropy order, keeping a dim when its entropy
      exceeds tau or while fewer than `target` (= k*L) dims are kept. */
  function FirstPass(ranking: seq<nat>, high: seq<bool>, target: nat): (pool: seq<nat>)
    requires AllBelow(ranking, |high|)
    ensures |pool| <= |ranking|
    ensures Min(|ranking|, target) <= |pool|
  {
    if |ranking| == 0 then []
    else
      var acc := FirstPass(ranking[..|ranking| - 1], high, target);
      var dim := ranking[|ranking| - 1];
      if high[dim] || |acc| < target then acc + [dim] else acc
  }

  /** The first loop keeps only ranked dims, none twice when the ranking repeats none,
      and every ranked dim above tau. */
  lemma {:induction false} FirstPassMembers(ranking: seq<nat>, high: seq<bool>, target: nat)
    requires AllBelow(ranking, |high|)
    ensures forall x :: x in FirstPass(ranking, high, target) ==> x in ranking
    ensures Distinct(ranking) ==> Distinct(FirstPass(ranking, high, target))
    ensures forall j :: 0 <= j < |ranking| && high[ranking[j]] ==> ranking[j] in FirstPass(ranking, high, target)
  {
    if |ranking| > 0 {
      var m := |ranking| - 1;
      var init := ranking[..m];
      FirstPassMembers(init, high, target);
      var acc := FirstPass(init, high, target);
      var pool := FirstPass(ranking, high, target);
      assert forall x :: x in init ==> x in ranking;
      if Distinct(ranking) {
        DistinctLast(ranking);
        assert ranking[m] !in acc;
      }
      forall j | 0 <= j < |ranking| && high[ranking[j]] ensures ranking[j] in pool {
        if j < m {
          assert ranking[j] == init[j];
        }
      }
    }
  }

  /** The second loop: for i = 0, 1, ... while i < d and the pool holds fewer than
      `target` dims, append i unless it is already present. */
  function TopUp(d: nat, target: nat, pool: seq<nat>, i: nat): (r: seq<nat>)
    requires i <= d
    requires Distinct(pool) && AllBelow(pool, d)
    ensures Distinct(r) && AllBelow(r, d)
    ensures pool <= r
    ensures target <= |r| || forall x :: i <= x < d ==> x in r
    ensures |pool| <= target ==> |r| <= target
    decreases d - i
  {
    if i == d || target <= |pool| then pool
    else if i in pool then
      var r := TopUp(d, target, pool, i + 1);
      assert forall x :: x in pool ==> x in r by {
        forall x | x in pool ensures x in r {
          var j :| 0 <= j < |pool| && pool[j] == x;
          assert r[j] == x;
        }
      }
      r
    else
      var r := TopUp(d, target, pool + [i], i + 1);
      assert r[|pool|] == i;
      r
  }

  /** Every dim above tau is kept by the first pass, since the ranking lists every dim. */
  lemma FirstPassKeepsHigh(d: nat, target: nat, ranking: seq<nat>, high: seq<bool>)
    requires |high| == d && IsPermutationOfRange(ranking, d)
    ensures forall i :: 0 <= i < d && high[i] ==> i in FirstPass(ranking, high, target)
  {
    PermutationCoversRange(ranking, d);
    FirstPassMembers(ranking, high, target);
    forall i | 0 <= i < d && high[i] ensures i in FirstPass(ranking, high, target) {
      assert i in ranking;
      var j :| 0 <= j < |ranking| && ranking[j] == i;
    }
  }

  /** The dimension pool: indices in [0, d), none twice, every dim whose entropy exceeds
      tau among them, and at least min(d, k*L) of them. */
  function SelectHighEntropyDimensions(d: nat, k: nat, L: nat, ranking: seq<nat>, high: seq<bool>): (pool: seq<nat>)
    requires |high| == d && IsPermutationOfRange(ranking, d)
    ensures Distinct(pool) && AllBelow(pool, d)
    ensures forall i :: 0 <= i < d && high[i] ==> i in pool
    ensures Min(d, k * L) <= |pool|
  {
    var first := FirstPass(ranking, high, k * L);
    FirstPassKeepsHigh(d, k * L, ranking, high);
    FirstPassMembers(ranking, high, k * L);
    assert AllBelow(first, d) by {
      forall j | 0 <= j < |first| ensures 0 <= first[j] < d {
        assert first[j] in ranking;
      }
    }
    if |first| < k * L then
      TopUpKeepsFirst(d, k * L, first);
      TopUp(d, k * L, first, 0)
    else first
  }

  /** The top-up keeps every dim the first pass found. */
  lemma TopUpKeepsFirst(d: nat, target: nat, first: seq<nat>)
    requires Distinct(first) && AllBelow(first, d)
    ensures forall x :: x in first ==> x in TopUp(d, target, first, 0)
  {
    var r := TopUp(d, target, first, 0);
    forall x | x in first ensures x in r {
      var j :| 0 <= j < |first| && first[j] == x;
      assert r[j] == x;
    }
  }

  /** The top-up loop is dead code: whenever the first pass ends with fewer than k*L
      dims it has kept the whole ranking, so every index below d is already in the pool,
      whatever the entropies. */
  lemma {:induction false} PoolIsFirstPass(d: nat, k: nat, L: nat, ranking: seq<nat>, high: seq<bool>)
    requires |high| == d && IsPermutationOfRange(ranking, d)
    ensures SelectHighEntropyDimensions(d, k, L, ranking, high) == FirstPass(ranking, high, k * L)
  {
    var first := FirstPass(ranking, high, k * L);
    if |first| < k * L {
      FirstPassDropsWhenFull(ranking, high, k * L);
      FirstPassMembers(ranking, high, k * L);
      assert AllBelow(first, d) by {
        forall j | 0 <= j < |first| ensures 0 <= first[j] < d {
          assert first[j] in ranking;
        }
      }
      PermutationCoversRange(first, d);
      TopUpKeepsFullPool(d, k * L, first, 0);
    }
  }

  /** Entropy order puts every dim above tau before every dim below it. */
  predicate HighFirst(ranking: seq<nat>, high: seq<bool>)
    requires AllBelow(ranking, |high|)
  {
    forall a, b :: 0 <= a < b < |ranking| ==> Before(ranking, high, a, b)
  }

  /** If the dim ranked b-th is above tau, so is the dim ranked a-th. */
  predicate Before(ranking: seq<nat>, high: seq<bool>, a: nat, b: nat)
    requires AllBelow(ranking, |high|) && a < |ranking| && b < |ranking|
  {
    high[ranking[b]] ==> high[ranking[a]]
  }

  /** Number of ranked dims whose entropy exceeds tau. */
  function HighCount(ranking: seq<nat>, high: seq<bool>): (n: nat)
    requires AllBelow(ranking, |high|)
    ensures n <= |ranking|
  {
    if |ranking| == 0 then 0
    else HighCount(ranking[..|ranking| - 1], high) + (if high[ranking[|ranking| - 1]] then 1 else 0)
  }

  /** With the dims in entropy order, the first pass keeps the top
      max(#above tau, min(d, target)) dims of the ranking. */
  lemma {:induction false} FirstPassIsPrefix(ranking: seq<nat>, high: seq<bool>, target: nat)
    requires AllBelow(ranking, |high|) && HighFirst(ranking, high)
    ensures FirstPass(ranking, high, target)
         == ranking[..Max(HighCount(ranking, high), Min(|ranking|, target))]
  {
    FirstPassPrefix(ranking, high, target);
    FirstPassLength(ranking, high, target);
  }

  /** A dim is dropped only once the pass holds `target` dims. */
  lemma {:induction false} FirstPassDropsWhenFull(ranking: seq<nat>, high: seq<bool>, target: nat)
    requires AllBelow(ranking, |high|)
    ensures |FirstPass(ranking, high, target)| < |ranking| ==> target <= |FirstPass(ranking, high, target)|
  {
    if |ranking| > 0 {
      FirstPassDropsWhenFull(ranking[..|ranking| - 1], high, target);
    }
  }

  /** A ranking of dims all above tau is kept whole. */
  lemma {:induction false} FirstPassKeepsAllHigh(ranking: seq<nat>, high: seq<bool>, target: nat)
    requires AllBelow(ranking, |high|)
    requires forall a :: 0 <= a < |ranking| ==> high[ranking[a]]
    ensures FirstPass(ranking, high, target) == ranking
  {
    if |ranking| > 0 {
      var m := |ranking| - 1;
      FirstPassKeepsAllHigh(ranking[..m], high, target);
      assert ranking[..m] + [ranking[m]] == ranking;
    }
  }

  /** In entropy order the first pass is a prefix of the ranking. */
  lemma {:induction false} FirstPassPrefix(ranking: seq<nat>, high: seq<bool>, target: nat)
    requires AllBelow(ranking, |high|) && HighFirst(ranking, high)
    ensures FirstPass(ranking, high, target) == ranking[..|FirstPass(ranking, high, target)|]
  {
    if |ranking| > 0 {
      var m := |ranking| - 1;
      var init := ranking[..m];
      HighFirstPrefix(ranking, high);
      FirstPassPrefix(init, high, target);
      var acc := FirstPass(init, high, target);
      assert acc == ranking[..|acc|] by {
        assert init[..|acc|] == ranking[..|acc|];
      }
      if high[ranking[m]] || |acc| < target {
        if high[ranking[m]] {
          HighBeforeHigh(ranking, high);
          FirstPassKeepsAllHigh(init, high, target);
        } else {
          FirstPassDropsWhenFull(init, high, target);
          assert |acc| == m;
        }
        assert acc == init;
        assert FirstPass(ranking, high, target) == init + [ranking[m]] == ranking;
      } else {
        assert FirstPass(ranking, high, target) == acc;
      }
    }
  }

  /** In entropy order the first pass holds max(#above tau, min(|ranking|, target)) dims. */
  lemma {:induction false} FirstPassLength(ranking: seq<nat>, high: seq<bool>, target: nat)
    requires AllBelow(ranking, |high|) && HighFirst(ranking, high)
    ensures |FirstPass(ranking, high, target)| == Max(HighCount(ranking, high), Min(|ranking|, target))
  {
    if |ranking| > 0 {
      var m := |ranking| - 1;
      var init := ranking[..m];
      var isHigh := high[ranking[m]];
      HighFirstPrefix(ranking, high);
      FirstPassLength(init, high, target);
      if isHigh {
        HighBeforeHigh(ranking, high);
        AllHigh(ranking, high, m);
      }
      KeptLength(HighCount(init, high), HighCount(ranking, high), m, target, isHigh);
    }
  }

  /** How the length of the first pass grows with one more ranked dim: it grows by one
      exactly when the dim is kept, and then the pass so far was the whole prefix. */
  lemma KeptLength(h: nat, h': nat, m: nat, target: nat, isHigh: bool)
    requires h <= m && (isHigh ==> h == m)
    requires h' == h + (if isHigh then 1 else 0)
    ensures var s := Max(h, Min(m, target));
      var s' := Max(h', Min(m + 1, target));
      s <= m && (isHigh || s < target ==> s == m && s' == m + 1)
      && (!(isHigh || s < target) ==> s' == s)
  {
  }

  lemma HighFirstPrefix(ranking: seq<nat>, high: seq<bool>)
    requires AllBelow(ranking, |high|) && HighFirst(ranking, high) && |ranking| > 0
    ensures AllBelow(ranking[..|ranking| - 1], |high|)
    ensures HighFirst(ranking[..|ranking| - 1], high)
  {
    var init := ranking[..|ranking| - 1];
    forall a, b | 0 <= a < b < |init| ensures Before(init, high, a, b) {
      assert Before(ranking, high, a, b);
    }
  }

  lemma HighBeforeHigh(ranking: seq<nat>, high: seq<bool>)
    requires AllBelow(ranking, |high|) && HighFirst(ranking, high) && |ranking| > 0
    requires high[ranking[|ranking| - 1]]
    ensures forall a :: 0 <= a < |ranking| ==> high[ranking[a]]
  {
    forall a | 0 <= a < |ranking| - 1 ensures high[ranking[a]] {
      assert Before(ranking, high, a, |ranking| - 1);
    }
  }

  /** When the first m ranked dims are all above tau, the count of them is m. */
  lemma {:induction false} AllHigh(ranking: seq<nat>, high: seq<bool>, m: nat)
    requires AllBelow(ranking, |high|) && m <= |ranking|
    requires forall a :: 0 <= a < m ==> high[ranking[a]]
    ensures HighCount(ranking[..m], high) == m
  {
    if m > 0 {
      assert ranking[..m][..m - 1] == ranking[..m - 1];
      AllHigh(ranking, high, m - 1);
    }
  }

  /** The top-up loop never adds anything to a pool that already holds every dim. */
  lemma {:induction false} TopUpKeepsFullPool(d: nat, target: nat, pool: seq<nat>, i: nat)
    requires i <= d
    requires Distinct(pool) && AllBelow(pool, d)
    requires forall x :: 0 <= x < d ==> x in pool
    ensures TopUp(d, target, pool, i) == pool
    decreases d - i
  {
    if i < d && |pool| < target {
      TopUpKeepsFullPool(d, target, pool, i + 1);
    }
  }

  /** The C++ pool is the top max(#above tau, min(d, k*L)) dims of the entropy ranking. */
  lemma {:induction false} PoolIsTopOfRanking(d: nat, k: nat, L: nat, ranking: seq<nat>, high: seq<bool>)
    requires |high| == d && IsPermutationOfRange(ranking, d) && HighFirst(ranking, high)
    ensures SelectHighEntropyDimensions(d, k, L, ranking, high)
         == ranking[..Max(HighCount(ranking, high), Min(d, k * L))]
  {
    PoolIsFirstPass(d, k, L, ranking, high);
    FirstPassIsPrefix(ranking, high, k * L);
  }

  // ---------------------------------------------------------------------------
  // The ELSHFmap object

  /** What the constructor fixes: the parameters, k, the pool and the L subsets. */
  datatype Fmap = Fmap(d: nat, delta: nat, L: nat, tau: real, k: nat,
                       highEntropyDims: seq<nat>, subsets: seq<seq<nat>>)
  {
    /** What computeID relies on: one subset per hash function. */
    predicate Valid() { |subsets| == L }

    /** What the constructor establishes besides: k = ceil(d/(delta+1)) and every pool
        dim below d. */
    predicate Constructed() {
      Valid() && k == SubsetSize(d, delta) && AllBelow(highEntropyDims, d)
    }

    /** getD: the dimension; it bounds every pool dim and is what k was derived from. */
    function GetD(): (r: nat)
      ensures Constructed() ==> AllBelow(highEntropyDims, r) && k == SubsetSize(r, delta)
    {
      d
    }

    /** getDelta: the threshold k was derived from. */
    function GetDelta(): (r: nat)
      ensures Constructed() ==> k == SubsetSize(d, r)
    {
      delta
    }

    /** getL: the number of subsets, one per tag of an ID set. */
    function GetL(): (r: nat)
      ensures Valid() ==> r == |subsets|
    {
      L
    }

    /** getK: ceil(d/(delta+1)). */
    function GetK(): (r: nat)
      ensures Constructed() ==> r * (delta + 1) >= d && (r - 1) * (delta + 1) < d
    {
      k
    }

    /** getSubsets: one subset per hash function. */
    function GetSubsets(): (r: seq<seq<nat>>)
      ensures Valid() ==> |r| == L
    {
      subsets
    }

    /** computeID: one tag (l, parity) per subset l < L; a subset dim past the end of the
        vector is skipped. */
    function ComputeID(v: Vector): (ids: set<Tag>)
      requires Valid()
      ensures |ids| == L
      ensures forall t :: t in ids ==> t.l < L && t.p == Parity(v, subsets[t.l])
      ensures forall l :: 0 <= l < L ==> Tag(l, Parity(v, subsets[l])) in ids
      ensures IsBitVector(v) ==> forall t :: t in ids ==> t.p == 0 || t.p == 1
    {
      var ids := ComputeId(v, subsets);
      assert IsBitVector(v) ==> forall t :: t in ids ==> t.p == 0 || t.p == 1 by {
        if IsBitVector(v) {
          TagsCarryBits(v, subsets);
        }
      }
      ids
    }
  }

  /** Valid shuffles for a pool of n dims: L permutations of its positions. */
  predicate ShufflesFor(shuffles: seq<seq<nat>>, L: nat, n: nat) {
    |shuffles| == L && forall l :: 0 <= l < L ==> IsPermutationOfRange(shuffles[l], n)
  }

  /** The constructor: k = ceil(d/(delta+1)), then the pool, then L subsets of
      min(k, |pool|) distinct pool dims each. */
  function Create(d: nat, delta: nat, L: nat, ranking: seq<nat>, high: seq<bool>,
                  shuffles: seq<seq<nat>>, tau: real := DefaultTau): (m: Fmap)
    requires |high| == d && IsPermutationOfRange(ranking, d)
    requires ShufflesFor(shuffles, L,
      |SelectHighEntropyDimensions(d, SubsetSize(d, delta), L, ranking, high)|)
    ensures m.Constructed()
    ensures m.GetD() == d && m.GetDelta() == delta && m.GetL() == L && m.tau == tau
    ensures m.GetK() * (delta + 1) >= d && (m.GetK() - 1) * (delta + 1) < d
    ensures Distinct(m.highEntropyDims) && AllBelow(m.highEntropyDims, d)
    ensures forall i :: 0 <= i < d && high[i] ==> i in m.highEntropyDims
    ensures Min(d, m.GetK() * L) <= |m.highEntropyDims|
    ensures forall l :: 0 <= l < L ==>
      |m.GetSubsets()[l]| == Min(m.GetK(), |m.highEntropyDims|) && Distinct(m.GetSubsets()[l])
    ensures forall l, j :: 0 <= l < L && 0 <= j < |m.GetSubsets()[l]| ==>
      m.GetSubsets()[l][j] in m.highEntropyDims
    ensures forall l :: 0 <= l < L ==> |m.GetSubsets()[l]| == m.GetK()
  {
    var k := SubsetSize(d, delta);
    var pool := SelectHighEntropyDimensions(d, k, L, ranking, high);
    SubsetSizeAtMostD(d, delta);
    PoolHoldsK(d, k, L, |pool|);
    Fmap(d, delta, L, tau, k, pool, DrawSubsets(pool, k, shuffles))
  }

  /** With at least one subset to draw, a pool of at least min(d, k*L) dims holds k dims
      when k <= d, so every subset gets exactly k of them. */
  lemma PoolHoldsK(d: nat, k: nat, L: nat, poolSize: nat)
    requires k <= d && Min(d, k * L) <= poolSize
    ensures 0 < L ==> k <= poolSize
  {
    if 0 < L {
      assert k * L == k + k * (L - 1);
      assert k * (L - 1) >= 0;
    }
  }

  /** The getters return what the constructor was given and what it computed, and tau
      is 0.5 when the caller leaves it out. */
  lemma CreateGetters(d: nat, delta: nat, L: nat, ranking: seq<nat>, high: seq<bool>,
                      shuffles: seq<seq<nat>>)
    requires |high| == d && IsPermutationOfRange(ranking, d)
    requires ShufflesFor(shuffles, L,
      |SelectHighEntropyDimensions(d, SubsetSize(d, delta), L, ranking, high)|)
    ensures var m := Create(d, delta, L, ranking, high, shuffles);
      m.GetD() == d && m.GetDelta() == delta && m.GetL() == L &&
      m.GetK() == SubsetSize(d, delta) && m.tau == 0.5 && |m.GetSubsets()| == L
  {
  }

  /** computeIDBatch: one ID set per input vector, in input order. */
  method ComputeIDBatch(m: Fmap, vectors: seq<Vector>) returns (result: seq<set<Tag>>)
    requires m.Valid()
    ensures |result| == |vectors|
    ensures forall i :: 0 <= i < |vectors| ==> result[i] == m.ComputeID(vectors[i])
  {
    result := [];
    var i := 0;
    while i < |vectors|
      invariant i <= |vectors|
      invariant |result| == i
      invariant forall j :: 0 <= j < i ==> result[j] == m.ComputeID(vectors[j])
    {
      var ids := m.ComputeID(vectors[i]);
      result := result + [ids];
      i := i + 1;
    }
  }
}
