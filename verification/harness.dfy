/** The evaluation script around the Python fingerprint (test.py): its Hamming distance,
    the stratified test-data generator and the confusion-matrix count over all n*n
    sender/receiver pairs.

    numpy's random draws are inputs. `np.random.randint(lo, hi)` is modelled as
    lo + raw % (hi - lo) for a given raw draw, which reaches every value of [lo, hi), and
    `np.random.choice(d, size=c, replace=False)` as the first c entries of a given
    permutation of 0..d-1. */
module Harness {
  import opened SeqFacts
  import opened Results
  import opened Vectors
  import opened Tags
  import Fingerprint

  // ---------------------------------------------------------------------------
  // hamming_distance

  /** `np.sum(v1 != v2)`: the number of positions below m holding different entries. */
  function CountDiffs(v1: Vector, v2: Vector, m: nat): nat
    requires m <= |v1| && m <= |v2|
  {
    if m == 0 then 0 else CountDiffs(v1, v2, m - 1) + (if v1[m - 1] != v2[m - 1] then 1 else 0)
  }

  lemma {:induction false} CountDiffsIsMismatches(v1: Vector, v2: Vector, m: nat)
    requires m <= |v1| && m <= |v2|
    ensures CountDiffs(v1, v2, m) == |Mismatches(v1, v2, m)|
  {
    if m > 0 {
      CountDiffsIsMismatches(v1, v2, m - 1);
      MismatchesStep(v1, v2, m - 1);
    }
  }

  /** hamming_distance on two rows of one length: the number of differing positions. */
  function HammingDistance(v1: Vector, v2: Vector): (n: nat)
    requires |v1| == |v2|
    ensures n == Hamming(v1, v2)
  {
    CountDiffsIsMismatches(v1, v2, |v1|);
    CountDiffs(v1, v2, |v1|)
  }

  /** The distance is symmetric, at most the length, and zero exactly on equal vectors. */
  lemma HammingDistanceProperties(v1: Vector, v2: Vector)
    requires |v1| == |v2|
    ensures HammingDistance(v1, v2) == HammingDistance(v2, v1)
    ensures HammingDistance(v1, v2) <= |v1|
    ensures HammingDistance(v1, v2) == 0 <==> v1 == v2
  {
    HammingSymmetric(v1, v2);
    HammingBounded(v1, v2);
    HammingZeroIff(v1, v2);
    assert v1[..|v1|] == v1 && v2[..|v2|] == v2;
  }

  // ---------------------------------------------------------------------------
  // generate_test_data_balanced

  /** The half-open range a randint call draws from. */
  datatype Range = Range(lo: int, hi: int)

  /** The five split points `int(n*0.2), int(n*0.4), int(n*0.6), int(n*0.8), n`. */
  function Splits(n: nat): (s: seq<nat>)
    ensures |s| == 5 && s[4] == n
    ensures forall j :: 0 <= j < 5 ==> 5 * s[j] <= (j + 1) * n < 5 * (s[j] + 1)
  {
    [n / 5, 2 * n / 5, 3 * n / 5, 4 * n / 5, n]
  }

  /** The range the number of flips for receiver vector i is drawn from: up to delta/2,
      up to delta, up to 1.5*delta, up to 2*delta, and anything below d for the last
      fifth. `delta // 2` floors and `int(delta * 1.5)` truncates, which agree on
      non-negative delta. */
  function Band(i: nat, n: nat, d: nat, delta: nat): (r: Range)
    ensures i < n / 5 ==> r.lo == 0 && 2 * (r.hi - 1) <= delta
    ensures n / 5 <= i < 2 * n / 5 ==> 0 < r.lo && delta <= 2 * r.lo + 1 && r.hi - 1 == delta
    ensures 2 * n / 5 <= i < 3 * n / 5 ==>
      r.lo == delta + 1 && 2 * (r.hi - 1) <= 3 * delta < 2 * r.hi
    ensures 3 * n / 5 <= i < 4 * n / 5 ==> 3 * delta < 2 * r.lo && r.hi - 1 == 2 * delta
    ensures 4 * n / 5 <= i ==> r == Range(0, d)
  {
    var splits := Splits(n);
    if i < splits[0] then Range(0, Max(1, delta / 2))
    else if i < splits[1] then Range(Max(1, delta / 2), delta + 1)
    else if i < splits[2] then Range(delta + 1, (3 * delta) / 2 + 1)
    else if i < splits[3] then Range((3 * delta) / 2 + 1, 2 * delta + 1)
    else Range(0, d)
  }

  /** `np.random.randint(lo, hi)` for the raw draw `raw`; an empty range raises. */
  function RandInt(r: Range, raw: nat): (x: Result<int>)
    ensures x.Ok? <==> r.lo < r.hi
    ensures x.Err? ==> x.error == ValueError
    ensures x.Ok? ==> r.lo <= x.value < r.hi
  {
    if r.lo < r.hi then Ok(r.lo + raw % (r.hi - r.lo)) else Err(ValueError)
  }

  /** Every value of a non-empty range is some draw. */
  lemma RandIntReachesRange(r: Range, x: int)
    requires r.lo <= x < r.hi
    ensures RandInt(r, (x - r.lo) as nat) == Ok(x)
  {
  }

  /** For delta of at least 2 and d of at least 1 no band is empty, so the generator
      never raises. */
  lemma BandsNonEmpty(i: nat, n: nat, d: nat, delta: nat)
    requires delta >= 2 && d >= 1
    ensures Band(i, n, d, delta).lo < Band(i, n, d, delta).hi
  {
  }

  /** With delta = 1 the band (delta, 1.5*delta] holds no integer. */
  lemma ThirdBandEmptyForDeltaOne(n: nat, d: nat)
    requires n >= 5
    ensures Band(2 * n / 5, n, d, 1).lo == Band(2 * n / 5, n, d, 1).hi
  {
  }

  /** Q, W and the n*n matrix of distances between them. */
  datatype TestData = TestData(Q: seq<Vector>, W: seq<Vector>, distances: seq<seq<nat>>)

  /** Random inputs of the generator: n bit vectors of length d for Q, one raw randint
      draw and one permutation of 0..d-1 per receiver vector. */
  predicate ValidDraws(n: nat, d: nat, Q: seq<Vector>, raws: seq<nat>, perms: seq<seq<nat>>) {
    |Q| == n && |raws| == n && |perms| == n &&
    (forall i :: 0 <= i < n ==> |Q[i]| == d && IsBitVector(Q[i])) &&
    (forall i :: 0 <= i < n ==> IsPermutationOfRange(perms[i], d))
  }

  /** Some receiver index falls into an empty band. */
  predicate SomeBandEmpty(n: nat, d: nat, delta: nat) {
    exists i :: 0 <= i < n && Band(i, n, d, delta).hi <= Band(i, n, d, delta).lo
  }

  /** The number of flips for receiver vector i once clamped to d. */
  function FlipCount(i: nat, n: nat, d: nat, delta: nat, raw: nat): (c: nat)
    requires Band(i, n, d, delta).lo < Band(i, n, d, delta).hi
    ensures c <= d && c < Band(i, n, d, delta).hi
    ensures c == d || Band(i, n, d, delta).lo <= c
  {
    Min(RandInt(Band(i, n, d, delta), raw).value, d)
  }

  /** W[i]: a copy of Q[i mod |Q|] with `flips` entries flipped at the first positions of
      the permutation, when that number is positive; it is exactly `flips` away from
      Q[i]. */
  function Receiver(Q: seq<Vector>, i: nat, flips: int, perm: seq<nat>): (w: Vector)
    requires i < |Q| && 0 <= flips <= |perm| && IsPermutationOfRange(perm, |Q[i]|)
    ensures |w| == |Q[i]|
    ensures IsBitVector(Q[i]) ==> IsBitVector(w)
    ensures Hamming(Q[i], w) == flips
  {
    ModBelow(i, |Q|);
    var base := Q[i % |Q|];
    if flips > 0 then
      FlipDistance(base, perm[..flips]);
      FlipAt(base, perm[..flips])
    else
      HammingSelf(base);
      base
  }

  /** The receiver vectors: W[i] is a bit vector of length d exactly FlipCount(i) away
      from Q[i]. */
  function Receivers(n: nat, d: nat, delta: nat, Q: seq<Vector>, raws: seq<nat>,
                     perms: seq<seq<nat>>): (W: seq<Vector>)
    requires ValidDraws(n, d, Q, raws, perms) && !SomeBandEmpty(n, d, delta)
    ensures |W| == n
    ensures forall i :: 0 <= i < n ==> |W[i]| == d && IsBitVector(W[i])
    ensures forall i :: 0 <= i < n ==> Hamming(Q[i], W[i]) == FlipCount(i, n, d, delta, raws[i])
  {
    seq(n, i requires 0 <= i < n => Receiver(Q, i, FlipCount(i, n, d, delta, raws[i]), perms[i]))
  }

  /** `distances[i, j] = hamming_distance(Q[i], W[j])` for all i, j < n. */
  function DistanceMatrix(n: nat, d: nat, Q: seq<Vector>, W: seq<Vector>): (distances: seq<seq<nat>>)
    requires |Q| == n && |W| == n
    requires forall i :: 0 <= i < n ==> |Q[i]| == d && |W[i]| == d
    ensures |distances| == n
    ensures forall i :: 0 <= i < n ==> |distances[i]| == n
    ensures forall i, j :: 0 <= i < n && 0 <= j < n ==> distances[i][j] == Hamming(Q[i], W[j])
  {
    seq(n, i requires 0 <= i < n => seq(n, j requires 0 <= j < n => HammingDistance(Q[i], W[j])))
  }

  /** generate_test_data_balanced: W[i] starts as a copy of Q[i] and gets the clamped
      number of flips at distinct positions, so it is exactly that far from Q[i]; the
      number lies in the band's randint range; distances[i][j] is the distance of Q[i]
      and W[j]. An empty band for some i raises ValueError. */
  function GenerateTestDataBalanced(n: nat, d: nat, delta: nat, Q: seq<Vector>, raws: seq<nat>,
                                    perms: seq<seq<nat>>): (r: Result<TestData>)
    requires ValidDraws(n, d, Q, raws, perms)
    ensures r.Err? <==> SomeBandEmpty(n, d, delta)
    ensures r.Err? ==> r.error == ValueError
    ensures r.Ok? ==> r.value.Q == Q && |r.value.W| == n
    ensures r.Ok? ==> forall i :: 0 <= i < n ==> |r.value.W[i]| == d && IsBitVector(r.value.W[i])
    ensures r.Ok? ==> forall i :: 0 <= i < n ==>
      Hamming(Q[i], r.value.W[i]) == FlipCount(i, n, d, delta, raws[i])
    ensures r.Ok? ==> forall i :: 0 <= i < n ==>
      Min(Band(i, n, d, delta).lo, d) <= Hamming(Q[i], r.value.W[i]) < Band(i, n, d, delta).hi
    ensures r.Ok? ==> |r.value.distances| == n
    ensures r.Ok? ==> forall i :: 0 <= i < n ==> |r.value.distances[i]| == n
    ensures r.Ok? ==> forall i, j :: 0 <= i < n && 0 <= j < n ==>
      r.value.distances[i][j] == Hamming(Q[i], r.value.W[j])
  {
    if SomeBandEmpty(n, d, delta) then Err(ValueError)
    else
      var W := Receivers(n, d, delta, Q, raws, perms);
      Ok(TestData(Q, W, DistanceMatrix(n, d, Q, W)))
  }

  // ---------------------------------------------------------------------------
  // The counting loop of run_experiment

  /** Where a sender/receiver pair lands in the confusion matrix. */
  datatype Verdict = TruePositive | FalseNegative | TrueNegative | FalsePositive

  /** A pair within delta is a positive; it is detected when the ID sets intersect. */
  function Classify(dist: nat, delta: nat, hit: bool): (v: Verdict)
    ensures (v == TruePositive || v == FalseNegative) <==> dist <= delta
    ensures (v == TruePositive || v == FalsePositive) <==> hit
  {
    if dist <= delta then (if hit then TruePositive else FalseNegative)
    else (if !hit then TrueNegative else FalsePositive)
  }

  /** The inputs of the count: the distance matrix and the two lists of ID sets. */
  datatype Experiment = Experiment(n: nat, delta: nat, distances: seq<seq<nat>>,
                                   idQ: seq<set<Tag>>, idW: seq<set<Tag>>)
  {
    predicate Valid() {
      |distances| == n && |idQ| == n && |idW| == n &&
      forall i :: 0 <= i < n ==> |distances[i]| == n
    }

    /** Whether the ID sets of sender i and receiver j share a tag. */
    predicate Hit(i: nat, j: nat)
      requires Valid() && i < n && j < n
    {
      |idQ[i] * idW[j]| > 0
    }

    function VerdictOf(i: nat, j: nat): Verdict
      requires Valid() && i < n && j < n
    {
      Classify(distances[i][j], delta, Hit(i, j))
    }
  }

  /** What a pair is counted under. */
  datatype Criterion = Is(verdict: Verdict) | Close | Far | Any

  predicate Meets(e: Experiment, c: Criterion, i: nat, j: nat)
    requires e.Valid() && i < e.n && j < e.n
  {
    match c
    case Is(v) => e.VerdictOf(i, j) == v
    case Close => e.distances[i][j] <= e.delta
    case Far => e.distances[i][j] > e.delta
    case Any => true
  }

  /** Pairs (i, j') with j' < j that meet the criterion. */
  function RowCount(e: Experiment, c: Criterion, i: nat, j: nat): nat
    requires e.Valid() && i < e.n && j <= e.n
  {
    if j == 0 then 0 else RowCount(e, c, i, j - 1) + (if Meets(e, c, i, j - 1) then 1 else 0)
  }

  /** Pairs in the rows before i that meet the criterion. */
  function RowsCount(e: Experiment, c: Criterion, i: nat): nat
    requires e.Valid() && i <= e.n
  {
    if i == 0 then 0 else RowsCount(e, c, i - 1) + RowCount(e, c, i - 1, e.n)
  }

  /** The pairs before (i, j) in the loop order that meet the criterion. */
  function CountBefore(e: Experiment, c: Criterion, i: nat, j: nat): nat
    requires e.Valid() && i <= e.n && j <= e.n && (i == e.n ==> j == 0)
  {
    RowsCount(e, c, i) + (if i < e.n then RowCount(e, c, i, j) else 0)
  }

  /** Number of pairs of the whole matrix meeting the criterion. */
  function Count(e: Experiment, c: Criterion): nat
    requires e.Valid()
  {
    RowsCount(e, c, e.n)
  }

  /** The per-pair row of match_results. */
  datatype MatchRecord = MatchRecord(sender: nat, receiver: nat, dist: nat, hit: bool, size: nat)

  /** One entry of close_pairs / far_pairs. */
  datatype DistHit = DistHit(dist: nat, hit: bool)

  datatype Confusion = Confusion(tp: nat, fn: nat, tn: nat, fp: nat)

  /** Within a row: the four verdicts split the pairs, and so do close and far; the
      positives are the close pairs and the negatives the far ones. */
  lemma {:induction false} RowPartition(e: Experiment, i: nat, j: nat)
    requires e.Valid() && i < e.n && j <= e.n
    ensures RowCount(e, Is(TruePositive), i, j) + RowCount(e, Is(FalseNegative), i, j)
         == RowCount(e, Close, i, j)
    ensures RowCount(e, Is(TrueNegative), i, j) + RowCount(e, Is(FalsePositive), i, j)
         == RowCount(e, Far, i, j)
    ensures RowCount(e, Close, i, j) + RowCount(e, Far, i, j) == RowCount(e, Any, i, j) == j
  {
    if j > 0 {
      RowPartition(e, i, j - 1);
    }
  }

  lemma {:induction false} RowsPartition(e: Experiment, i: nat)
    requires e.Valid() && i <= e.n
    ensures RowsCount(e, Is(TruePositive), i) + RowsCount(e, Is(FalseNegative), i)
         == RowsCount(e, Close, i)
    ensures RowsCount(e, Is(TrueNegative), i) + RowsCount(e, Is(FalsePositive), i)
         == RowsCount(e, Far, i)
    ensures RowsCount(e, Close, i) + RowsCount(e, Far, i) == RowsCount(e, Any, i) == i * e.n
  {
    if i > 0 {
      RowsPartition(e, i - 1);
      RowPartition(e, i - 1, e.n);
      assert (i - 1) * e.n + e.n == i * e.n;
    }
  }

  /** The confusion matrix partitions the n*n pairs: tp + fn counts the pairs within
      delta, tn + fp the pairs beyond it. */
  lemma ConfusionPartitions(e: Experiment)
    requires e.Valid()
    ensures Count(e, Is(TruePositive)) + Count(e, Is(FalseNegative)) == Count(e, Close)
    ensures Count(e, Is(TrueNegative)) + Count(e, Is(FalsePositive)) == Count(e, Far)
    ensures Count(e, Close) + Count(e, Far) == e.n * e.n
  {
    RowsPartition(e, e.n);
  }

  /** The loop over all (i, j): each pair increments exactly the counter its verdict
      names and is appended to close_pairs or far_pairs and to match_results. */
  method CountOutcomes(e: Experiment)
      returns (c: Confusion, closePairs: seq<DistHit>, farPairs: seq<DistHit>, records: seq<MatchRecord>)
    requires e.Valid()
    ensures c.tp == Count(e, Is(TruePositive)) && c.fn == Count(e, Is(FalseNegative))
    ensures c.tn == Count(e, Is(TrueNegative)) && c.fp == Count(e, Is(FalsePositive))
    ensures c.tp + c.fn == |closePairs| == Count(e, Close)
    ensures c.tn + c.fp == |farPairs| == Count(e, Far)
    ensures c.tp + c.fn + c.tn + c.fp == e.n * e.n
    ensures forall p :: p in closePairs ==> p.dist <= e.delta
    ensures forall p :: p in farPairs ==> p.dist > e.delta
    ensures |records| == e.n * e.n
    ensures forall t :: 0 <= t < |records| ==> RecordFor(e, records[t], t)
  {
    c := Confusion(0, 0, 0, 0);
    closePairs, farPairs, records := [], [], [];
    var i := 0;
    while i < e.n
      invariant i <= e.n
      invariant Counted(e, i, 0, c, closePairs, farPairs, records)
    {
      c, closePairs, farPairs, records := CountRow(e, i, c, closePairs, farPairs, records);
      assert (i + 1) * e.n == i * e.n + e.n;
      i := i + 1;
    }
    ConfusionPartitions(e);
  }

  /** The state of the loop once the pairs before (i, j), in loop order, are counted:
      each counter holds the number of those pairs with its verdict, close_pairs and
      far_pairs hold the pairs on each side of delta, and match_results one record per
      pair. */
  predicate Counted(e: Experiment, i: nat, j: nat, c: Confusion,
                    closePairs: seq<DistHit>, farPairs: seq<DistHit>, records: seq<MatchRecord>)
    requires e.Valid()
  {
    i <= e.n && j <= e.n && (i == e.n ==> j == 0) &&
    c.tp == CountBefore(e, Is(TruePositive), i, j) &&
    c.fn == CountBefore(e, Is(FalseNegative), i, j) &&
    c.tn == CountBefore(e, Is(TrueNegative), i, j) &&
    c.fp == CountBefore(e, Is(FalsePositive), i, j) &&
    |closePairs| == CountBefore(e, Close, i, j) &&
    |farPairs| == CountBefore(e, Far, i, j) &&
    (forall p :: p in closePairs ==> p.dist <= e.delta) &&
    (forall p :: p in farPairs ==> p.dist > e.delta) &&
    |records| == i * e.n + j &&
    (forall t :: 0 <= t < |records| ==> RecordFor(e, records[t], t))
  }

  /** The inner loop over j for one sender index i. */
  method CountRow(e: Experiment, i: nat, c0: Confusion, close0: seq<DistHit>, far0: seq<DistHit>,
                  records0: seq<MatchRecord>)
      returns (c: Confusion, closePairs: seq<DistHit>, farPairs: seq<DistHit>, records: seq<MatchRecord>)
    requires e.Valid() && i < e.n
    requires Counted(e, i, 0, c0, close0, far0, records0)
    ensures Counted(e, i + 1, 0, c, closePairs, farPairs, records)
  {
    c, closePairs, farPairs, records := c0, close0, far0, records0;
    var j := 0;
    while j < e.n
      invariant j <= e.n
      invariant Counted(e, i, j, c, closePairs, farPairs, records)
    {
      var dist := e.distances[i][j];
      var hit := |e.idQ[i] * e.idW[j]| > 0;
      var size := |e.idQ[i] * e.idW[j]|;
      records := records + [MatchRecord(i, j, dist, hit, size)];
      if dist <= e.delta {
        closePairs := closePairs + [DistHit(dist, hit)];
        if hit {
          c := c.(tp := c.tp + 1);
        } else {
          c := c.(fn := c.fn + 1);
        }
      } else {
        farPairs := farPairs + [DistHit(dist, hit)];
        if !hit {
          c := c.(tn := c.tn + 1);
        } else {
          c := c.(fp := c.fp + 1);
        }
      }
      j := j + 1;
    }
    assert i * e.n + e.n == (i + 1) * e.n;
  }

  /** match_results[t] describes pair (t / n, t mod n): its distance, the size of the ID
      intersection, and has_intersection exactly when that size is positive. */
  predicate RecordFor(e: Experiment, r: MatchRecord, t: nat)
    requires e.Valid()
  {
    r.sender < e.n && r.receiver < e.n && r.sender * e.n + r.receiver == t &&
    r.dist == e.distances[r.sender][r.receiver] &&
    r.size == |e.idQ[r.sender] * e.idW[r.receiver]| &&
    (r.hit <==> r.size > 0)
  }

  /** A receiver vector equal to its sender vector is always detected: equal vectors
      share every tag, and there is at least one subset. */
  lemma ZeroDistanceIsDetected(v: Vector, w: Vector, subsets: seq<seq<nat>>, delta: nat)
    requires |v| == |w| && HammingDistance(v, w) == 0 && |subsets| > 0
    ensures Fingerprint.ComputeId(v, subsets) * Fingerprint.ComputeId(w, subsets) != {}
    ensures Classify(HammingDistance(v, w), delta,
      |Fingerprint.ComputeId(v, subsets) * Fingerprint.ComputeId(w, subsets)| > 0) == TruePositive
  {
    HammingDistanceProperties(v, w);
    Fingerprint.IdsIntersect(v, w, subsets);
  }
}
