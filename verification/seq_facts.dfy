/** Small facts about sequences of indices that several parts of the model share:
    distinctness, ranges, permutations of 0..n-1 and the cardinality facts behind them. */
module SeqFacts {

  function Min(a: int, b: int): int { if a <= b then a else b }

  function Max(a: int, b: int): int { if a >= b then a else b }

  /** An index below n is its own remainder modulo n. */
  lemma ModBelow(i: nat, n: nat)
    requires i < n
    ensures i % n == i
  {
  }

  /** No element occurs twice. */
  predicate Distinct<T(==)>(s: seq<T>) {
    forall i, j :: 0 <= i < j < |s| ==> s[i] != s[j]
  }

  /** Every element is an index in [0, n). */
  predicate AllBelow(s: seq<int>, n: int) {
    forall i :: 0 <= i < |s| ==> 0 <= s[i] < n
  }

  /** s lists each of 0..n-1 exactly once. */
  predicate IsPermutationOfRange(s: seq<int>, n: int) {
    |s| == n && Distinct(s) && AllBelow(s, n)
  }

  /** The elements of s, as a set. */
  function Elements<T>(s: seq<T>): set<T> {
    set x | x in s
  }

  /** The integers 0..n-1, as a set. */
  function IndexSet(n: nat): (r: set<int>)
    ensures forall x :: x in r <==> 0 <= x < n
  {
    if n == 0 then {} else IndexSet(n - 1) + {n - 1}
  }

  lemma {:induction false} IndexSetSize(n: nat)
    ensures |IndexSet(n)| == n
  {
    if n > 0 {
      var r := IndexSet(n - 1);
      calc {
        |IndexSet(n)|;
        |r + {n - 1}|;
        { assert n - 1 !in r; }
        |r| + 1;
        { IndexSetSize(n - 1); }
        n;
      }
    }
  }

  /** A sequence without repetitions has as many elements as its set. */
  lemma {:induction false} DistinctSize<T>(s: seq<T>)
    requires Distinct(s)
    ensures |Elements(s)| == |s|
  {
    if |s| > 0 {
      var init := s[..|s| - 1];
      DistinctSize(init);
      assert Elements(s) == Elements(init) + {s[|s| - 1]};
      assert s[|s| - 1] !in Elements(init);
    }
  }

  /** In a sequence without repetitions the last element does not occur earlier. */
  lemma DistinctLast<T>(s: seq<T>)
    requires Distinct(s) && |s| > 0
    ensures s[|s| - 1] !in s[..|s| - 1]
  {
  }

  /** A subset as large as its superset is the superset. */
  lemma SubsetOfSameSize<T>(a: set<T>, b: set<T>)
    requires a <= b && |a| == |b|
    ensures a == b
  {
    assert b == a + (b - a);
    assert a * (b - a) == {};
    assert |b| == |a| + |b - a|;
    assert b - a == {};
  }

  /** A permutation of 0..n-1 contains every index below n. */
  lemma PermutationCoversRange(s: seq<int>, n: nat)
    requires IsPermutationOfRange(s, n)
    ensures Elements(s) == IndexSet(n)
    ensures forall x :: 0 <= x < n ==> x in s
  {
    DistinctSize(s);
    IndexSetSize(n);
    assert Elements(s) <= IndexSet(n);
    SubsetOfSameSize(Elements(s), IndexSet(n));
    forall x | 0 <= x < n ensures x in s {
      assert x in IndexSet(n);
    }
  }

  /** A repetition-free sequence of indices below n that mentions every index below n
      has length n at least. */
  lemma CoveringIsLong(s: seq<int>, n: nat)
    requires Distinct(s)
    requires forall x :: 0 <= x < n ==> x in s
    ensures |s| >= n
  {
    DistinctSize(s);
    IndexSetSize(n);
    assert IndexSet(n) <= Elements(s);
    SubsetNoLarger(IndexSet(n), Elements(s));
  }

  lemma SubsetNoLarger<T>(a: set<T>, b: set<T>)
    requires a <= b
    ensures |a| <= |b|
  {
    assert b == a + (b - a);
    assert a * (b - a) == {};
  }

  /** Mapping positions through a sequence of indices keeps distinct positions distinct
      when the sequence itself is repetition-free. */
  function Gather(pool: seq<nat>, positions: seq<nat>): (r: seq<nat>)
    requires AllBelow(positions, |pool|)
    ensures |r| == |positions|
    ensures forall i :: 0 <= i < |r| ==> r[i] in pool
    ensures Distinct(pool) && Distinct(positions) ==> Distinct(r)
  {
    seq(|positions|, i requires 0 <= i < |positions| => pool[positions[i]])
  }
}
