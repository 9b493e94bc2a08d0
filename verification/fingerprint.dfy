/** The part of the E-LSH fingerprint that the Python and the C++ implementations share:
    the subset size k, drawing the L probe subsets from a dimension pool, the parity of a
    vector on a subset, and the ID set of tags (l, parity). */
module Fingerprint {
  import opened SeqFacts
  import opened Vectors
  import opened Tags

  /** k = ceil(d / (delta + 1)), computed on integers. */
  function SubsetSize(d: nat, delta: nat): (k: nat)
    ensures k * (delta + 1) >= d
    ensures (k - 1) * (delta + 1) < d
  {
    var q := (d + delta) / (delta + 1);
    assert (d + delta) == q * (delta + 1) + (d + delta) % (delta + 1);
    q
  }

  /** k never exceeds d: a subset of k dims fits in the d dimensions. */
  lemma SubsetSizeAtMostD(d: nat, delta: nat)
    ensures SubsetSize(d, delta) <= d
  {
    var k := SubsetSize(d, delta);
    if k > 0 {
      // k - 1 <= (k - 1) * (delta + 1) < d
      assert (k - 1) * (delta + 1) == (k - 1) * delta + (k - 1);
      assert (k - 1) * delta >= 0;
    }
  }

  // ---------------------------------------------------------------------------
  // Subsets

  /** Subset l is the first min(k, |pool|) entries of the pool taken in the order
      draws[l] lists pool positions (a shuffle of the pool in C++, a choice without
      replacement in numpy). */
  function DrawSubsets(pool: seq<nat>, k: nat, draws: seq<seq<nat>>): (subsets: seq<seq<nat>>)
    requires forall l :: 0 <= l < |draws| ==>
      Distinct(draws[l]) && AllBelow(draws[l], |pool|) && Min(k, |pool|) <= |draws[l]|
    ensures |subsets| == |draws|
    ensures forall l :: 0 <= l < |subsets| ==> |subsets[l]| == Min(k, |pool|)
    ensures forall l, j :: 0 <= l < |subsets| && 0 <= j < |subsets[l]| ==> subsets[l][j] in pool
    ensures Distinct(pool) ==> forall l :: 0 <= l < |subsets| ==> Distinct(subsets[l])
  {
    seq(|draws|, l requires 0 <= l < |draws| => DrawSubset(pool, k, draws[l]))
  }

  /** The first min(k, |pool|) pool entries in the given order of pool positions. */
  function DrawSubset(pool: seq<nat>, k: nat, order: seq<nat>): (subset: seq<nat>)
    requires Distinct(order) && AllBelow(order, |pool|) && Min(k, |pool|) <= |order|
    ensures |subset| == Min(k, |pool|)
    ensures forall j :: 0 <= j < |subset| ==> subset[j] in pool
    ensures Distinct(pool) ==> Distinct(subset)
  {
    var prefix := order[..Min(k, |pool|)];
    assert forall i :: 0 <= i < |prefix| ==> prefix[i] == order[i];
    Gather(pool, prefix)
  }

  // ---------------------------------------------------------------------------
  // Parity of a vector on a subset

  /** XOR of v[dim] over the dims of the subset, in order; a dim past the end of v is
      skipped. */
  function Parity(v: Vector, subset: seq<nat>): (p: Byte)
    ensures IsBitVector(v) ==> p == 0 || p == 1
  {
    if |subset| == 0 then 0
    else
      var dim := subset[|subset| - 1];
      Parity(v, subset[..|subset| - 1]) ^ (if dim < |v| then v[dim] else 0)
  }

  /** Number of subset entries (with repetition) that land on a 1 of v. */
  function OnesIn(v: Vector, subset: seq<nat>): nat {
    if |subset| == 0 then 0
    else
      var dim := subset[|subset| - 1];
      OnesIn(v, subset[..|subset| - 1]) + (if dim < |v| && v[dim] == 1 then 1 else 0)
  }

  /** On a 0/1 vector the parity is a bit, and it is the count of ones modulo 2. */
  lemma {:induction false} ParityCountsOnes(v: Vector, subset: seq<nat>)
    requires IsBitVector(v)
    ensures Parity(v, subset) == 0 || Parity(v, subset) == 1
    ensures Parity(v, subset) == 1 <==> OnesIn(v, subset) % 2 == 1
  {
    if |subset| > 0 {
      ParityCountsOnes(v, subset[..|subset| - 1]);
    }
  }

  /** Only the in-range dims of the subset matter: two equally long vectors that agree
      there have the same parity. */
  lemma {:induction false} ParityDependsOnSubsetOnly(v1: Vector, v2: Vector, subset: seq<nat>)
    requires |v1| == |v2|
    requires forall j :: 0 <= j < |subset| && subset[j] < |v1| ==> v1[subset[j]] == v2[subset[j]]
    ensures Parity(v1, subset) == Parity(v2, subset)
  {
    if |subset| > 0 {
      var init := subset[..|subset| - 1];
      assert forall j :: 0 <= j < |init| ==> init[j] == subset[j];
      ParityDependsOnSubsetOnly(v1, v2, init);
      var dim := subset[|subset| - 1];
      assert dim < |v1| ==> v1[dim] == v2[dim];
    }
  }

  // ---------------------------------------------------------------------------
  // ID sets

  /** The tags of subsets 0..n-1. */
  function TagsUpTo(v: Vector, subsets: seq<seq<nat>>, n: nat): set<Tag>
    requires n <= |subsets|
  {
    if n == 0 then {}
    else TagsUpTo(v, subsets, n - 1) + {Tag(n - 1, Parity(v, subsets[n - 1]))}
  }

  /** The tags of subsets 0..n-1 are exactly the pairs (l, parity on subset l), l < n. */
  lemma {:induction false} TagsUpToMembers(v: Vector, subsets: seq<seq<nat>>, n: nat)
    requires n <= |subsets|
    ensures forall t :: t in TagsUpTo(v, subsets, n) <==> t.l < n && t.p == Parity(v, subsets[t.l])
  {
    if n > 0 {
      TagsUpToMembers(v, subsets, n - 1);
    }
  }

  /** Every tag of subsets 0..n-1 has an index below n. */
  lemma {:induction false} TagsUpToBelow(v: Vector, subsets: seq<seq<nat>>, n: nat)
    requires n <= |subsets|
    ensures forall t :: t in TagsUpTo(v, subsets, n) ==> t.l < n
  {
    if n > 0 {
      TagsUpToBelow(v, subsets, n - 1);
    }
  }

  /** There is one tag per subset. */
  lemma {:induction false} TagsUpToSize(v: Vector, subsets: seq<seq<nat>>, n: nat)
    requires n <= |subsets|
    ensures |TagsUpTo(v, subsets, n)| == n
  {
    if n > 0 {
      TagsUpToSize(v, subsets, n - 1);
      TagsUpToBelow(v, subsets, n - 1);
      assert Tag(n - 1, Parity(v, subsets[n - 1])) !in TagsUpTo(v, subsets, n - 1);
    }
  }

  /** One more subset adds exactly its own tag. */
  lemma TagsUpToStep(v: Vector, subsets: seq<seq<nat>>, n: nat)
    requires n < |subsets|
    ensures TagsUpTo(v, subsets, n + 1) == TagsUpTo(v, subsets, n) + {Tag(n, Parity(v, subsets[n]))}
  {
  }

  /** The ID set of a vector: one tag (l, parity of the vector on subset l) per subset. */
  function ComputeId(v: Vector, subsets: seq<seq<nat>>): (ids: set<Tag>)
    ensures |ids| == |subsets|
    ensures forall l :: 0 <= l < |subsets| ==> Tag(l, Parity(v, subsets[l])) in ids
    ensures forall t :: t in ids ==> t.l < |subsets| && t.p == Parity(v, subsets[t.l])
  {
    TagsUpToMembers(v, subsets, |subsets|);
    TagsUpToSize(v, subsets, |subsets|);
    TagsUpTo(v, subsets, |subsets|)
  }

  /** On 0/1 vectors every tag carries a parity bit. */
  lemma TagsCarryBits(v: Vector, subsets: seq<seq<nat>>)
    requires IsBitVector(v)
    ensures forall t :: t in ComputeId(v, subsets) ==> t.p == 0 || t.p == 1
  {
    forall t | t in ComputeId(v, subsets) ensures t.p == 0 || t.p == 1 {
      ParityCountsOnes(v, subsets[t.l]);
    }
  }

  /** Number of subsets below n on which the two vectors have equal parity. */
  function Agreements(v1: Vector, v2: Vector, subsets: seq<seq<nat>>, n: nat): nat
    requires n <= |subsets|
  {
    if n == 0 then 0
    else Agreements(v1, v2, subsets, n - 1)
         + (if Parity(v1, subsets[n - 1]) == Parity(v2, subsets[n - 1]) then 1 else 0)
  }

  /** Adding one tag of a fresh subset index to each of two sets grows their intersection
      by one exactly when the two new tags coincide. */
  lemma AddFreshTags(a: set<Tag>, b: set<Tag>, ta: Tag, tb: Tag)
    requires forall t :: t in a ==> t.l < ta.l
    requires forall t :: t in b ==> t.l < ta.l
    requires ta.l == tb.l
    ensures |(a + {ta}) * (b + {tb})| == |a * b| + (if ta == tb then 1 else 0)
  {
    assert ta !in b && tb !in a;
    if ta == tb {
      assert ta !in a * b;
      assert (a + {ta}) * (b + {tb}) == (a * b) + {ta};
    } else {
      assert (a + {ta}) * (b + {tb}) == a * b;
    }
  }

  /** The shared tags of two ID sets are exactly the subsets on which the parities agree,
      so the intersection size counts those subsets. */
  lemma {:induction false} IntersectionCountsAgreements(v1: Vector, v2: Vector, subsets: seq<seq<nat>>, n: nat)
    requires n <= |subsets|
    ensures |TagsUpTo(v1, subsets, n) * TagsUpTo(v2, subsets, n)| == Agreements(v1, v2, subsets, n)
  {
    if n > 0 {
      var a, b := TagsUpTo(v1, subsets, n - 1), TagsUpTo(v2, subsets, n - 1);
      var ta, tb := Tag(n - 1, Parity(v1, subsets[n - 1])), Tag(n - 1, Parity(v2, subsets[n - 1]));
      calc {
        |TagsUpTo(v1, subsets, n) * TagsUpTo(v2, subsets, n)|;
        { TagsUpToStep(v1, subsets, n - 1); TagsUpToStep(v2, subsets, n - 1); }
        |(a + {ta}) * (b + {tb})|;
        { TagsUpToBelow(v1, subsets, n - 1); TagsUpToBelow(v2, subsets, n - 1); AddFreshTags(a, b, ta, tb); }
        |a * b| + (if ta == tb then 1 else 0);
        { IntersectionCountsAgreements(v1, v2, subsets, n - 1); }
        Agreements(v1, v2, subsets, n);
      }
    }
  }

  lemma AgreementsPositive(v1: Vector, v2: Vector, subsets: seq<seq<nat>>, n: nat)
    requires n <= |subsets|
    ensures Agreements(v1, v2, subsets, n) > 0
        <==> exists l :: 0 <= l < n && Parity(v1, subsets[l]) == Parity(v2, subsets[l])
  {
    if n > 0 {
      AgreementsPositive(v1, v2, subsets, n - 1);
    }
  }

  /** Two ID sets intersect exactly when some subset gives both vectors the same parity. */
  lemma IdsIntersect(v1: Vector, v2: Vector, subsets: seq<seq<nat>>)
    ensures ComputeId(v1, subsets) * ComputeId(v2, subsets) != {}
        <==> exists l :: 0 <= l < |subsets| && Parity(v1, subsets[l]) == Parity(v2, subsets[l])
  {
    IntersectionCountsAgreements(v1, v2, subsets, |subsets|);
    AgreementsPositive(v1, v2, subsets, |subsets|);
  }

  /** The locality property: vectors of one length that agree on every in-range dim of
      subset l share the tag of subset l. */
  lemma AgreeingVectorsCollide(v1: Vector, v2: Vector, subsets: seq<seq<nat>>, l: nat)
    requires l < |subsets| && |v1| == |v2|
    requires forall j :: 0 <= j < |subsets[l]| && subsets[l][j] < |v1| ==> v1[subsets[l][j]] == v2[subsets[l][j]]
    ensures Tag(l, Parity(v1, subsets[l])) in ComputeId(v1, subsets) * ComputeId(v2, subsets)
  {
    ParityDependsOnSubsetOnly(v1, v2, subsets[l]);
  }
}
