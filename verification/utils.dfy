/** The vector helpers of the C++ side (utils.cpp): random bit vectors, a vector at a
    given distance from a base vector, the Hamming distance, and packing a vector into a
    128-bit block and back.

    The PRNG is an input: getBit results arrive as a sequence of booleans and the
    uint32 draws of the shuffle as a sequence of naturals. A 64-bit word is a sequence
    of 64 bits, bit i being the coefficient of 2^i. */
module Utils {
  import opened SeqFacts
  import opened Vectors

  // ---------------------------------------------------------------------------
  // generateRandomBinaryVector

  function BitByte(b: bool): (x: Byte)
    ensures x == 0 || x == 1
    ensures x == 1 <==> b
  {
    if b then 1 else 0
  }

  /** d entries, entry i being the i-th getBit result. */
  method GenerateRandomBinaryVector(d: nat, bits: seq<bool>) returns (vec: Vector)
    requires d <= |bits|
    ensures |vec| == d && IsBitVector(vec)
    ensures forall i :: 0 <= i < d ==> (vec[i] == 1 <==> bits[i])
  {
    vec := seq(d, _ => 0);
    var i := 0;
    while i < d
      invariant i <= d && |vec| == d
      invariant forall k :: 0 <= k < i ==> vec[k] == BitByte(bits[k])
      invariant IsBitVector(vec)
    {
      vec := vec[i := BitByte(bits[i])];
      i := i + 1;
    }
  }

  // ---------------------------------------------------------------------------
  // generateVectorWithDistance

  /** positions = 0..d-1, then for i = d-1 down to 1 swap positions[i] with
      positions[rands[d-1-i] % (i+1)]: the result is a permutation of 0..d-1. */
  method FisherYates(d: nat, rands: seq<nat>) returns (positions: seq<nat>)
    requires d <= |rands| + 1
    ensures IsPermutationOfRange(positions, d)
  {
    positions := seq(d, k requires 0 <= k < d => k);
    if d == 0 {
      return;
    }
    var i := d - 1;
    while i > 0
      invariant 0 <= i < d
      invariant IsPermutationOfRange(positions, d)
      decreases i
    {
      var j := rands[d - 1 - i] % (i + 1);
      assert 0 <= j <= i;
      positions := Swap(positions, i, j);
      i := i - 1;
    }
  }

  /** Exchanging two entries keeps a permutation a permutation. */
  function Swap(s: seq<nat>, a: nat, b: nat): (r: seq<nat>)
    requires a < |s| && b < |s|
    requires IsPermutationOfRange(s, |s|)
    ensures IsPermutationOfRange(r, |s|)
    ensures r[a] == s[b] && r[b] == s[a]
    ensures forall k :: 0 <= k < |s| && k != a && k != b ==> r[k] == s[k]
  {
    var r := s[a := s[b]][b := s[a]];
    assert forall x, y :: 0 <= x < y < |r| ==> r[x] != r[y] by {
      forall x, y | 0 <= x < y < |r| ensures r[x] != r[y] {
        var x', y' := if x == a then b else if x == b then a else x,
                      if y == a then b else if y == b then a else y;
        assert r[x] == s[x'] && r[y] == s[y'];
      }
    }
    r
  }

  /** Flips vec at positions[0..count): the loop of generateVectorWithDistance. */
  method FlipFirst(base: Vector, positions: seq<nat>, count: int) returns (vec: Vector)
    requires count <= |positions| && Distinct(positions) && AllBelow(positions, |base|)
    ensures vec == FlipAt(base, positions[..Max(count, 0)])
  {
    vec := base;
    var i := 0;
    while i < count
      invariant 0 <= i <= Max(count, 0)
      invariant |vec| == |base|
      invariant forall x :: 0 <= x < |base| ==>
        vec[x] == if x in positions[..i] then 1 - base[x] else base[x]
    {
      assert positions[..i + 1] == positions[..i] + [positions[i]];
      vec := vec[positions[i] := 1 - vec[positions[i]]];
      i := i + 1;
    }
    assert forall x :: 0 <= x < |base| ==> vec[x] == FlipAt(base, positions[..i])[x];
  }

  /** generateVectorWithDistance: a copy of base flipped at the first min(distance, d)
      positions of a shuffle of 0..d-1. It differs from base in exactly that many places,
      and equals base when distance is not positive. */
  method GenerateVectorWithDistance(base: Vector, distance: int, rands: seq<nat>) returns (vec: Vector)
    requires |base| <= |rands| + 1
    ensures |vec| == |base|
    ensures Hamming(base, vec) == Max(0, Min(distance, |base|))
    ensures distance <= 0 ==> vec == base
    ensures IsBitVector(base) ==> IsBitVector(vec)
  {
    var d := |base|;
    var dist := distance;
    if dist > d {
      dist := d;
    }
    var positions := FisherYates(d, rands);
    vec := FlipFirst(base, positions, dist);
    FlipDistance(base, positions[..Max(dist, 0)]);
    if dist <= 0 {
      assert vec == base;
    }
  }

  // ---------------------------------------------------------------------------
  // hammingDistance

  /** hammingDistance: mismatches over the first min(|v1|, |v2|) positions. */
  method HammingDistance(v1: Vector, v2: Vector) returns (dist: nat)
    ensures dist == Hamming(v1, v2)
  {
    dist := 0;
    var minSize := Min(|v1|, |v2|);
    var i := 0;
    while i < minSize
      invariant i <= minSize
      invariant dist == |Mismatches(v1, v2, i)|
    {
      MismatchesStep(v1, v2, i);
      if v1[i] != v2[i] {
        dist := dist + 1;
      }
      i := i + 1;
    }
  }

  // ---------------------------------------------------------------------------
  // vectorToBlock / blockToVector

  /** A 64-bit word; bit i is w[i]. */
  type Word = w: seq<bool> | |w| == 64 witness seq(64, _ => false)

  /** A 128-bit block as the two 64-bit words of its memory, in memory order. */
  datatype Block = Block(word0: Word, word1: Word)

  /** Where the cryptoTools constructor `block(a, b)` puts its first argument in memory.
      The constructor is not part of this model, so both layouts are kept. */
  datatype Layout = FirstArgInWord0 | FirstArgInWord1

  function MakeBlock(layout: Layout, a: Word, b: Word): (blk: Block)
    ensures layout == FirstArgInWord0 ==> blk.word0 == a && blk.word1 == b
    ensures layout == FirstArgInWord1 ==> blk.word0 == b && blk.word1 == a
  {
    match layout
    case FirstArgInWord0 => Block(a, b)
    case FirstArgInWord1 => Block(b, a)
  }

  /** Bit i set exactly when vec[start + i] exists and is non-zero. */
  function PackBits(vec: Vector, start: nat): (w: Word)
  {
    seq(64, i requires 0 <= i < 64 => start + i < |vec| && vec[start + i] != 0)
  }

  /** The first loop of vectorToBlock, or the second one with start = offset + 64. */
  method PackWord(vec: Vector, start: nat) returns (w: Word)
    ensures forall i :: 0 <= i < 64 ==> (w[i] <==> start + i < |vec| && vec[start + i] != 0)
    ensures w == PackBits(vec, start)
  {
    w := seq(64, _ => false);
    var i := 0;
    while i < 64 && start + i < |vec|
      invariant i <= 64
      invariant i == 0 || start + i <= |vec|
      invariant forall k :: 0 <= k < i ==> (w[k] <==> vec[start + k] != 0)
      invariant forall k :: i <= k < 64 ==> !w[k]
    {
      if vec[start + i] != 0 {
        w := w[i := true];
      }
      i := i + 1;
    }
  }

  /** vectorToBlock: the low word packs vec[offset .. offset+64), the high word
      vec[offset+64 .. offset+128), and `block(low, high)` is laid out per `layout`. */
  method VectorToBlock(vec: Vector, offset: nat, layout: Layout) returns (b: Block)
    ensures b == MakeBlock(layout, PackBits(vec, offset), PackBits(vec, offset + 64))
  {
    var low := PackWord(vec, offset);
    var high := PackWord(vec, offset + 64);
    b := MakeBlock(layout, low, high);
  }

  /** The vector blockToVector builds: d entries, entry i < 64 is bit i of memory word 0,
      entry 64 + i is bit i of memory word 1, and entries from 128 on stay 0. */
  function Unpack(b: Block, d: nat): (vec: Vector)
    ensures |vec| == d && IsBitVector(vec)
  {
    var vec := seq(d, i requires 0 <= i < d =>
      if i < 64 then BitByte(b.word0[i]) else if i < 128 then BitByte(b.word1[i - 64]) else 0);
    assert forall i :: 0 <= i < d ==> vec[i] == 0 || vec[i] == 1 by {
      forall i | 0 <= i < d ensures vec[i] == 0 || vec[i] == 1 {
        if i < 64 {
          assert vec[i] == BitByte(b.word0[i]);
        } else if i < 128 {
          assert vec[i] == BitByte(b.word1[i - 64]);
        }
      }
    }
    vec
  }

  /** blockToVector: the two loops over the memory words of the block. */
  method BlockToVector(b: Block, d: nat) returns (vec: Vector)
    ensures |vec| == d && IsBitVector(vec)
    ensures forall i :: 0 <= i < d && i < 64 ==> (vec[i] == 1 <==> b.word0[i])
    ensures forall i :: 64 <= i < d && i < 128 ==> (vec[i] == 1 <==> b.word1[i - 64])
    ensures forall i :: 128 <= i < d ==> vec[i] == 0
    ensures vec == Unpack(b, d)
  {
    vec := seq(d, _ => 0);
    var i := 0;
    while i < 64 && i < d
      invariant i <= 64 && i <= d && |vec| == d
      invariant forall k :: 0 <= k < i ==> vec[k] == BitByte(b.word0[k])
      invariant forall k :: i <= k < d ==> vec[k] == 0
    {
      vec := vec[i := BitByte(b.word0[i])];
      i := i + 1;
    }
    i := 0;
    while i < 64 && 64 + i < d
      invariant i <= 64 && |vec| == d
      invariant i == 0 || 64 + i <= d
      invariant forall k :: 0 <= k < 64 && k < d ==> vec[k] == BitByte(b.word0[k])
      invariant forall k :: 64 <= k < 64 + i ==> vec[k] == BitByte(b.word1[k - 64])
      invariant forall k :: 64 + i <= k < d ==> vec[k] == 0
    {
      vec := vec[64 + i := BitByte(b.word1[i])];
      i := i + 1;
    }
  }

  /** With `block(low, high)` storing low in memory word 0, unpacking a packed 0/1
      vector of at most 128 entries gives it back. */
  lemma PackUnpackRoundTrip(v: Vector)
    requires IsBitVector(v) && |v| <= 128
    ensures Unpack(MakeBlock(FirstArgInWord0, PackBits(v, 0), PackBits(v, 64)), |v|) == v
  {
    var r := Unpack(MakeBlock(FirstArgInWord0, PackBits(v, 0), PackBits(v, 64)), |v|);
    assert forall i :: 0 <= i < |v| ==> r[i] == v[i] by {
      forall i | 0 <= i < |v| ensures r[i] == v[i] {
        assert v[i] == 0 || v[i] == 1;
        if i < 64 {
          assert r[i] == BitByte(PackBits(v, 0)[i]) && PackBits(v, 0)[i] == (v[i] != 0);
        } else {
          assert r[i] == BitByte(PackBits(v, 64)[i - 64]) && PackBits(v, 64)[i - 64] == (v[i] != 0);
        }
      }
    }
  }

  /** With the other layout the two halves of a 128-entry vector come back swapped. */
  lemma PackUnpackSwapsHalves(v: Vector)
    requires IsBitVector(v) && |v| == 128
    ensures Unpack(MakeBlock(FirstArgInWord1, PackBits(v, 0), PackBits(v, 64)), |v|)
         == v[64..] + v[..64]
  {
    var r := Unpack(MakeBlock(FirstArgInWord1, PackBits(v, 0), PackBits(v, 64)), |v|);
    var swapped := v[64..] + v[..64];
    assert forall i :: 0 <= i < 128 ==> r[i] == swapped[i] by {
      forall i | 0 <= i < 128 ensures r[i] == swapped[i] {
        if i < 64 {
          assert v[64 + i] == 0 || v[64 + i] == 1;
          assert r[i] == BitByte(PackBits(v, 64)[i]) && PackBits(v, 64)[i] == (v[64 + i] != 0);
          assert swapped[i] == v[64 + i];
        } else {
          assert v[i - 64] == 0 || v[i - 64] == 1;
          assert r[i] == BitByte(PackBits(v, 0)[i - 64]) && PackBits(v, 0)[i - 64] == (v[i - 64] != 0);
          assert swapped[i] == v[i - 64];
        }
      }
    }
  }
}
