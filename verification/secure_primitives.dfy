/** The byte-level primitives of secure_primitives.h: secret shares of an equality bit,
    the two halves of PrivateEqualityTest::testAnyOne, and the XOR "oblivious transfer".

    PRNG output is an input (one raw byte per `prng.get<uint8_t>()`, one 16-byte key per
    `prng.get<block>()`), and the channel is faithful: what one side sends is what the
    other side receives, so composing the two sides is function composition. */
module SecurePrimitives {
  import opened Vectors

  // ---------------------------------------------------------------------------
  // SecretSharedPEQT

  /** 1 when the inputs are equal, else 0. */
  function EqualBit(x: Byte, y: Byte): Byte {
    if x == y then 1 else 0
  }

  datatype Shares = Shares(a: Byte, b: Byte)

  /** generateShares: share_a is the low bit of a random byte and share_b completes it,
      so the XOR of the shares is the equality bit. */
  function GenerateShares(x: Byte, y: Byte, raw: Byte): (s: Shares)
    ensures s.a == 0 || s.a == 1
    ensures s.b == 0 || s.b == 1
    ensures s.a ^ s.b == EqualBit(x, y)
    ensures (s.a ^ s.b == 1) <==> x == y
  {
    var a := raw & 1;
    Shares(a, a ^ EqualBit(x, y))
  }

  /** Either share alone is the random bit or its complement: for every pair of inputs
      the same share_a is produced by the same random byte. */
  lemma ShareAHidesInputs(x1: Byte, y1: Byte, x2: Byte, y2: Byte, raw: Byte)
    ensures GenerateShares(x1, y1, raw).a == GenerateShares(x2, y2, raw).a
  {
  }

  /** generateSharesBatch: shares for x_vec[i], y_vec[i] with the i-th random byte, for
      every i below |x_vec|; y_vec must be at least as long. */
  method GenerateSharesBatch(xs: seq<Byte>, ys: seq<Byte>, raws: seq<Byte>)
      returns (sharesA: seq<Byte>, sharesB: seq<Byte>)
    requires |ys| >= |xs| && |raws| >= |xs|
    ensures |sharesA| == |xs| && |sharesB| == |xs|
    ensures forall i :: 0 <= i < |xs| ==>
      (sharesA[i] == 0 || sharesA[i] == 1) && sharesA[i] ^ sharesB[i] == EqualBit(xs[i], ys[i])
    ensures forall i :: 0 <= i < |xs| ==> Shares(sharesA[i], sharesB[i]) == GenerateShares(xs[i], ys[i], raws[i])
  {
    sharesA, sharesB := [], [];
    var i := 0;
    while i < |xs|
      invariant i <= |xs| && |sharesA| == i && |sharesB| == i
      invariant forall k :: 0 <= k < i ==>
        Shares(sharesA[k], sharesB[k]) == GenerateShares(xs[k], ys[k], raws[k])
    {
      var s := GenerateShares(xs[i], ys[i], raws[i]);
      sharesA, sharesB := sharesA + [s.a], sharesB + [s.b];
      i := i + 1;
    }
  }

  // ---------------------------------------------------------------------------
  // PrivateEqualityTest::testAnyOne

  /** Bitwise OR of all bytes, starting from 0. */
  function OrAll(s: seq<Byte>): Byte {
    if |s| == 0 then 0 else OrAll(s[..|s| - 1]) | s[|s| - 1]
  }

  predicate IsBits(s: seq<Byte>) {
    forall i :: 0 <= i < |s| ==> s[i] == 0 || s[i] == 1
  }

  /** What the doc comment promises: at least one flag is 1. */
  predicate AnyOne(flags: seq<Byte>) {
    exists i :: 0 <= i < |flags| && flags[i] == 1
  }

  /** On bits the OR is a bit, and it is 1 exactly when some entry is. */
  lemma {:induction false} OrAllBits(s: seq<Byte>)
    requires IsBits(s)
    ensures OrAll(s) == 0 || OrAll(s) == 1
    ensures OrAll(s) == 1 <==> AnyOne(s)
  {
    if |s| > 0 {
      var init := s[..|s| - 1];
      assert IsBits(init);
      OrAllBits(init);
      if AnyOne(init) {
        var i :| 0 <= i < |init| && init[i] == 1;
        assert s[i] == 1;
      }
    }
  }

  /** The OR is 0 exactly when every entry is 0. */
  lemma {:induction false} OrAllZero(s: seq<Byte>)
    ensures OrAll(s) == 0 <==> forall i :: 0 <= i < |s| ==> s[i] == 0
  {
    if |s| > 0 {
      var init := s[..|s| - 1];
      OrAllZero(init);
      assert forall i :: 0 <= i < |init| ==> init[i] == s[i];
    }
  }

  /** Sender, first half: masks are the low bits of random bytes, and the sender sends
      flags[i] XOR masks[i]. */
  function Masks(raws: seq<Byte>): (masks: seq<Byte>)
    ensures |masks| == |raws| && IsBits(masks)
  {
    seq(|raws|, i requires 0 <= i < |raws| => raws[i] & 1)
  }

  function MaskFlags(flags: seq<Byte>, masks: seq<Byte>): (masked: seq<Byte>)
    requires |masks| == |flags|
    ensures |masked| == |flags|
    ensures forall i :: 0 <= i < |flags| ==> masked[i] ^ masks[i] == flags[i]
  {
    seq(|flags|, i requires 0 <= i < |flags| => flags[i] ^ masks[i])
  }

  /** Sender, second half: unmask the receiver's reply with the OR of the masks and
      report whether the outcome is 1. */
  function SenderResult(masks: seq<Byte>, maskedResult: Byte): (r: bool)
    ensures IsBits(masks) && maskedResult <= 1 ==> (r <==> maskedResult != OrAll(masks))
  {
    assert IsBits(masks) ==> OrAll(masks) == 0 || OrAll(masks) == 1 by {
      if IsBits(masks) {
        OrAllBits(masks);
      }
    }
    (maskedResult ^ OrAll(masks)) == 1
  }

  /** Receiver: the OR of masked[i] XOR flags[i] over its own flags, which it sends back. */
  function ReceiverReply(flags: seq<Byte>, masked: seq<Byte>): (reply: Byte)
    requires |masked| == |flags|
    ensures reply == 0 <==> forall i :: 0 <= i < |flags| ==> masked[i] == flags[i]
    ensures IsBits(masked) && IsBits(flags) ==> (reply == 0 || reply == 1)
  {
    var diffs := seq(|flags|, i requires 0 <= i < |flags| => masked[i] ^ flags[i]);
    OrAllZero(diffs);
    assert forall i :: 0 <= i < |flags| ==> (diffs[i] == 0 <==> masked[i] == flags[i]);
    assert IsBits(masked) && IsBits(flags) ==> OrAll(diffs) == 0 || OrAll(diffs) == 1 by {
      if IsBits(masked) && IsBits(flags) {
        OrAllBits(diffs);
      }
    }
    OrAll(diffs)
  }

  /** The receiver's own outcome: its reply is 1. */
  function ReceiverResult(reply: Byte): (r: bool)
    ensures r ==> reply != 0
    ensures reply <= 1 ==> (r <==> reply != 0)
  {
    reply == 1
  }

  /** The outcomes of both parties. */
  datatype Outcome = Outcome(sender: bool, receiver: bool)

  /** testAnyOne run by both parties over a faithful channel, each holding `flags`, as the
      online phase of the sender and receiver programs calls it. */
  function TestAnyOneAsWritten(flags: seq<Byte>, raws: seq<Byte>): (o: Outcome)
    requires |raws| == |flags|
    ensures !o.sender
    ensures o.receiver <==> OrAll(Masks(raws)) == 1
  {
    var masks := Masks(raws);
    var reply := ReceiverReply(flags, MaskFlags(flags, masks));
    ReplyIsMaskOr(flags, masks);
    assert reply ^ OrAll(masks) == 0;
    Outcome(SenderResult(masks, reply), ReceiverResult(reply))
  }

  /** As written, the outcome is the same whatever flags the two parties hold: it depends
      on the random masks alone. */
  lemma AsWrittenIgnoresFlags(flags1: seq<Byte>, flags2: seq<Byte>, raws: seq<Byte>)
    requires |raws| == |flags1| == |flags2|
    ensures TestAnyOneAsWritten(flags1, raws) == TestAnyOneAsWritten(flags2, raws)
  {
    var o1, o2 := TestAnyOneAsWritten(flags1, raws), TestAnyOneAsWritten(flags2, raws);
    assert o1.sender == o2.sender && o1.receiver == o2.receiver;
  }

  /** When both sides hold the same flags, masked[i] XOR flags[i] is masks[i]. */
  lemma {:induction false} ReplyIsMaskOr(flags: seq<Byte>, masks: seq<Byte>)
    requires |masks| == |flags|
    ensures ReceiverReply(flags, MaskFlags(flags, masks)) == OrAll(masks)
  {
    var masked := MaskFlags(flags, masks);
    var diffs := seq(|flags|, i requires 0 <= i < |flags| => masked[i] ^ flags[i]);
    assert diffs == masks;
  }

  /** The flags [1] with the random byte 0: one flag is 1, yet both parties report no
      match. */
  lemma AsWrittenMissesSetFlag()
    ensures AnyOne([1])
    ensures TestAnyOneAsWritten([1], [0]) == Outcome(false, false)
  {
    assert [1 as Byte][0] == 1;
    assert Masks([0]) == [0];
    assert OrAll([0]) == 0;
  }

  /** The corrected receiver also XORs the OR of its own flags into the reply and
      reports that OR, so that the sender's unmasking leaves exactly the OR of the flags. */
  function CorrectedReceiverReply(flags: seq<Byte>, masked: seq<Byte>): Byte
    requires |masked| == |flags|
  {
    ReceiverReply(flags, masked) ^ OrAll(flags)
  }

  function TestAnyOneCorrected(flags: seq<Byte>, raws: seq<Byte>): Outcome
    requires |raws| == |flags|
  {
    var masks := Masks(raws);
    var reply := CorrectedReceiverReply(flags, MaskFlags(flags, masks));
    Outcome(SenderResult(masks, reply), ReceiverResult(OrAll(flags)))
  }

  /** With the correction both parties learn whether at least one flag is 1, for every
      choice of random masks. */
  lemma CorrectedComputesAnyOne(flags: seq<Byte>, raws: seq<Byte>)
    requires |raws| == |flags| && IsBits(flags)
    ensures TestAnyOneCorrected(flags, raws).sender <==> AnyOne(flags)
    ensures TestAnyOneCorrected(flags, raws).receiver <==> AnyOne(flags)
  {
    var masks := Masks(raws);
    ReplyIsMaskOr(flags, masks);
    OrAllBits(flags);
    var m, f := OrAll(masks), OrAll(flags);
    assert (m ^ f) ^ m == f;
  }

  // ---------------------------------------------------------------------------
  // ObliviousTransfer

  /** The bytes of a cryptoTools block. */
  const BlockSize: nat := 16

  type Key = k: seq<Byte> | |k| == BlockSize witness seq(16, _ => 0)

  /** encryptMessage: byte i of the message XOR byte (i mod 16) of the key. */
  function EncryptMessage(msg: seq<Byte>, key: Key): (enc: seq<Byte>)
    ensures |enc| == |msg|
    ensures forall i :: 0 <= i < |msg| ==> enc[i] ^ key[i % BlockSize] == msg[i]
  {
    seq(|msg|, i requires 0 <= i < |msg| => msg[i] ^ key[i % BlockSize])
  }

  /** decryptMessage for a message type of `size` bytes: the same XOR on the first `size`
      bytes of the ciphertext. */
  function DecryptMessage(enc: seq<Byte>, key: Key, size: nat): (msg: seq<Byte>)
    requires size <= |enc|
    ensures |msg| == size
    ensures EncryptMessage(msg, key) == enc[..size]
  {
    var msg := seq(size, i requires 0 <= i < size => enc[i] ^ key[i % BlockSize]);
    var back := EncryptMessage(msg, key);
    assert forall i :: 0 <= i < size ==> back[i] == (enc[i] ^ key[i % BlockSize]) ^ key[i % BlockSize];
    msg
  }

  /** Decrypting with the same key recovers the message byte for byte. */
  lemma DecryptEncrypt(msg: seq<Byte>, key: Key)
    ensures DecryptMessage(EncryptMessage(msg, key), key, |msg|) == msg
  {
    var r := DecryptMessage(EncryptMessage(msg, key), key, |msg|);
    assert forall i :: 0 <= i < |msg| ==> r[i] == msg[i];
  }

  /** What send puts on the channel, in order: both ciphertexts, then both keys. */
  datatype Transcript = Transcript(enc0: seq<Byte>, enc1: seq<Byte>, k0: Key, k1: Key)

  /** send: encrypt each message under its own fresh key and send everything. */
  function Send(msg0: seq<Byte>, msg1: seq<Byte>, k0: Key, k1: Key): (t: Transcript)
    ensures t.k0 == k0 && t.k1 == k1
    ensures |t.enc0| == |msg0| && |t.enc1| == |msg1|
  {
    Transcript(EncryptMessage(msg0, k0), EncryptMessage(msg1, k1), k0, k1)
  }

  /** receive: decrypt the first ciphertext when the choice byte is 0, the second one
      otherwise. */
  function Receive(choice: Byte, t: Transcript, size: nat): (m: seq<Byte>)
    requires choice == 0 ==> size <= |t.enc0|
    requires choice != 0 ==> size <= |t.enc1|
    ensures |m| == size
    ensures choice == 0 ==> EncryptMessage(m, t.k0) == t.enc0[..size]
    ensures choice != 0 ==> EncryptMessage(m, t.k1) == t.enc1[..size]
  {
    if choice == 0 then DecryptMessage(t.enc0, t.k0, size) else DecryptMessage(t.enc1, t.k1, size)
  }

  /** Over a faithful channel the receiver gets msg0 for choice 0 and msg1 for any other
      choice byte. */
  lemma ReceiveSend(choice: Byte, msg0: seq<Byte>, msg1: seq<Byte>, k0: Key, k1: Key)
    requires |msg0| == |msg1|
    ensures Receive(choice, Send(msg0, msg1, k0, k1), |msg0|) == if choice == 0 then msg0 else msg1
  {
    DecryptEncrypt(msg0, k0);
    DecryptEncrypt(msg1, k1);
  }
}
