/** The CommStats byte counters of the C++ protocol code (utils.h): bytes sent and bytes
    received, each a uint64_t that wraps around modulo 2^64. */
module Stats {

  const Modulus: nat := 0x1_0000_0000_0000_0000

  /** A uint64_t value. */
  type U64 = x: int | 0 <= x < Modulus

  /** Addition of uint64_t values, wrapping around. */
  function Add64(a: U64, b: U64): (r: U64)
    ensures a + b < Modulus ==> r == a + b
    ensures a + b >= Modulus ==> r == a + b - Modulus
  {
    (a + b) % Modulus
  }

  datatype CommStats = CommStats(sent: U64, received: U64)
  {
    /** addSent: only the sent counter moves, by `bytes`. */
    function AddSent(bytes: U64): (r: CommStats)
      ensures r.GetBytesReceived() == GetBytesReceived()
      ensures r.GetBytesSent() == Add64(GetBytesSent(), bytes)
    {
      this.(sent := Add64(sent, bytes))
    }

    /** addReceived: only the received counter moves, by `bytes`. */
    function AddReceived(bytes: U64): (r: CommStats)
      ensures r.GetBytesSent() == GetBytesSent()
      ensures r.GetBytesReceived() == Add64(GetBytesReceived(), bytes)
    {
      this.(received := Add64(received, bytes))
    }

    /** getBytesSent: the sent counter, which with the received counter is the whole
        state of the object. */
    function GetBytesSent(): (r: U64)
      ensures this == CommStats(r, received)
    {
      sent
    }

    /** getBytesReceived: the received counter, which with the sent counter is the whole
        state of the object. */
    function GetBytesReceived(): (r: U64)
      ensures this == CommStats(sent, r)
    {
      received
    }

    /** getTotalBytes: the uint64_t sum of both counters. */
    function GetTotalBytes(): (t: U64)
      ensures t == (GetBytesSent() + GetBytesReceived()) % Modulus
    {
      Add64(sent, received)
    }

    /** reset: both counters back to zero, as for a fresh object. */
    function Reset(): (r: CommStats)
      ensures r.GetBytesSent() == 0 && r.GetBytesReceived() == 0
      ensures r == Fresh()
    {
      CommStats(0, 0)
    }
  }

  /** A default-constructed CommStats: both counters start at zero. */
  function Fresh(): (s: CommStats)
    ensures s.GetBytesSent() == 0 && s.GetBytesReceived() == 0 && s.GetTotalBytes() == 0
  {
    CommStats(0, 0)
  }

  /** Every addition, sent or received, moves the total by the same amount (mod 2^64). */
  lemma AddsMoveTotal(s: CommStats, bytes: U64)
    ensures s.AddSent(bytes).GetTotalBytes() == Add64(s.GetTotalBytes(), bytes)
    ensures s.AddReceived(bytes).GetTotalBytes() == Add64(s.GetTotalBytes(), bytes)
  {
  }

  /** Two additions to one counter are one addition of the wrapped sum, and additions
      to different counters commute. */
  lemma AddsCompose(s: CommStats, a: U64, b: U64)
    ensures s.AddSent(a).AddSent(b) == s.AddSent(Add64(a, b))
    ensures s.AddReceived(a).AddReceived(b) == s.AddReceived(Add64(a, b))
    ensures s.AddSent(a).AddReceived(b) == s.AddReceived(b).AddSent(a)
  {
  }

  /** One call on a CommStats object: addSent or addReceived with a byte count. */
  datatype Op = Sent(bytes: U64) | Received(bytes: U64)

  function Apply(s: CommStats, op: Op): CommStats {
    match op
    case Sent(n) => s.AddSent(n)
    case Received(n) => s.AddReceived(n)
  }

  /** The calls made on an object, in order, in any interleaving of the two kinds. */
  function Replay(s: CommStats, ops: seq<Op>): CommStats
    decreases |ops|
  {
    if |ops| == 0 then s else Replay(Apply(s, ops[0]), ops[1..])
  }

  /** The byte counts passed to addSent, in call order. */
  function SentSizes(ops: seq<Op>): seq<U64> {
    if |ops| == 0 then []
    else (if ops[0].Sent? then [ops[0].bytes] else []) + SentSizes(ops[1..])
  }

  /** The byte counts passed to addReceived, in call order. */
  function ReceivedSizes(ops: seq<Op>): seq<U64> {
    if |ops| == 0 then []
    else (if ops[0].Received? then [ops[0].bytes] else []) + ReceivedSizes(ops[1..])
  }

  /** The wrapped sum of byte counts. */
  function Sum64(xs: seq<U64>): U64 {
    if |xs| == 0 then 0 else Add64(xs[0], Sum64(xs[1..]))
  }

  /** Wrapping addition is associative. */
  lemma Add64Assoc(a: U64, b: U64, c: U64)
    ensures Add64(Add64(a, b), c) == Add64(a, Add64(b, c))
  {
  }

  /** The wrapped sum of a list with one more count in front. */
  lemma Sum64Cons(x: U64, xs: seq<U64>)
    ensures Sum64([x] + xs) == Add64(x, Sum64(xs))
  {
    assert ([x] + xs)[1..] == xs;
  }

  /** After any sequence of calls, each counter holds its start value plus the wrapped sum
      of the byte counts passed to its own add method; the other kind of call leaves it
      alone. */
  lemma {:induction false} ReplayCounts(s: CommStats, ops: seq<Op>)
    ensures Replay(s, ops).GetBytesSent() == Add64(s.GetBytesSent(), Sum64(SentSizes(ops)))
    ensures Replay(s, ops).GetBytesReceived() == Add64(s.GetBytesReceived(), Sum64(ReceivedSizes(ops)))
    decreases |ops|
  {
    if |ops| == 0 {
      assert SentSizes(ops) == [] && ReceivedSizes(ops) == [];
    } else {
      var rest := ops[1..];
      ReplayCounts(Apply(s, ops[0]), rest);
      match ops[0]
      case Sent(n) =>
        assert SentSizes(ops) == [n] + SentSizes(rest);
        assert ReceivedSizes(ops) == ReceivedSizes(rest);
        Sum64Cons(n, SentSizes(rest));
        Add64Assoc(s.GetBytesSent(), n, Sum64(SentSizes(rest)));
      case Received(n) =>
        assert ReceivedSizes(ops) == [n] + ReceivedSizes(rest);
        assert SentSizes(ops) == SentSizes(rest);
        Sum64Cons(n, ReceivedSizes(rest));
        Add64Assoc(s.GetBytesReceived(), n, Sum64(ReceivedSizes(rest)));
    }
  }
}
