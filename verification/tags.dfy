/** The tags an ID set is made of. Both implementations build each tag as the string
    "l||p" (subset index, two bars, parity, both in decimal); the model keeps the pair and
    proves that the rendering loses nothing, so sets of pairs and sets of strings agree. */
module Tags {

  /** Subset index l and the parity p of the vector on that subset. */
  datatype Tag = Tag(l: nat, p: bv8)

  predicate IsDigit(c: char) { '0' <= c <= '9' }

  function Digit(n: nat): (c: char)
    requires n < 10
    ensures IsDigit(c)
  {
    "0123456789"[n]
  }

  /** Decimal rendering without leading zeros, as std::to_string and Python's str do for
      non-negative integers. */
  function Decimal(n: nat): (s: string)
    ensures 0 < |s|
    ensures n >= 10 ==> 2 <= |s|
    ensures AllDigits(s)
  {
    if n < 10 then [Digit(n)] else Decimal(n / 10) + [Digit(n % 10)]
  }

  function DigitValue(c: char): (n: nat)
    requires IsDigit(c)
    ensures n < 10 && Digit(n) == c
  {
    (c as int - '0' as int) as nat
  }

  /** Reads a string of decimal digits back as a number; the inverse of Decimal. */
  function ReadDecimal(s: string): nat
    requires AllDigits(s)
  {
    if |s| == 0 then 0 else 10 * ReadDecimal(s[..|s| - 1]) + DigitValue(s[|s| - 1])
  }

  lemma {:induction false} ReadDecimalRoundTrip(n: nat)
    ensures ReadDecimal(Decimal(n)) == n
  {
    var s := Decimal(n);
    DigitRoundTrip(n % 10);
    if n >= 10 {
      assert s[..|s| - 1] == Decimal(n / 10);
      ReadDecimalRoundTrip(n / 10);
      assert n == 10 * (n / 10) + n % 10;
    } else {
      assert s[..0] == [];
    }
  }

  /** A digit character reads back as its value. */
  lemma DigitRoundTrip(n: nat)
    requires n < 10
    ensures DigitValue(Digit(n)) == n
  {
  }

  /** Length of the run of digits that starts the string. */
  function DigitRun(s: string): (n: nat)
    ensures n <= |s|
    ensures AllDigits(s[..n])
  {
    if |s| == 0 || !IsDigit(s[0]) then 0 else 1 + DigitRun(s[1..])
  }

  lemma {:induction false} DigitRunStopsAtBar(a: string, x: string)
    requires AllDigits(a)
    requires 0 < |x| && x[0] == '|'
    ensures DigitRun(a + x) == |a|
  {
    if |a| > 0 {
      assert (a + x)[1..] == a[1..] + x;
      DigitRunStopsAtBar(a[1..], x);
    }
  }

  /** The key "{l}||{p}" under which a tag is stored. */
  function Render(t: Tag): (key: string)
    ensures var i := DigitRun(key);
      0 < i && i + 2 < |key| && key[i..i + 2] == "||" && AllDigits(key[i + 2..])
      && ReadDecimal(key[..i]) == t.l && ReadDecimal(key[i + 2..]) == t.p as nat
  {
    var a, b := Decimal(t.l), Decimal(t.p as nat);
    KeySplits(a, b);
    ReadDecimalRoundTrip(t.l);
    ReadDecimalRoundTrip(t.p as nat);
    a + "||" + b
  }

  predicate AllDigits(s: string) {
    forall i :: 0 <= i < |s| ==> IsDigit(s[i])
  }

  /** Splits a key at the first non-digit, expects "||" there and digits after it. */
  function Parse(s: string): (t: Option)
  {
    var i := DigitRun(s);
    if 0 < i && i + 2 < |s| && s[i..i + 2] == "||" && AllDigits(s[i + 2..])
       && ReadDecimal(s[i + 2..]) < 256
    then Some(Tag(ReadDecimal(s[..i]), ReadDecimal(s[i + 2..]) as bv8))
    else None
  }

  datatype Option = None | Some(tag: Tag)

  /** Parsing a rendered key gives back the tag. */
  lemma ParseRender(t: Tag)
    ensures Parse(Render(t)) == Some(t)
  {
    var a, b := Decimal(t.l), Decimal(t.p as nat);
    KeySplits(a, b);
    ReadDecimalRoundTrip(t.l);
    ReadDecimalRoundTrip(t.p as nat);
    ByteRoundTrip(t.p);
  }

  /** In a key "a||b" with a non-empty digit string a, the leading digit run is a, the
      two bars follow it and b is the rest. */
  lemma KeySplits(a: string, b: string)
    requires 0 < |a| && AllDigits(a) && 0 < |b|
    ensures var r := a + "||" + b;
      DigitRun(r) == |a| && r[..|a|] == a && r[|a|..|a| + 2] == "||" && r[|a| + 2..] == b
  {
    var r := a + "||" + b;
    assert r == a + ("||" + b);
    DigitRunStopsAtBar(a, "||" + b);
  }

  /** A byte read back from its value is the same byte. */
  lemma ByteRoundTrip(x: bv8)
    ensures (x as nat) as bv8 == x
  {
  }

  /** Two tags render to the same key exactly when they are the same tag. */
  lemma RenderInjective(t1: Tag, t2: Tag)
    ensures Render(t1) == Render(t2) <==> t1 == t2
  {
    ParseRender(t1);
    ParseRender(t2);
  }

  /** Rendering a set of tags keeps membership: a key is present exactly when its tag is. */
  lemma RenderKeepsMembership(t: Tag, ids: set<Tag>)
    ensures Render(t) in (set u | u in ids :: Render(u)) <==> t in ids
  {
    if Render(t) in (set u | u in ids :: Render(u)) {
      var u :| u in ids && Render(u) == Render(t);
      RenderInjective(t, u);
    }
  }
}
