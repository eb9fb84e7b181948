/** Number printing in utils/message.rs: decimal and hexadecimal text, and the parsers that invert it. */
module Decimal {
  import opened Bytes

  /** Decimal digits, most significant first; the loop of `push_u64` and `push_u128` writes these bytes. */
  function DecimalText(n: nat): (r: Bytes)
    ensures |r| > 0
  {
    if n < 10 then [0x30 + n] else DecimalText(n / 10) + [0x30 + n % 10]
  }

  function DigitValue(b: byte): (r: Option<nat>)
  {
    if 0x30 <= b <= 0x39 then Some(b - 0x30) else None
  }

  predicate AllDigits(s: Bytes)
  {
    forall i :: 0 <= i < |s| ==> DigitValue(s[i]).Some?
  }

  /** The number a digit string denotes (0 for the empty string); `None` if a byte is not a digit. */
  function ReadDigits(s: Bytes): (r: Option<nat>)
    ensures r.Some? <==> AllDigits(s)
  {
    if s == [] then Some(0)
    else
      assert AllDigits(s) <==> AllDigits(s[..|s| - 1]) && DigitValue(s[|s| - 1]).Some?;
      match (ReadDigits(s[..|s| - 1]), DigitValue(s[|s| - 1]))
      case (Some(high), Some(low)) => Some(10 * high + low)
      case _ => None
  }

  lemma {:induction false} ReadDigitsGrow(s: Bytes, k: nat)
    requires k <= |s| && AllDigits(s)
    ensures AllDigits(s[..k]) && ReadDigits(s[..k]).value <= ReadDigits(s).value
    decreases |s|
  {
    if k < |s| {
      assert s[..|s| - 1][..k] == s[..k];
      ReadDigitsGrow(s[..|s| - 1], k);
    } else {
      assert s[..k] == s;
    }
  }

  predicate Canonical(s: Bytes)
  {
    s != [] && AllDigits(s) && (|s| > 1 ==> s[0] != 0x30)
  }

  /** Printing then reading is the identity, and no superfluous zero is printed. */
  lemma {:induction false} DecimalRoundTrip(n: nat)
    ensures Canonical(DecimalText(n))
    ensures ReadDigits(DecimalText(n)) == Some(n)
    ensures n > 0 ==> DecimalText(n)[0] != 0x30
  {
    var s := DecimalText(n);
    if n < 10 {
      assert s[..0] == [];
    } else {
      DecimalRoundTrip(n / 10);
      assert s[..|s| - 1] == DecimalText(n / 10);
      assert s[0] == DecimalText(n / 10)[0];
    }
  }

  /** Reading then printing is the identity on digit strings without superfluous zeros. */
  lemma {:induction false} DecimalCanonical(s: Bytes)
    requires Canonical(s)
    ensures DecimalText(ReadDigits(s).value) == s
    ensures |s| > 1 ==> ReadDigits(s).value >= 10
  {
    var high, low := s[..|s| - 1], DigitValue(s[|s| - 1]);
    assert s == high + [s[|s| - 1]];
    if |s| == 1 {
      assert high == [];
    } else {
      DecimalCanonical(high);
      assert |high| == 1 ==> high[..0] == [];
      var h := ReadDigits(high).value;
      assert h > 0;
      assert (10 * h + low.value) / 10 == h;
    }
  }

  lemma {:induction false} DecimalLength(n: nat, k: nat)
    requires k > 0 && n < Pow(10, k)
    ensures |DecimalText(n)| <= k
  {
    if n >= 10 {
      assert Pow(10, 1) == 10;
      assert n / 10 < Pow(10, k - 1);
      DecimalLength(n / 10, k - 1);
    }
  }

  /** 20 digits hold every u64 and 39 digits every u128. */
  lemma MachineWidths()
    ensures Pow(10, 20) >= 0x1_0000_0000_0000_0000
    ensures Pow(10, 39) >= 0x1_0000_0000_0000_0000_0000_0000_0000_0000
  {
    assert Pow(10, 4) == 10000;
    assert Pow(10, 3) == 1000;
    PowAdd(10, 4, 4);
    PowAdd(10, 8, 8);
    PowAdd(10, 16, 4);
    PowAdd(10, 16, 16);
    PowAdd(10, 32, 4);
    PowAdd(10, 36, 3);
  }

  /** The digits the loop still has to write. */
  function Unwritten(v: nat): (r: Bytes)
  {
    if v > 0 then DecimalText(v) else []
  }

  lemma NothingWritten(val: nat, after: Bytes)
    requires val > 0 && after == []
    ensures Unwritten(val) + after == DecimalText(val)
  {
    assert DecimalText(val) + [] == DecimalText(val);
  }

  lemma DigitStep(v: nat, after: Bytes)
    requires v > 0
    ensures Unwritten(v / 10) + ([0x30 + v % 10] + after) == Unwritten(v) + after
  {
    assert Unwritten(v) == Unwritten(v / 10) + [0x30 + v % 10];
  }

  lemma AllWritten(after: Bytes)
    ensures Unwritten(0) + after == after
  {}

  lemma TenthBelow(v: nat, k: nat)
    requires 0 < v < Pow(10, k)
    ensures k > 0 && v / 10 < Pow(10, k - 1)
  {}

  /** The digit loop of `push_u64` and `push_u128`: fills `buf` from its end. */
  method WriteDigits(buf: array<byte>, val: nat) returns (pos: nat)
    requires 0 < val < Pow(10, buf.Length)
    modifies buf
    ensures pos <= buf.Length && buf[pos..] == DecimalText(val)
  {
    hide Pow, DecimalText, Unwritten;
    pos := buf.Length;
    var v: nat := val;
    NothingWritten(val, buf[pos..]);
    while v > 0
      invariant pos <= buf.Length
      invariant v < Pow(10, pos)
      invariant Unwritten(v) + buf[pos..] == DecimalText(val)
    {
      ghost var after := buf[pos..];
      TenthBelow(v, pos);
      DigitStep(v, after);
      pos := pos - 1;
      buf[pos] := 0x30 + v % 10;
      assert buf[pos..] == [0x30 + v % 10] + after;
      v := v / 10;
    }
    AllWritten(buf[pos..]);
  }

  // ---- Signed numbers ----

  /** `(val as u64).wrapping_neg()` of a negative `val`. */
  function Magnitude(val: i64): (r: u64)
  {
    (0x1_0000_0000_0000_0000 - val % 0x1_0000_0000_0000_0000) % 0x1_0000_0000_0000_0000
  }

  function SignedText(val: i64): (r: Bytes)
  {
    if val < 0 then [0x2d] + DecimalText(Magnitude(val)) else DecimalText(val)
  }

  function ReadSigned(s: Bytes): (r: Option<int>)
  {
    if s != [] && s[0] == 0x2d then
      match ReadDigits(s[1..])
      case Some(n) => Some(0 - n)
      case None => None
    else
      match ReadDigits(s)
      case Some(n) => Some(n)
      case None => None
  }

  lemma MagnitudeIs(val: i64)
    requires val < 0
    ensures Magnitude(val) == 0 - val
  {
    assert val % 0x1_0000_0000_0000_0000 == val + 0x1_0000_0000_0000_0000;
  }

  /** Signed printing round-trips, -2^63 included. */
  lemma SignedRoundTrip(val: i64)
    ensures ReadSigned(SignedText(val)) == Some(val)
  {
    if val < 0 {
      MagnitudeIs(val);
      DecimalRoundTrip(0 - val);
      assert SignedText(val)[1..] == DecimalText(0 - val);
    } else {
      DecimalRoundTrip(val);
    }
  }

  // ---- Hexadecimal ----

  function HexDigit(n: nat): (r: byte)
    requires n < 16
  {
    if n < 10 then 0x30 + n else 0x61 + (n - 10)
  }

  function HexText(s: Bytes): (r: Bytes)
    ensures |r| == 2 * |s|
  {
    if s == [] then [] else [HexDigit(s[0] / 16), HexDigit(s[0] % 16)] + HexText(s[1..])
  }

  lemma {:induction false} HexAppend(a: Bytes, b: Bytes)
    ensures HexText(a + b) == HexText(a) + HexText(b)
  {
    if a == [] {
      assert a + b == b;
    } else {
      HexAppend(a[1..], b);
      assert (a + b)[1..] == a[1..] + b;
    }
  }

  lemma {:induction false} HexInjective(a: Bytes, b: Bytes)
    requires HexText(a) == HexText(b)
    ensures a == b
  {
    assert |a| == |b|;
    if a != [] {
      var s, t := HexText(a), HexText(b);
      assert s[0] == t[0] && s[1] == t[1];
      assert a[0] == 16 * (a[0] / 16) + a[0] % 16 && b[0] == 16 * (b[0] / 16) + b[0] % 16;
      assert s[2..] == HexText(a[1..]) && t[2..] == HexText(b[1..]);
      HexInjective(a[1..], b[1..]);
      assert a == [a[0]] + a[1..] && b == [b[0]] + b[1..];
    }
  }

  // ---- Where a run of digits ends ----

  /** Two digit runs followed by the same non-digit are equal when the whole texts are. */
  lemma DigitRunFront(d1: Bytes, d2: Bytes, r1: Bytes, r2: Bytes)
    requires AllDigits(d1) && AllDigits(d2)
    requires r1 != [] && r2 != [] && DigitValue(r1[0]) == None && DigitValue(r2[0]) == None
    requires d1 + r1 == d2 + r2
    ensures d1 == d2 && r1 == r2
  {
    var s := d1 + r1;
    assert s[|d1|] == r1[0] && s[|d2|] == (d2 + r2)[|d2|] == r2[0];
    ConcatCancel(d1, d2, r1, r2);
  }

  /** Two trailing digit runs, each after a non-digit, are equal when the whole texts are. */
  lemma DigitRunBack(p1: Bytes, p2: Bytes, d1: Bytes, d2: Bytes)
    requires AllDigits(d1) && AllDigits(d2)
    requires p1 != [] && p2 != [] && DigitValue(p1[|p1| - 1]) == None && DigitValue(p2[|p2| - 1]) == None
    requires p1 + d1 == p2 + d2
    ensures p1 == p2 && d1 == d2
  {
    var s := p1 + d1;
    assert |s| == |p2 + d2|;
    assert s[|p1| - 1] == p1[|p1| - 1] && s[|p2| - 1] == (p2 + d2)[|p2| - 1] == p2[|p2| - 1];
    ConcatCancel(p1, p2, d1, d2);
  }
}
