/** Bytes, machine integers, results and the two orders every other module relies on. */
module Bytes {

  type byte = x: int | 0 <= x < 0x100
  type u16 = x: int | 0 <= x < 0x1_0000
  type u32 = x: int | 0 <= x < 0x1_0000_0000
  type u64 = x: int | 0 <= x < 0x1_0000_0000_0000_0000
  type u128 = x: int | 0 <= x < 0x1_0000_0000_0000_0000_0000_0000_0000_0000
  type i64 = x: int | -0x8000_0000_0000_0000 <= x < 0x8000_0000_0000_0000

  type Bytes = seq<byte>
  type Digest = s: Bytes | |s| == 32 witness seq(32, _ => 0)
  type Address = Digest

  /** The error codes the program returns; `Panic` is a run-time abort (slice out of range and the like). */
  datatype ProgramError =
    | InvalidArgument
    | InvalidInstructionData
    | MissingRequiredSignature
    | NotEnoughAccountKeys
    | InvalidSeeds
    | ArithmeticOverflow
    | Immutable
    | UninitializedAccount
    | Panic

  datatype Result<+T> = Ok(value: T) | Err(error: ProgramError) {
    predicate IsFailure() { Err? }

    function PropagateFailure<U>(): Result<U>
      requires Err?
    {
      Err(error)
    }

    function Extract(): T
      requires Ok?
    {
      value
    }
  }

  datatype Option<+T> = None | Some(value: T)

  /** `slice.get(from..to)`. */
  function GetSlice(s: Bytes, from: nat, to: nat): (r: Option<Bytes>)
  {
    if from <= to <= |s| then Some(s[from..to]) else None
  }

  /** The bytes of a text literal. */
  function Ascii(text: string): (r: Bytes)
    requires forall i :: 0 <= i < |text| ==> text[i] as int < 0x80
  {
    seq(|text|, i requires 0 <= i < |text| => text[i] as int)
  }

  function Pow(base: nat, exponent: nat): (r: nat)
  {
    if exponent == 0 then 1 else base * Pow(base, exponent - 1)
  }

  lemma {:induction false} PowPositive(base: nat, exponent: nat)
    requires base > 0
    ensures Pow(base, exponent) > 0
  {
    if exponent > 0 {
      PowPositive(base, exponent - 1);
    }
  }

  lemma {:induction false} PowAdd(base: nat, m: nat, n: nat)
    ensures Pow(base, m + n) == Pow(base, m) * Pow(base, n)
  {
    hide Pow;
    if m == 0 {
      PowZero(base);
    } else {
      PowAdd(base, m - 1, n);
      PowStep(base, m);
      PowStep(base, m + n);
      MulAssoc(base, Pow(base, m - 1), Pow(base, n));
    }
  }

  lemma PowZero(base: nat)
    ensures Pow(base, 0) == 1
  {}

  lemma PowStep(base: nat, exponent: nat)
    requires exponent > 0
    ensures Pow(base, exponent) == base * Pow(base, exponent - 1)
  {}

  lemma MulAssoc(a: nat, b: nat, c: nat)
    ensures a * (b * c) == (a * b) * c
  {}

  lemma {:induction false} PowMonotone(base: nat, m: nat, n: nat)
    requires base > 0 && m <= n
    ensures Pow(base, m) <= Pow(base, n)
    decreases n
  {
    if m < n {
      PowMonotone(base, m, n - 1);
      ScaleUp(base, Pow(base, n - 1));
    }
  }

  lemma ScaleUp(k: nat, x: nat)
    requires k > 0
    ensures x <= k * x
  {
    assert k * x == x + (k - 1) * x;
  }

  /** `uN::from_le_bytes`. */
  function FromLE(s: Bytes): (r: nat)
  {
    if s == [] then 0 else s[0] + 0x100 * FromLE(s[1..])
  }

  lemma {:induction false} FromLEBound(s: Bytes)
    ensures FromLE(s) < Pow(0x100, |s|)
  {
    if s != [] {
      FromLEBound(s[1..]);
    }
  }

  /** The low bytes of a little-endian number are the number modulo a power of 256. */
  lemma {:induction false} FromLEPrefix(s: Bytes, n: nat)
    requires n <= |s|
    ensures FromLE(s) == FromLE(s[..n]) + Pow(0x100, n) * FromLE(s[n..])
  {
    hide FromLE, Pow;
    if n == 0 {
      assert s[..0] == [] && s[0..] == s;
      PowZero(0x100);
      FromLENone();
    } else {
      FromLEPrefix(s[1..], n - 1);
      assert s[..n][1..] == s[1..][..n - 1];
      assert s[1..][n - 1..] == s[n..];
      FromLEStep(s);
      FromLEStep(s[..n]);
      PowStep(0x100, n);
      ShiftByte(s[0], FromLE(s[..n][1..]), Pow(0x100, n - 1), FromLE(s[n..]));
    }
  }

  lemma FromLENone()
    ensures FromLE([]) == 0
  {}

  lemma FromLEStep(s: Bytes)
    requires s != []
    ensures FromLE(s) == s[0] + 0x100 * FromLE(s[1..])
  {}

  lemma ShiftByte(x: nat, low: nat, p: nat, high: nat)
    ensures x + 0x100 * (low + p * high) == (x + 0x100 * low) + (0x100 * p) * high
  {
    MulAssoc(0x100, p, high);
  }

  /** Equal-length little-endian encodings of equal numbers are equal. */
  lemma {:induction false} FromLEInjective(a: Bytes, b: Bytes)
    requires |a| == |b| && FromLE(a) == FromLE(b)
    ensures a == b
  {
    if a != [] {
      FromLEInjective(a[1..], b[1..]);
      assert a == [a[0]] + a[1..] && b == [b[0]] + b[1..];
    }
  }

  lemma PowersOf256()
    ensures Pow(0x100, 1) == 0x100
    ensures Pow(0x100, 2) == 0x1_0000
    ensures Pow(0x100, 4) == 0x1_0000_0000
    ensures Pow(0x100, 8) == 0x1_0000_0000_0000_0000
    ensures Pow(0x100, 16) == 0x1_0000_0000_0000_0000_0000_0000_0000_0000
  {
    PowAdd(0x100, 1, 1);
    PowAdd(0x100, 2, 2);
    PowAdd(0x100, 4, 4);
    PowAdd(0x100, 8, 8);
  }

  /** Byte-wise lexicographic order. */
  predicate LexLess(a: Bytes, b: Bytes)
  {
    if b == [] then false
    else if a == [] then true
    else if a[0] != b[0] then a[0] < b[0]
    else LexLess(a[1..], b[1..])
  }

  lemma {:induction false} LexLessConcat(a: Bytes, b: Bytes, c: Bytes, d: Bytes)
    requires |a| == |b|
    ensures LexLess(a + c, b + d) <==> LexLess(a, b) || (a == b && LexLess(c, d))
  {
    if a == [] {
      assert a + c == c && b + d == d;
    } else {
      LexLessConcat(a[1..], b[1..], c, d);
      assert (a + c)[1..] == a[1..] + c && (b + d)[1..] == b[1..] + d;
      assert a == [a[0]] + a[1..] && b == [b[0]] + b[1..];
    }
  }

  /** Equal concatenations with equal-length heads have equal parts. */
  lemma ConcatCancel<T>(a: seq<T>, b: seq<T>, c: seq<T>, d: seq<T>)
    requires a + c == b + d
    requires |a| == |b| || |c| == |d|
    ensures a == b && c == d
  {
    assert |a + c| == |b + d|;
    assert a == (a + c)[..|a|] && b == (b + d)[..|b|];
    assert c == (a + c)[|a|..] && d == (b + d)[|b|..];
  }
}
