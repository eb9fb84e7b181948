/** utils/base58.rs: the base58 encoder, and a decoder that inverts it. */
module Base58 {
  import opened Bytes

  function Run(from: byte, n: nat): (r: Bytes)
    requires from + n <= 0x100
  {
    seq(n, i requires 0 <= i < n => from + i)
  }

  /** `1`-`9`, `A`-`H`, `J`-`N`, `P`-`Z`, `a`-`k`, `m`-`z`. */
  const ALPHABET: Bytes :=
    Run(0x31, 9) + Run(0x41, 8) + Run(0x4a, 5) + Run(0x50, 11) + Run(0x61, 11) + Run(0x6d, 14)

  type digit = d: int | 0 <= d < 58

  // ---- Encoding on values ----

  function Head(digits: seq<digit>): (d: nat)
  {
    if digits == [] then 0 else digits[0]
  }

  function Tail(digits: seq<digit>): (r: seq<digit>)
    ensures |r| == if digits == [] then 0 else |digits| - 1
  {
    if digits == [] then [] else digits[1..]
  }

  /** One outer iteration: `256 * digits + carry`, little-endian base 58, by schoolbook carrying. */
  function MulAdd(digits: seq<digit>, carry: nat): (r: seq<digit>)
    decreases |digits|, carry
  {
    if digits == [] && carry == 0 then []
    else
      var c := carry + 0x100 * Head(digits);
      [c % 58] + MulAdd(Tail(digits), c / 58)
  }

  /** The base-58 digits of the bytes, least significant first. */
  function Digits(s: Bytes): (r: seq<digit>)
  {
    if s == [] then [] else MulAdd(Digits(s[..|s| - 1]), s[|s| - 1])
  }

  function LeadingZeros(s: Bytes): (n: nat)
    ensures n <= |s|
  {
    if s != [] && s[0] == 0 then 1 + LeadingZeros(s[1..]) else 0
  }

  function Letters(digits: seq<digit>): (r: Bytes)
  {
    if digits == [] then [] else Letters(digits[1..]) + [ALPHABET[digits[0]]]
  }

  function Ones(n: nat): (r: Bytes)
    ensures |r| == n
  {
    seq(n, _ => 0x31)
  }

  /** What `encode_base58` writes. */
  function Encoded(input: Bytes): (r: Bytes)
  {
    var zeros := LeadingZeros(input);
    Ones(zeros) + Letters(Digits(input[zeros..]))
  }

  // ---- An independent decoder ----

  function LetterValue(b: byte): (r: Option<digit>)
  {
    if 0x31 <= b <= 0x39 then Some(b - 0x31)
    else if 0x41 <= b <= 0x48 then Some(b - 0x41 + 9)
    else if 0x4a <= b <= 0x4e then Some(b - 0x4a + 17)
    else if 0x50 <= b <= 0x5a then Some(b - 0x50 + 22)
    else if 0x61 <= b <= 0x6b then Some(b - 0x61 + 33)
    else if 0x6d <= b <= 0x7a then Some(b - 0x6d + 44)
    else None
  }

  /** The number a base58 text denotes, most significant letter first. */
  function TextValue(s: Bytes): (r: Option<nat>)
  {
    if s == [] then Some(0)
    else
      match (TextValue(s[..|s| - 1]), LetterValue(s[|s| - 1]))
      case (Some(high), Some(low)) => Some(58 * high + low)
      case _ => None
  }

  /** The shortest big-endian byte string of a number. */
  function ToBytes(n: nat): (r: Bytes)
  {
    if n == 0 then [] else ToBytes(n / 0x100) + [n % 0x100]
  }

  function LeadingOnes(s: Bytes): (n: nat)
    ensures n <= |s|
  {
    if s != [] && s[0] == 0x31 then 1 + LeadingOnes(s[1..]) else 0
  }

  /** Each leading `1` is a zero byte; the rest is a number in base 58. */
  function Decoded(text: Bytes): (r: Option<Bytes>)
  {
    var ones := LeadingOnes(text);
    match TextValue(text[ones..])
    case Some(n) => Some(seq(ones, _ => 0) + ToBytes(n))
    case None => None
  }

  // ---- Values ----

  function DigitsValue(digits: seq<digit>): (n: nat)
  {
    if digits == [] then 0 else digits[0] + 58 * DigitsValue(digits[1..])
  }

  /** Big-endian value of a byte string. */
  function BytesValue(s: Bytes): (n: nat)
  {
    if s == [] then 0 else 0x100 * BytesValue(s[..|s| - 1]) + s[|s| - 1]
  }

  lemma {:induction false} MulAddValue(digits: seq<digit>, carry: nat)
    ensures DigitsValue(MulAdd(digits, carry)) == 0x100 * DigitsValue(digits) + carry
    decreases |digits|, carry
  {
    if digits != [] || carry != 0 {
      var c := carry + 0x100 * Head(digits);
      MulAddValue(Tail(digits), c / 58);
      assert MulAdd(digits, carry)[1..] == MulAdd(Tail(digits), c / 58);
      assert c == 58 * (c / 58) + c % 58;
    }
  }

  predicate NoTopZero(digits: seq<digit>)
  {
    digits != [] ==> digits[|digits| - 1] != 0
  }

  lemma {:induction false} MulAddTop(digits: seq<digit>, carry: nat)
    requires NoTopZero(digits)
    ensures NoTopZero(MulAdd(digits, carry))
    ensures digits != [] || carry != 0 ==> MulAdd(digits, carry) != []
    decreases |digits|, carry
  {
    if digits != [] || carry != 0 {
      MulAddTop(Tail(digits), (carry + 0x100 * Head(digits)) / 58);
    }
  }

  lemma {:induction false} DigitsCorrect(s: Bytes)
    ensures DigitsValue(Digits(s)) == BytesValue(s)
    ensures NoTopZero(Digits(s))
  {
    if s != [] {
      DigitsCorrect(s[..|s| - 1]);
      MulAddValue(Digits(s[..|s| - 1]), s[|s| - 1]);
      MulAddTop(Digits(s[..|s| - 1]), s[|s| - 1]);
    }
  }

  lemma AlphabetRead(d: digit)
    ensures LetterValue(ALPHABET[d]) == Some(d)
    ensures ALPHABET[d] == 0x31 <==> d == 0
  {}

  lemma {:induction false} LettersRead(digits: seq<digit>)
    ensures |Letters(digits)| == |digits|
    ensures TextValue(Letters(digits)) == Some(DigitsValue(digits))
    ensures digits != [] ==> Letters(digits)[0] == ALPHABET[digits[|digits| - 1]]
  {
    if digits != [] {
      LettersRead(digits[1..]);
      AlphabetRead(digits[0]);
      var s := Letters(digits);
      assert s[..|s| - 1] == Letters(digits[1..]);
    }
  }

  lemma {:induction false} ToBytesInverse(s: Bytes)
    requires s != [] ==> s[0] != 0
    ensures ToBytes(BytesValue(s)) == s
    ensures s != [] ==> BytesValue(s) > 0
  {
    if s != [] {
      var init := s[..|s| - 1];
      ToBytesInverse(init);
      assert s == init + [s[|s| - 1]];
      var n := BytesValue(s);
      assert n / 0x100 == BytesValue(init) && n % 0x100 == s[|s| - 1];
    }
  }

  lemma {:induction false} LeadingZerosSplit(s: Bytes)
    ensures var n := LeadingZeros(s);
            && s == seq(n, _ => 0) + s[n..]
            && (s[n..] != [] ==> s[n] != 0)
  {
    if s != [] && s[0] == 0 {
      LeadingZerosSplit(s[1..]);
    }
  }

  lemma {:induction false} LeadingOnesOf(n: nat, rest: Bytes)
    requires rest != [] ==> rest[0] != 0x31
    ensures LeadingOnes(Ones(n) + rest) == n
  {
    var s := Ones(n) + rest;
    if n == 0 {
      assert s == rest;
    } else {
      assert s[1..] == Ones(n - 1) + rest;
      LeadingOnesOf(n - 1, rest);
    }
  }

  /** Decoding what the encoder writes gives the input back, leading zero bytes included. */
  lemma RoundTrip(input: Bytes)
    ensures Decoded(Encoded(input)) == Some(input)
  {
    var zeros := LeadingZeros(input);
    var rest := input[zeros..];
    var digits := Digits(rest);
    LeadingZerosSplit(input);
    DigitsCorrect(rest);
    LettersRead(digits);
    ToBytesInverse(rest);
    if digits != [] {
      AlphabetRead(digits[|digits| - 1]);
    }
    LeadingOnesOf(zeros, Letters(digits));
    assert Encoded(input)[zeros..] == Letters(digits);
  }

  // ---- Sizes ----

  lemma {:induction false} BytesValueBound(s: Bytes)
    ensures BytesValue(s) < Pow(0x100, |s|)
  {
    if s != [] {
      BytesValueBound(s[..|s| - 1]);
    }
  }

  lemma {:induction false} DigitsValueLow(digits: seq<digit>)
    requires digits != [] && NoTopZero(digits)
    ensures Pow(58, |digits| - 1) <= DigitsValue(digits)
  {
    if |digits| > 1 {
      DigitsValueLow(digits[1..]);
    }
  }

  /** A byte string whose value is below 58^n needs at most n digits. */
  lemma DigitsFit(s: Bytes, n: nat)
    requires Pow(0x100, |s|) <= Pow(58, n)
    ensures |Digits(s)| <= n
  {
    var digits := Digits(s);
    DigitsCorrect(s);
    BytesValueBound(s);
    if |digits| > n {
      DigitsValueLow(digits);
      PowMonotone(58, n, |digits| - 1);
    }
  }

  lemma Powers8()
    ensures Pow(0x100, 8) <= Pow(58, 11)
  {
    PowersOf256();
    assert Pow(58, 3) == 195112;
    assert Pow(58, 4) == 11316496;
    PowAdd(58, 4, 4);
    PowAdd(58, 8, 3);
  }

  lemma SquareMonotone(x: nat, y: nat)
    requires x <= y
    ensures x * x <= y * y
  {
    assert x * x <= x * y <= y * y;
  }

  lemma Powers32()
    ensures Pow(0x100, 32) <= Pow(58, 44)
  {
    Powers8();
    PowAdd(0x100, 8, 8);
    PowAdd(0x100, 16, 16);
    PowAdd(58, 11, 11);
    PowAdd(58, 22, 22);
    SquareMonotone(Pow(0x100, 8), Pow(58, 11));
    SquareMonotone(Pow(0x100, 16), Pow(58, 22));
  }

  /** Dropping a byte frees more than one digit: 256^k <= 58^(k + 12) for every k up to 32. */
  lemma {:induction false} PowersUpTo32(k: nat)
    requires k <= 32
    ensures Pow(0x100, k) <= Pow(58, k + 12)
    decreases 32 - k
  {
    if k == 32 {
      Powers32();
    } else {
      PowersUpTo32(k + 1);
      assert Pow(0x100, k + 1) == 0x100 * Pow(0x100, k);
      assert Pow(58, k + 13) == 58 * Pow(58, k + 12);
    }
  }

  /** Every 32-byte address fits 44 characters. */
  lemma AddressFits(input: Bytes)
    requires |input| <= 32
    ensures |Encoded(input)| <= |input| + 12
    ensures |Digits(input[LeadingZeros(input)..])| <= 64
  {
    var zeros := LeadingZeros(input);
    PowersUpTo32(|input| - zeros);
    DigitsFit(input[zeros..], |input| - zeros + 12);
    LettersRead(Digits(input[zeros..]));
  }

  // ---- The in-place encoder ----

  /** How the encoder can end: bytes written, buffer too small (`None`), or an index past the work buffer. */
  datatype Outcome = Written(count: nat) | TooSmall | Aborted

  lemma {:induction false} MulAddGrows(digits: seq<digit>, carry: nat)
    ensures |digits| <= |MulAdd(digits, carry)|
    decreases |digits|, carry
  {
    if digits != [] || carry != 0 {
      MulAddGrows(Tail(digits), (carry + 0x100 * Head(digits)) / 58);
    }
  }

  /** The digits the inner loop has not visited yet, and the next of them. */
  function Pending(was: seq<digit>, j: nat): (r: seq<digit>)
  {
    if j < |was| then was[j..] else []
  }

  function Next(was: seq<digit>, j: nat, carry: nat): (c: nat)
  {
    carry + 0x100 * if j < |was| then was[j] as int else 0
  }

  lemma CarryStep(was: seq<digit>, b: byte, done: seq<digit>, j: nat, carry: nat)
    requires done + MulAdd(Pending(was, j), carry) == MulAdd(was, b)
    requires j < |was| || carry > 0
    ensures var c := Next(was, j, carry);
            done + [c % 58] + MulAdd(Pending(was, j + 1), c / 58) == MulAdd(was, b)
    ensures |done| < |MulAdd(was, b)|
  {
    var rest, next := Pending(was, j), Pending(was, j + 1);
    var c := Next(was, j, carry);
    MulAddUnfold(rest, carry);
    assert Tail(rest) == next && c == carry + 0x100 * Head(rest);
    hide MulAdd;
    assert MulAdd(rest, carry) == [c % 58] + MulAdd(next, c / 58);
    Reassociate(done, [c % 58], MulAdd(next, c / 58));
  }

  lemma Reassociate(a: seq<digit>, b: seq<digit>, c: seq<digit>)
    ensures a + (b + c) == a + b + c
  {}

  lemma MulAddUnfold(digits: seq<digit>, carry: nat)
    requires digits != [] || carry > 0
    ensures var c := carry + 0x100 * Head(digits);
            MulAdd(digits, carry) == [c % 58] + MulAdd(Tail(digits), c / 58)
  {}

  lemma NothingPending()
    ensures MulAdd([], 0) == []
  {}

  /** The inner loop: replaces the first `len` digits by 256 times their number plus `b`. */
  method Accumulate(digits: array<digit>, len: nat, b: byte) returns (j: nat, fits: bool)
    requires len <= digits.Length
    modifies digits
    ensures fits <==> |MulAdd(old(digits[..len]), b)| <= digits.Length
    ensures fits ==> j == |MulAdd(old(digits[..len]), b)| && digits[..j] == MulAdd(old(digits[..len]), b)
  {
    hide MulAdd;
    ghost var was := digits[..len];
    var carry: nat := b;
    j := 0;
    while j < len || carry > 0
      invariant j <= digits.Length
      invariant carry <= 255
      invariant digits[..j] + MulAdd(Pending(was, j), carry) == MulAdd(was, b)
      invariant forall k :: j <= k < len ==> digits[k] == was[k]
      decreases if j < len then len - j else 0, carry
    {
      CarryStep(was, b, digits[..j], j, carry);
      if j == digits.Length {
        fits := false;
        return;
      }
      if j < len {
        carry := carry + 0x100 * (digits[j] as int);
      }
      ghost var before := digits[..j];
      digits[j] := carry % 58;
      assert digits[..j + 1] == before + [carry % 58];
      carry := carry / 58;
      j := j + 1;
    }
    NothingPending();
    fits := true;
  }

  lemma {:induction false} DigitsGrow(s: Bytes, k: nat)
    requires k <= |s|
    ensures |Digits(s[..k])| <= |Digits(s)|
    decreases |s|
  {
    if k < |s| {
      var init := s[..|s| - 1];
      DigitsGrow(init, k);
      assert init[..k] == s[..k];
      MulAddGrows(Digits(init), s[|s| - 1]);
    } else {
      assert s[..k] == s;
    }
  }

  /** The outer loop over the bytes after the leading zeros. */
  method DigitsOf(rest: Bytes, digits: array<digit>) returns (len: nat, fits: bool)
    modifies digits
    ensures fits <==> |Digits(rest)| <= digits.Length
    ensures fits ==> len == |Digits(rest)| && digits[..len] == Digits(rest)
  {
    len, fits := 0, true;
    assert rest[..0] == [];
    for i := 0 to |rest|
      invariant len == |Digits(rest[..i])| <= digits.Length
      invariant digits[..len] == Digits(rest[..i])
    {
      assert rest[..i + 1][..i] == rest[..i];
      DigitsGrow(rest, i + 1);
      len, fits := Accumulate(digits, len, rest[i]);
      if !fits {
        return;
      }
    }
    assert rest[..|rest|] == rest;
  }

  method EncodeBase58(input: Bytes, buf: array<byte>) returns (r: Outcome)
    modifies buf
    ensures r == Aborted <==> |Digits(input[LeadingZeros(input)..])| > 64
    ensures r == TooSmall ==> |Encoded(input)| > buf.Length
    ensures r.Written? ==> r.count == |Encoded(input)| <= buf.Length
                           && buf[..] == Encoded(input) + old(buf[r.count..])
    ensures !r.Written? ==> buf[..] == old(buf[..])
  {
    hide LeadingZeros, Letters, Ones, TextValue, MulAdd, Digits;
    var zeros := LeadingZeros(input);
    var digits := new digit[64](_ => 0);
    var len, fits := DigitsOf(input[zeros..], digits);
    if !fits {
      return Aborted;
    }
    LettersRead(Digits(input[zeros..]));
    if zeros + len > buf.Length {
      return TooSmall;
    }
    WriteText(zeros, digits, len, buf);
    r := Written(zeros + len);
  }

  /** The letters in reverse digit order, after one `1` for each leading zero byte. */
  method WriteText(zeros: nat, digits: array<digit>, len: nat, buf: array<byte>)
    requires len <= digits.Length && zeros + len <= buf.Length
    modifies buf
    ensures |Letters(old(digits[..len]))| == len
    ensures buf[..] == Ones(zeros) + Letters(old(digits[..len])) + old(buf[zeros + len..])
  {
    hide *;
    ghost var all := digits[..len];
    var pos := 0;
    while pos < zeros
      invariant pos <= zeros
      invariant forall k :: 0 <= k < pos ==> buf[k] == 0x31
      invariant forall k :: pos <= k < buf.Length ==> buf[k] == old(buf[k])
    {
      buf[pos] := 0x31;
      pos := pos + 1;
    }
    OnesAre(buf[..pos]);
    ghost var head := buf[..pos];
    NoLetters();
    assert all[len..] == [];
    var i := len;
    while i > 0
      invariant i <= len && pos == zeros + (len - i)
      invariant |Letters(all[i..])| == len - i
      invariant buf[..pos] == head + Letters(all[i..])
      invariant forall k :: pos <= k < buf.Length ==> buf[k] == old(buf[k])
    {
      i := i - 1;
      ghost var before := buf[..pos];
      LettersStep(all, i);
      buf[pos] := ALPHABET[digits[i]];
      assert buf[..pos + 1] == before + [ALPHABET[digits[i]]];
      pos := pos + 1;
    }
    assert all[0..] == all;
    assert buf[pos..] == old(buf[zeros + len..]);
    assert buf[..] == buf[..pos] + buf[pos..];
  }

  lemma OnesAre(s: Bytes)
    requires forall k :: 0 <= k < |s| ==> s[k] == 0x31
    ensures s == Ones(|s|)
  {}

  lemma NoLetters()
    ensures Letters([]) == []
  {}

  lemma LettersStep(digits: seq<digit>, i: nat)
    requires i < |digits|
    ensures |ALPHABET| == 58
    ensures Letters(digits[i..]) == Letters(digits[i + 1..]) + [ALPHABET[digits[i]]]
  {
    assert digits[i..][1..] == digits[i + 1..];
  }
}
