/** utils/datetime.rs: the 19-byte text of a timestamp. */
module TimestampText {
  import opened Bytes
  import opened Calendar
  import opened Decimal

  // ---- What is written ----

  /** `val as u32`. */
  function AsU32(val: int): (r: u32)
  {
    val % 0x1_0000_0000
  }

  /** `b'0' + val as u8`, both operations wrapping at a byte. */
  function DigitByte(val: nat): (r: byte)
  {
    (0x30 + val % 0x100) % 0x100
  }

  function Decimal2(val: u32): (r: Bytes)
    ensures |r| == 2
  {
    [DigitByte(val / 10), DigitByte(val % 10)]
  }

  function Decimal4(val: u32): (r: Bytes)
    ensures |r| == 4
  {
    [DigitByte(val / 1000), DigitByte(val / 100 % 10), DigitByte(val / 10 % 10), DigitByte(val % 10)]
  }

  function PartsText(p: Parts): (r: Bytes)
    ensures |r| == 19
  {
    Decimal4(AsU32(p.year)) + [0x2d] + Decimal2(AsU32(p.month)) + [0x2d] + Decimal2(AsU32(p.day))
    + [0x20] + Decimal2(AsU32(p.hour)) + [0x3a] + Decimal2(AsU32(p.minute)) + [0x3a] + Decimal2(AsU32(p.second))
  }

  function Text(timestamp: i64): (r: Bytes)
    ensures |r| == 19
  {
    PartsText(TimestampToParts(timestamp))
  }

  // ---- Writing it in place ----

  /** Replaces the bytes of `s` from `offset` on by `piece`. */
  function Overwrite(s: Bytes, offset: nat, piece: Bytes): (r: Bytes)
    requires offset + |piece| <= |s|
    ensures |r| == |s|
  {
    s[..offset] + piece + s[offset + |piece|..]
  }

  method WriteDecimal2(buf: array<byte>, offset: nat, val: u32)
    requires offset + 2 <= buf.Length
    modifies buf
    ensures buf[..] == Overwrite(old(buf[..]), offset, Decimal2(val))
  {
    buf[offset] := DigitByte(val / 10);
    buf[offset + 1] := DigitByte(val % 10);
  }

  method WriteDecimal4(buf: array<byte>, offset: nat, val: u32)
    requires offset + 4 <= buf.Length
    modifies buf
    ensures buf[..] == Overwrite(old(buf[..]), offset, Decimal4(val))
  {
    buf[offset] := DigitByte(val / 1000);
    buf[offset + 1] := DigitByte(val / 100 % 10);
    buf[offset + 2] := DigitByte(val / 10 % 10);
    buf[offset + 3] := DigitByte(val % 10);
  }

  lemma OverwriteAppend(s: Bytes, offset: nat, a: Bytes, b: Bytes)
    requires offset + |a| + |b| <= |s|
    ensures Overwrite(Overwrite(s, offset, a), offset + |a|, b) == Overwrite(s, offset, a + b)
  {}

  lemma OverwriteOne(s: Bytes, offset: nat, b: byte)
    requires offset < |s|
    ensures s[offset := b] == Overwrite(s, offset, [b])
  {}

  /** Formats into the slice `buf[start..]`; `None` when fewer than 19 bytes are left. */
  method FormatTimestamp(timestamp: i64, buf: array<byte>, start: nat) returns (r: Option<nat>)
    requires start <= buf.Length
    modifies buf
    ensures buf.Length - start < 19 ==> r == None && buf[..] == old(buf[..])
    ensures buf.Length - start >= 19 ==>
              r == Some(19) && buf[..] == Overwrite(old(buf[..]), start, Text(timestamp))
  {
    if buf.Length - start < 19 {
      return None;
    }
    WriteParts(TimestampToParts(timestamp), buf, start);
    r := Some(19);
  }

  method WriteParts(p: Parts, buf: array<byte>, start: nat)
    requires start + 19 <= buf.Length
    modifies buf
    ensures buf[..] == Overwrite(old(buf[..]), start, PartsText(p))
  {
    ghost var was := buf[..];
    ghost var text := Decimal4(AsU32(p.year));
    WriteDecimal4(buf, start, AsU32(p.year));
    buf[start + 4] := 0x2d;
    assert buf[..] == Overwrite(was, start, text + [0x2d]);
    text := text + [0x2d];
    text := Field2(buf, start + 5, AsU32(p.month), was, start, text, 0x2d);
    text := Field2(buf, start + 8, AsU32(p.day), was, start, text, 0x20);
    text := Field2(buf, start + 11, AsU32(p.hour), was, start, text, 0x3a);
    text := Field2(buf, start + 14, AsU32(p.minute), was, start, text, 0x3a);
    WriteDecimal2(buf, start + 17, AsU32(p.second));
    OverwriteAppend(was, start, text, Decimal2(AsU32(p.second)));
  }

  /** Writes one two-digit field and the separator after it. */
  method Field2(buf: array<byte>, offset: nat, val: u32, ghost was: Bytes, ghost start: nat, ghost text: Bytes,
                separator: byte)
    returns (ghost longer: Bytes)
    requires offset + 3 <= buf.Length == |was|
    requires offset == start + |text|
    requires buf[..] == Overwrite(was, start, text)
    modifies buf
    ensures longer == text + Decimal2(val) + [separator]
    ensures buf[..] == Overwrite(was, start, longer)
  {
    hide Decimal2, Overwrite;
    WriteDecimal2(buf, offset, val);
    OverwriteAppend(was, start, text, Decimal2(val));
    ghost var between := buf[..];
    buf[offset + 2] := separator;
    assert buf[..] == between[offset + 2 := separator];
    OverwriteOne(between, offset + 2, separator);
    OverwriteAppend(was, start, text + Decimal2(val), [separator]);
    longer := text + Decimal2(val) + [separator];
  }

  // ---- Reading it back ----

  /** Reads `YYYY-MM-DD HH:MM:SS` as a count of seconds from 1970; `None` unless it names a legal date and time. */
  function ReadTimestamp(s: Bytes): (r: Option<int>)
  {
    if |s| == 19 && s[4] == 0x2d && s[7] == 0x2d && s[10] == 0x20 && s[13] == 0x3a && s[16] == 0x3a then
      match (ReadDigits(s[..4]), ReadDigits(s[5..7]), ReadDigits(s[8..10]),
             ReadDigits(s[11..13]), ReadDigits(s[14..16]), ReadDigits(s[17..]))
      case (Some(year), Some(month), Some(day), Some(hour), Some(minute), Some(second)) =>
        if year < 10000 && month < 100 && day < 100 && hour < 100 && minute < 100 && second < 100
           && Legal(Parts(year, month, day, hour, minute, second))
        then Some(Seconds(Parts(year, month, day, hour, minute, second)))
        else None
      case _ => None
    else None
  }

  // ---- What the text determines ----

  /** The part of the year that the four bytes keep. */
  function YearCode(year: int): (r: nat)
  {
    AsU32(year) % 256000
  }

  lemma Decimal4Code(n: u32)
    ensures Decimal4(n) == Decimal4(n % 256000)
  {
    var q, c := n / 256000, n % 256000;
    Digit1000(n, q, c);
    Digit100(n, q, c);
    Digit10(n, q, c);
    Digit1(n, q, c);
  }

  lemma Decimal4Plain(c: u32)
    requires c < 256000
    ensures Decimal4(c) == [(0x30 + c / 1000) % 0x100, 0x30 + c / 100 % 10, 0x30 + c / 10 % 10, 0x30 + c % 10]
  {
    hide DigitByte;
    LeadingRange(c);
    HighDigit(c / 1000);
    PlainDigit(c / 100 % 10);
    PlainDigit(c / 10 % 10);
    PlainDigit(c % 10);
  }

  lemma HighDigit(x: nat)
    requires x < 0x100
    ensures DigitByte(x) == (0x30 + x) % 0x100
  {}

  lemma PlainDigit(n: nat)
    requires n < 10
    ensures DigitByte(n) == 0x30 + n
  {}

  lemma Digit1000(n: nat, q: nat, c: nat)
    requires n == 256000 * q + c && c < 256000
    ensures DigitByte(n / 1000) == DigitByte(c / 1000)
  {
    Thousands(256 * q, c);
    SameByte(q, c / 1000);
  }

  lemma SameByte(q: nat, x: nat)
    ensures DigitByte(0x100 * q + x) == DigitByte(x)
  {
    assert (0x100 * q + x) % 0x100 == x % 0x100;
  }

  lemma Thousands(k: nat, c: nat)
    ensures (1000 * k + c) / 1000 == k + c / 1000
  {}

  lemma Hundreds(k: nat, c: nat)
    ensures (100 * k + c) / 100 == k + c / 100
  {}

  lemma Tens(k: nat, c: nat)
    ensures (10 * k + c) / 10 == k + c / 10 && (10 * k + c) % 10 == c % 10
  {}

  lemma Digit100(n: nat, q: nat, c: nat)
    requires n == 256000 * q + c && c < 256000
    ensures n / 100 % 10 == c / 100 % 10
  {
    Hundreds(2560 * q, c);
    Tens(256 * q, c / 100);
  }

  lemma Digit10(n: nat, q: nat, c: nat)
    requires n == 256000 * q + c && c < 256000
    ensures n / 10 % 10 == c / 10 % 10
  {
    Tens(25600 * q, c);
    Tens(2560 * q, c / 10);
  }

  lemma Digit1(n: nat, q: nat, c: nat)
    requires n == 256000 * q + c && c < 256000
    ensures n % 10 == c % 10
  {
    Tens(25600 * q, c);
  }

  /** The four bytes of a year determine its code, and nothing more. */
  lemma Decimal4Equal(a: u32, b: u32)
    ensures Decimal4(a) == Decimal4(b) <==> a % 256000 == b % 256000
  {
    Decimal4Code(a);
    Decimal4Code(b);
    Decimal4Plain(a % 256000);
    Decimal4Plain(b % 256000);
    if Decimal4(a) == Decimal4(b) {
      DigitsEqual(a % 256000, b % 256000);
    }
  }

  lemma DigitsEqual(a: nat, b: nat)
    requires a < 256000 && b < 256000
    requires (0x30 + a / 1000) % 0x100 == (0x30 + b / 1000) % 0x100
    requires a / 100 % 10 == b / 100 % 10 && a / 10 % 10 == b / 10 % 10 && a % 10 == b % 10
    ensures a == b
  {
    FourDigits(a);
    FourDigits(b);
    SameLetter(a / 1000, b / 1000);
  }

  lemma SameLetter(x: nat, y: nat)
    requires x < 256 && y < 256 && (0x30 + x) % 0x100 == (0x30 + y) % 0x100
    ensures x == y
  {}

  lemma FourDigits(a: nat)
    ensures a == 1000 * (a / 1000) + 100 * (a / 100 % 10) + 10 * (a / 10 % 10) + a % 10
  {
    var b := a / 10;
    var c := b / 10;
    DivDiv10(a);
    DivDiv100(a);
    assert a == 10 * b + a % 10 && b == 10 * c + b % 10 && c == 10 * (c / 10) + c % 10;
  }

  lemma DivDiv10(a: nat)
    ensures a / 10 / 10 == a / 100
  {}

  lemma DivDiv100(a: nat)
    ensures a / 100 / 10 == a / 1000
  {}

  /** As long as the leading byte does not wrap (208000 = (256 - 48) * 1000), byte order is numeric order. */
  lemma Decimal4Order(a: u32, b: u32)
    requires a < 208000 && b < 208000
    ensures LexLess(Decimal4(a), Decimal4(b)) <==> a < b
  {
    LeadingByte(a);
    LeadingByte(b);
    LexLess4(Decimal4(a), Decimal4(b));
    FourDigits(a);
    FourDigits(b);
    DigitOrder(a / 1000, a / 100 % 10, a / 10 % 10, a % 10, b / 1000, b / 100 % 10, b / 10 % 10, b % 10);
  }

  lemma LeadingByte(c: u32)
    requires c < 208000
    ensures Decimal4(c) == [0x30 + c / 1000, 0x30 + c / 100 % 10, 0x30 + c / 10 % 10, 0x30 + c % 10]
  {
    Decimal4Plain(c);
    assert 0x30 + c / 1000 < 0x100;
  }

  lemma DigitOrder(a3: nat, a2: nat, a1: nat, a0: nat, b3: nat, b2: nat, b1: nat, b0: nat)
    requires a2 < 10 && a1 < 10 && a0 < 10 && b2 < 10 && b1 < 10 && b0 < 10
    ensures a3 < b3 || (a3 == b3 && (a2 < b2 || (a2 == b2 && (a1 < b1 || (a1 == b1 && a0 < b0)))))
            <==> 1000 * a3 + 100 * a2 + 10 * a1 + a0 < 1000 * b3 + 100 * b2 + 10 * b1 + b0
  {}

  lemma LexLess4(s: Bytes, t: Bytes)
    requires |s| == |t| == 4
    ensures LexLess(s, t) <==>
            s[0] < t[0] || (s[0] == t[0]
                            && (s[1] < t[1] || (s[1] == t[1] && (s[2] < t[2] || (s[2] == t[2] && s[3] < t[3])))))
  {
    assert LexLess(s[1..][1..], t[1..][1..]) <==>
           s[2] < t[2] || (s[2] == t[2] && s[3] < t[3]) by {
      assert LexLess(s[1..][1..][1..], t[1..][1..][1..]) <==> s[3] < t[3];
    }
  }

  lemma Decimal2Order(a: u32, b: u32)
    requires a < 100 && b < 100
    ensures LexLess(Decimal2(a), Decimal2(b)) <==> a < b
    ensures Decimal2(a) == Decimal2(b) <==> a == b
  {
    Decimal2Plain(a);
    Decimal2Plain(b);
    var s, t := Decimal2(a), Decimal2(b);
    assert LexLess(s[1..], t[1..]) <==> s[1] < t[1];
    assert a == 10 * (a / 10) + a % 10 && b == 10 * (b / 10) + b % 10;
  }

  lemma Decimal2Plain(n: u32)
    requires n < 100
    ensures Decimal2(n) == [0x30 + n / 10, 0x30 + n % 10]
  {
    PlainDigit(n / 10);
    PlainDigit(n % 10);
  }

  // ---- The fields after the year ----

  datatype Field = Field(separator: byte, val: u32)

  function Join(fields: seq<Field>): (r: Bytes)
  {
    if fields == [] then [] else [fields[0].separator] + Decimal2(fields[0].val) + Join(fields[1..])
  }

  predicate FieldsLess(f: seq<Field>, g: seq<Field>)
    requires |f| == |g|
  {
    f != [] && (f[0].val < g[0].val || (f[0].val == g[0].val && FieldsLess(f[1..], g[1..])))
  }

  predicate SameShape(f: seq<Field>, g: seq<Field>)
  {
    && |f| == |g|
    && forall i :: 0 <= i < |f| ==> f[i].separator == g[i].separator && f[i].val < 100 && g[i].val < 100
  }

  lemma {:induction false} JoinOrder(f: seq<Field>, g: seq<Field>)
    requires SameShape(f, g)
    ensures |Join(f)| == |Join(g)|
    ensures LexLess(Join(f), Join(g)) <==> FieldsLess(f, g)
    ensures Join(f) == Join(g) <==> f == g
  {
    if f != [] {
      JoinOrder(f[1..], g[1..]);
      var (a, b) := (Decimal2(f[0].val), Decimal2(g[0].val));
      var (s, c, d) := ([f[0].separator], Join(f[1..]), Join(g[1..]));
      Decimal2Order(f[0].val, g[0].val);
      LexLessConcat(s, s, a, b);
      LexLessConcat(s + a, s + b, c, d);
      if Join(f) == Join(g) {
        ConcatCancel(s + a, s + b, c, d);
        ConcatCancel(s, s, a, b);
        assert f == [f[0]] + f[1..] && g == [g[0]] + g[1..];
      }
    }
  }

  function Fields(p: Parts): (r: seq<Field>)
  {
    [Field(0x2d, AsU32(p.month)), Field(0x2d, AsU32(p.day)), Field(0x20, AsU32(p.hour)),
     Field(0x3a, AsU32(p.minute)), Field(0x3a, AsU32(p.second))]
  }

  lemma PartsTextJoin(p: Parts)
    ensures PartsText(p) == Decimal4(AsU32(p.year)) + Join(Fields(p))
  {
    var f := Fields(p);
    assert Join(f[1..][1..][1..][1..]) == [0x3a] + Decimal2(AsU32(p.second));
    assert Join(f[1..][1..][1..]) == [0x3a] + Decimal2(AsU32(p.minute)) + Join(f[1..][1..][1..][1..]);
    assert Join(f[1..][1..]) == [0x20] + Decimal2(AsU32(p.hour)) + Join(f[1..][1..][1..]);
    assert Join(f[1..]) == [0x2d] + Decimal2(AsU32(p.day)) + Join(f[1..][1..]);
  }

  lemma FieldsOrder(p: Parts, q: Parts)
    requires Legal(p) && Legal(q)
    ensures PartsLess(p, q) <==> p.year < q.year || (p.year == q.year && FieldsLess(Fields(p), Fields(q)))
  {
    var f, g := Fields(p), Fields(q);
    PlainFields(p);
    PlainFields(q);
    var f3, g3 := f[1..][1..][1..], g[1..][1..][1..];
    assert FieldsLess(f3[1..], g3[1..]) <==> p.second < q.second;
    assert FieldsLess(f3, g3) <==> p.minute < q.minute || (p.minute == q.minute && p.second < q.second);
    var f2, g2 := f[1..][1..], g[1..][1..];
    assert FieldsLess(f2, g2) <==> DateLess(p.hour, p.minute, p.second, q.hour, q.minute, q.second);
  }

  lemma PlainFields(p: Parts)
    requires Legal(p)
    ensures Fields(p) == [Field(0x2d, p.month), Field(0x2d, p.day), Field(0x20, p.hour),
                          Field(0x3a, p.minute), Field(0x3a, p.second)]
    ensures SameShape(Fields(p), Fields(p))
  {}

  lemma FieldsEqual(p: Parts, q: Parts)
    requires Legal(p) && Legal(q)
    ensures SameShape(Fields(p), Fields(q))
    ensures Fields(p) == Fields(q) <==> p.(year := q.year) == q
  {
    PlainFields(p);
    PlainFields(q);
    var f, g := Fields(p), Fields(q);
    if f == g {
      assert f[0] == g[0] && f[1] == g[1] && f[2] == g[2] && f[3] == g[3] && f[4] == g[4];
    }
  }

  lemma PartsTextDetermines(p: Parts, q: Parts)
    requires Legal(p) && Legal(q)
    ensures PartsText(p) == PartsText(q) <==> p.(year := q.year) == q && YearCode(p.year) == YearCode(q.year)
  {
    PartsTextJoin(p);
    PartsTextJoin(q);
    FieldsEqual(p, q);
    JoinOrder(Fields(p), Fields(q));
    Decimal4Equal(AsU32(p.year), AsU32(q.year));
    if PartsText(p) == PartsText(q) {
      ConcatCancel(Decimal4(AsU32(p.year)), Decimal4(AsU32(q.year)), Join(Fields(p)), Join(Fields(q)));
    }
  }

  lemma PartsTextOrder(p: Parts, q: Parts)
    requires Legal(p) && Legal(q) && 0 <= p.year < 208000 && 0 <= q.year < 208000
    ensures LexLess(PartsText(p), PartsText(q)) <==> PartsLess(p, q)
  {
    hide *;
    SmallYear(p.year);
    SmallYear(q.year);
    PartsTextJoin(p);
    PartsTextJoin(q);
    FieldsEqual(p, q);
    FieldsOrder(p, q);
    YearThenFields(p.year, q.year, Fields(p), Fields(q));
  }

  lemma SmallYear(year: int)
    requires 0 <= year < 208000
    ensures AsU32(year) == YearCode(year) == year
  {}

  lemma YearThenFields(y: u32, z: u32, f: seq<Field>, g: seq<Field>)
    requires y < 208000 && z < 208000 && SameShape(f, g)
    ensures LexLess(Decimal4(y) + Join(f), Decimal4(z) + Join(g)) <==> y < z || (y == z && FieldsLess(f, g))
  {
    hide *;
    JoinOrder(f, g);
    Decimal4Order(y, z);
    Decimal4Equal(y, z);
    LexLessConcat(Decimal4(y), Decimal4(z), Join(f), Join(g));
  }

  /**
   Exactly what a timestamp's text says: two timestamps are written alike iff they agree on everything but the
   year and their years have the same code.
   */
  lemma TextDetermines(t1: i64, t2: i64)
    ensures var (p, q) := (TimestampToParts(t1), TimestampToParts(t2));
            Text(t1) == Text(t2) <==> p.(year := q.year) == q && YearCode(p.year) == YearCode(q.year)
  {
    CalendarCorrect(t1);
    CalendarCorrect(t2);
    PartsTextDetermines(TimestampToParts(t1), TimestampToParts(t2));
  }

  /** Beyond those years texts repeat: 1970 and 257970 begin alike. */
  lemma TextCollision()
    ensures Text(0) == Text(8_078_579_712_000)
  {
    hide TimestampToParts, Text;
    EpochParts();
    LaterParts();
    TextDetermines(0, 8_078_579_712_000);
  }

  lemma EpochParts()
    ensures TimestampToParts(0) == Parts(1970, 1, 1, 0, 0, 0)
  {
    hide *;
    var p := Parts(1970, 1, 1, 0, 0, 0);
    EpochSeconds(p);
    CalendarInverse(p);
  }

  lemma EpochSeconds(p: Parts)
    requires p == Parts(1970, 1, 1, 0, 0, 0)
    ensures Legal(p) && Seconds(p) == 0
  {
    hide DaysBeforeYear, IsLeapYear;
    assert DaysBeforeYear(1970) == 0 by { DaysBeforeYearClosed(1970); }
  }

  lemma LaterParts()
    ensures TimestampToParts(8_078_579_712_000) == Parts(257970, 1, 1, 0, 0, 0)
  {
    hide *;
    var p := Parts(257970, 1, 1, 0, 0, 0);
    LaterSeconds(p);
    CalendarInverse(p);
  }

  lemma LaterSeconds(p: Parts)
    requires p == Parts(257970, 1, 1, 0, 0, 0)
    ensures Legal(p) && Seconds(p) == 8_078_579_712_000
  {
    DaysBeforeYearClosed(257970);
    hide DaysBeforeYear, IsLeapYear;
  }

  /** In the years 0 to 207999 the text is an order isomorphism, hence one-to-one. */
  lemma TextOrder(t1: i64, t2: i64)
    requires 0 <= TimestampToParts(t1).year < 208000
    requires 0 <= TimestampToParts(t2).year < 208000
    ensures LexLess(Text(t1), Text(t2)) <==> t1 < t2
    ensures Text(t1) == Text(t2) <==> t1 == t2
  {
    CalendarCorrect(t1);
    CalendarCorrect(t2);
    TextOrderAt(t1, t2, TimestampToParts(t1), TimestampToParts(t2));
  }

  lemma TextOrderAt(t1: i64, t2: i64, p: Parts, q: Parts)
    requires Legal(p) && Legal(q) && 0 <= p.year < 208000 && 0 <= q.year < 208000
    requires Seconds(p) == t1 && Seconds(q) == t2
    ensures LexLess(PartsText(p), PartsText(q)) <==> t1 < t2
    ensures PartsText(p) == PartsText(q) <==> t1 == t2
  {
    hide *;
    SmallYear(p.year);
    SmallYear(q.year);
    PartsTextOrder(p, q);
    PartsTextDetermines(p, q);
    SecondsOrder(p, q);
  }

  // ---- Reading the text back ----

  lemma ReadDecimal2(n: u32)
    requires n < 100
    ensures ReadDigits(Decimal2(n)) == Some(n)
  {
    Decimal2Plain(n);
    var s := Decimal2(n);
    assert s[..1] == [s[0]] && s[..1][..0] == [];
    assert ReadDigits(s[..1]) == Some(n / 10);
  }

  lemma ReadDecimal4(n: u32)
    ensures ReadDigits(Decimal4(n)) == if n % 256000 < 10000 then Some(n % 256000) else None
  {
    hide Decimal4, DigitByte, ReadDigits, DigitValue;
    var c := n % 256000;
    Decimal4Code(n);
    Decimal4Plain(c);
    LeadingRange(c);
    LeadingDigit(c / 1000);
    FourDigits(c);
    ReadFour(Decimal4(n), DigitValue((0x30 + c / 1000) % 0x100), c / 100 % 10, c / 10 % 10, c % 10);
  }

  lemma LeadingRange(c: nat)
    requires c < 256000
    ensures c / 1000 < 0x100 && (c / 1000 < 10 <==> c < 10000)
  {}

  lemma LeadingDigit(x: nat)
    requires x < 0x100
    ensures DigitValue((0x30 + x) % 0x100) == if x < 10 then Some(x) else None
  {}

  lemma ReadFour(s: Bytes, a: Option<nat>, b: nat, c: nat, d: nat)
    requires |s| == 4 && b < 10 && c < 10 && d < 10
    requires DigitValue(s[0]) == a && s[1] == 0x30 + b && s[2] == 0x30 + c && s[3] == 0x30 + d
    ensures ReadDigits(s) == if a.Some? then Some(1000 * a.value + 100 * b + 10 * c + d) else None
  {
    var s3, s2, s1 := s[..3], s[..2], s[..1];
    assert s3[..2] == s2 && s2[..1] == s1 && s1[..0] == [];
    assert ReadDigits(s1) == a;
    assert ReadDigits(s2) == if a.Some? then Some(10 * a.value + b) else None;
    assert ReadDigits(s3) == if a.Some? then Some(100 * a.value + 10 * b + c) else None;
  }

  lemma TextSlices(p: Parts)
    ensures var s := PartsText(p);
            && s[..4] == Decimal4(AsU32(p.year)) && s[5..7] == Decimal2(AsU32(p.month))
            && s[8..10] == Decimal2(AsU32(p.day)) && s[11..13] == Decimal2(AsU32(p.hour))
            && s[14..16] == Decimal2(AsU32(p.minute)) && s[17..] == Decimal2(AsU32(p.second))
            && s[4] == 0x2d && s[7] == 0x2d && s[10] == 0x20 && s[13] == 0x3a && s[16] == 0x3a
  {}

  lemma ReadParts(p: Parts)
    requires Legal(p)
    ensures var c := YearCode(p.year);
            ReadTimestamp(PartsText(p)) ==
            if c < 10000 && Legal(p.(year := c)) then Some(Seconds(p.(year := c))) else None
  {
    TextSlices(p);
    ReadDecimal4(AsU32(p.year));
    PlainFields(p);
    assert Fields(p)[0].val == p.month && Fields(p)[1].val == p.day && Fields(p)[2].val == p.hour
        && Fields(p)[3].val == p.minute && Fields(p)[4].val == p.second;
    ReadDecimal2(p.month);
    ReadDecimal2(p.day);
    ReadDecimal2(p.hour);
    ReadDecimal2(p.minute);
    ReadDecimal2(p.second);
  }

  /** The text reads back to the timestamp exactly for the years 0 to 9999. */
  lemma ReadBack(timestamp: i64)
    ensures ReadTimestamp(Text(timestamp)) == Some(timestamp) <==> 0 <= TimestampToParts(timestamp).year <= 9999
  {
    CalendarCorrect(timestamp);
    ReadBackAt(timestamp, TimestampToParts(timestamp));
  }

  lemma ReadBackAt(timestamp: i64, p: Parts)
    requires Legal(p) && Seconds(p) == timestamp
    ensures ReadTimestamp(PartsText(p)) == Some(timestamp) <==> 0 <= p.year <= 9999
  {
    var q := p.(year := YearCode(p.year));
    assert 0 <= p.year <= 9999 ==> q == p;
    assert q == p && q.year < 10000 ==> 0 <= p.year <= 9999;
    hide *;
    ReadParts(p);
    if Legal(q) {
      SecondsOrder(p, q);
    }
  }
}
