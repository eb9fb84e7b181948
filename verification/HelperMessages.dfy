/** bench/src/helpers.rs: the messages a client builds with `format!`, which the on-chain builder has to equal. */
module HelperMessages {
  import opened Bytes
  import opened Decimal
  import opened Definition
  import opened MessageText
  import Calendar
  import TimestampText

  // ---- Formatting ----

  /** `{n:0width}`: zeros between the sign, if any, and the digits. */
  function Padded(n: int, width: nat): (r: Bytes)
  {
    if n < 0 then [0x2d] + Zeros(width - 1 - |DecimalText(0 - n)|) + DecimalText(0 - n)
    else Zeros(width - |DecimalText(n)|) + DecimalText(n)
  }

  function Zeros(k: int): (r: Bytes)
    ensures |r| == if k < 0 then 0 else k
  {
    if k <= 0 then [] else [0x30] + Zeros(k - 1)
  }

  /** The day arithmetic of the helper's `format_timestamp`, statement by statement. */
  method ClientParts(ts: i64) returns (p: Calendar.Parts)
    ensures p == Calendar.TimestampToParts(ts)
  {
    hide Calendar.Quot, Calendar.Rem;
    ghost var q := Calendar.TimestampToParts(ts);
    var days := Calendar.Quot(ts, 86400);
    var daySecs := Calendar.Rem(Calendar.Rem(ts, 86400) + 86400, 86400);
    if ts < 0 && daySecs > 0 {
      days := days - 1;
    }
    var hour := Calendar.Quot(daySecs, 3600);
    var min := Calendar.Quot(Calendar.Rem(daySecs, 3600), 60);
    var sec := Calendar.Rem(daySecs, 60);
    var adj := days + 719468;
    var era := Calendar.Quot(if adj >= 0 then adj else adj - 146096, 146097);
    var doe := adj - era * 146097;
    var yoe := Calendar.Quot(doe - Calendar.Quot(doe, 1460) + Calendar.Quot(doe, 36524) - Calendar.Quot(doe, 146096),
                             365);
    var y := yoe + era * 400;
    var doy := doe - (365 * yoe + Calendar.Quot(yoe, 4) - Calendar.Quot(yoe, 100));
    var mp := Calendar.Quot(5 * doy + 2, 153);
    var d := doy - Calendar.Quot(153 * mp + 2, 5) + 1;
    var m := if mp < 10 then mp + 3 else mp - 9;
    var year := if m <= 2 then y + 1 else y;
    assert (year, m, d, hour, min, sec) == (q.year, q.month, q.day, q.hour, q.minute, q.second);
    p := Calendar.Parts(year, m, d, hour, min, sec);
  }

  /** The helper's `format_timestamp`. */
  function FormatTimestamp(timestamp: i64): (r: Bytes)
  {
    PartsFormat(Calendar.TimestampToParts(timestamp))
  }

  /** The helper's `format_timestamp` as it runs. */
  method ClientTimestamp(ts: i64) returns (text: Bytes)
    ensures text == FormatTimestamp(ts)
    ensures text == TimestampText.Text(ts) <==> 0 <= Calendar.TimestampToParts(ts).year <= 9999
  {
    hide Calendar.TimestampToParts, PartsFormat, TimestampText.Text;
    var p := ClientParts(ts);
    TimestampsAlike(ts);
    text := PartsFormat(p);
  }

  function PartsFormat(p: Calendar.Parts): (r: Bytes)
  {
    Padded(p.year, 4) + [0x2d] + Padded(p.month, 2) + [0x2d] + Padded(p.day, 2)
    + [0x20] + Padded(p.hour, 2) + [0x3a] + Padded(p.minute, 2) + [0x3a] + Padded(p.second, 2)
  }

  lemma PaddedTwo(n: nat)
    requires n < 100
    ensures Padded(n, 2) == TimestampText.Decimal2(n)
  {
    TimestampText.Decimal2Plain(n);
    if n >= 10 {
      assert DecimalText(n / 10) == [0x30 + n / 10];
    }
  }

  lemma ShortNumber(n: nat)
    requires n < 10000
    ensures DecimalText(n) ==
            if n < 10 then [0x30 + n]
            else if n < 100 then [0x30 + n / 10, 0x30 + n % 10]
            else if n < 1000 then [0x30 + n / 100, 0x30 + n / 10 % 10, 0x30 + n % 10]
            else [0x30 + n / 1000, 0x30 + n / 100 % 10, 0x30 + n / 10 % 10, 0x30 + n % 10]
  {
    TimestampText.DivDiv10(n);
    TimestampText.DivDiv100(n);
    TwoDigits(n / 100);
    ThreeDigits(n / 10);
  }

  lemma TwoDigits(n: nat)
    requires n < 100
    ensures DecimalText(n) == if n < 10 then [0x30 + n] else [0x30 + n / 10, 0x30 + n % 10]
  {}

  lemma ThreeDigits(n: nat)
    requires n < 1000
    ensures DecimalText(n) ==
            if n < 10 then [0x30 + n]
            else if n < 100 then [0x30 + n / 10, 0x30 + n % 10]
            else [0x30 + n / 100, 0x30 + n / 10 % 10, 0x30 + n % 10]
  {
    TwoDigits(n / 10);
    TimestampText.DivDiv10(n);
  }

  lemma PaddedFour(n: nat)
    requires n < 10000
    ensures Padded(n, 4) == TimestampText.Decimal4(n)
  {
    TimestampText.LeadingByte(n);
    ShortNumber(n);
    SmallQuotients(n);
    assert Zeros(1) == [0x30] && Zeros(2) == [0x30, 0x30] && Zeros(3) == [0x30, 0x30, 0x30] by {
      assert Zeros(0) == [];
    }
  }

  lemma SmallQuotients(n: nat)
    ensures n < 1000 ==> n / 1000 == 0 && n / 100 % 10 == n / 100
    ensures n < 100 ==> n / 100 == 0 && n / 10 % 10 == n / 10
    ensures n < 10 ==> n / 10 == 0 && n % 10 == n
  {}

  // ---- Where the two formats differ ----

  lemma LongNumber(n: nat)
    requires n >= 10000
    ensures |DecimalText(n)| >= 5
  {
    DecimalRoundTrip(n);
    FourDigitBound();
    hide DecimalText, Pow;
    if |DecimalText(n)| <= 4 {
      DigitsBound(DecimalText(n), 4);
    }
  }

  lemma FourDigitBound()
    ensures Pow(10, 4) == 10000
  {
    assert Pow(10, 2) == 100;
  }

  lemma {:induction false} DigitsBound(s: Bytes, k: nat)
    requires AllDigits(s) && |s| <= k
    ensures ReadDigits(s).value < Pow(10, k)
  {
    if s == [] {
      PowPositive(10, k);
    } else {
      DigitsBound(s[..|s| - 1], k - 1);
    }
  }

  /** A year is printed alike exactly when it has at most four digits and no sign. */
  lemma YearAlike(year: i64)
    ensures Padded(year, 4) == TimestampText.Decimal4(TimestampText.AsU32(year)) <==> 0 <= year <= 9999
  {
    if 0 <= year <= 9999 {
      TimestampText.SmallYear(year);
      PaddedFour(year);
    } else if year >= 10000 {
      LongNumber(year);
    } else if year <= -1000 {
      FourDigitsAtLeast(0 - year);
    } else {
      NegativeYear(year);
    }
  }

  lemma FourDigitsAtLeast(n: nat)
    requires n >= 1000
    ensures |DecimalText(n)| >= 4
  {
    if n < 10000 {
      ShortNumber(n);
    } else {
      LongNumber(n);
    }
  }

  lemma NegativeYear(year: int)
    requires -1000 < year < 0
    ensures Padded(year, 4)[0] == 0x2d
    ensures TimestampText.Decimal4(TimestampText.AsU32(year))[0] != 0x2d
  {
    hide DecimalText, Zeros;
    var n := TimestampText.AsU32(year);
    assert n == 0x1_0000_0000 + year;
    assert n / 1000 == 4294967 || n / 1000 == 4294966;
  }

  /** The part after the year is printed alike. */
  lemma FieldsAlike(p: Calendar.Parts)
    requires Calendar.Legal(p)
    ensures Padded(p.month, 2) == TimestampText.Decimal2(TimestampText.AsU32(p.month))
    ensures Padded(p.day, 2) == TimestampText.Decimal2(TimestampText.AsU32(p.day))
    ensures Padded(p.hour, 2) == TimestampText.Decimal2(TimestampText.AsU32(p.hour))
    ensures Padded(p.minute, 2) == TimestampText.Decimal2(TimestampText.AsU32(p.minute))
    ensures Padded(p.second, 2) == TimestampText.Decimal2(TimestampText.AsU32(p.second))
  {
    hide Padded, TimestampText.Decimal2;
    PaddedTwo(p.month);
    PaddedTwo(p.day);
    PaddedTwo(p.hour);
    PaddedTwo(p.minute);
    PaddedTwo(p.second);
  }

  lemma PartsAlike(p: Calendar.Parts)
    requires Calendar.Legal(p) && -0x8000_0000_0000_0000 <= p.year < 0x8000_0000_0000_0000
    ensures PartsFormat(p) == TimestampText.PartsText(p) <==> 0 <= p.year <= 9999
  {
    hide Padded, Calendar.Legal, TimestampText.Decimal2, TimestampText.Decimal4, TimestampText.AsU32;
    FieldsAlike(p);
    YearAlike(p.year);
    var rest := [0x2d] + Padded(p.month, 2) + [0x2d] + Padded(p.day, 2)
                + [0x20] + Padded(p.hour, 2) + [0x3a] + Padded(p.minute, 2) + [0x3a] + Padded(p.second, 2);
    var (a, b) := (Padded(p.year, 4), TimestampText.Decimal4(TimestampText.AsU32(p.year)));
    assert PartsFormat(p) == a + rest;
    assert TimestampText.PartsText(p) == b + rest;
    if PartsFormat(p) == TimestampText.PartsText(p) {
      ConcatCancel(a, b, rest, rest);
    }
  }

  /** The client's timestamp is the program's exactly for the years 0 to 9999. */
  lemma TimestampsAlike(timestamp: i64)
    ensures FormatTimestamp(timestamp) == TimestampText.Text(timestamp)
            <==> 0 <= Calendar.TimestampToParts(timestamp).year <= 9999
  {
    Calendar.CalendarCorrect(timestamp);
    hide Calendar.TimestampToParts, Calendar.Legal, Calendar.Seconds;
    PartsAlike(Calendar.TimestampToParts(timestamp));
  }

  // ---- Whole messages ----

  /** `wrap_offchain`. */
  method WrapOffchain(body: Bytes) returns (out: Bytes)
    ensures out == Wrapped(body)
  {
    hide Ascii;
    out := [];
    out := out + ([0xff] + Ascii("solana offchain"));
    out := out + [0];
    out := out + [0];
    var len := |body| % 0x1_0000;
    LengthBytes(|body|);
    out := out + [len % 0x100, len / 0x100];
    out := out + body;
  }

  /** `(body.len() as u16).to_le_bytes()`. */
  lemma LengthBytes(n: nat)
    ensures n % 0x1_0000 % 0x100 == n % 0x100 && n % 0x1_0000 / 0x100 == n / 0x100 % 0x100
  {}

  /** `hex_encode`: `{b:02x}` for every byte. */
  function HexEncode(data: Bytes): (r: Bytes)
  {
    if data == [] then [] else HexEncode(data[..|data| - 1]) + HexByte(data[|data| - 1])
  }

  function HexByte(b: byte): (r: Bytes)
  {
    if b < 16 then [0x30, HexDigit(b)] else [HexDigit(b / 16), HexDigit(b % 16)]
  }

  lemma {:induction false} HexAlike(data: Bytes)
    ensures HexEncode(data) == HexText(data)
  {
    if data != [] {
      var (front, last) := (data[..|data| - 1], [data[|data| - 1]]);
      HexAlike(front);
      HexAppend(front, last);
      assert front + last == data;
      assert HexText(last) == HexByte(data[|data| - 1]);
    }
  }

  /** `suffix`. */
  function HelperSuffix(name: Bytes, index: u64): (r: Bytes)
  {
    Ascii(" | wallet: ") + name + Ascii(" proposal: ") + DecimalText(index)
  }

  /** The bodies of `remove_intent_msg` and `add_intent_msg`. */
  function RemoveBody(ctx: Context, target: byte): (r: Bytes)
  {
    Ascii("expires ") + FormatTimestamp(ctx.expiry) + Ascii(": ") + ActionText(ctx.action) + Ascii(" remove intent ")
    + DecimalText(target) + HelperSuffix(ctx.walletName, ctx.proposalIndex)
  }

  function AddBody(env: Env, ctx: Context, data: Bytes): (r: Bytes)
  {
    Ascii("expires ") + FormatTimestamp(ctx.expiry) + Ascii(": ") + ActionText(ctx.action)
    + Ascii(" add intent definition_hash: ") + HexEncode(env.sha256(data)) + HelperSuffix(ctx.walletName,
                                                                                          ctx.proposalIndex)
  }

  lemma SpaceAdd()
    ensures Ascii(" add intent definition_hash: ") == Ascii(" ") + Ascii("add intent definition_hash: ")
  {}

  lemma SpaceRemove()
    ensures Ascii(" remove intent ") == Ascii(" ") + Ascii("remove intent ")
  {}

  /** Two bodies that differ in the written timestamp only. */
  lemma SameRest(t1: Bytes, t2: Bytes, lead: Bytes, rest: Bytes)
    ensures lead + t1 + rest == lead + t2 + rest <==> t1 == t2
  {
    if lead + t1 + rest == lead + t2 + rest {
      ConcatCancel(lead + t1, lead + t2, rest, rest);
      ConcatCancel(lead, lead, t1, t2);
    }
  }

  lemma RemoveBodiesAlike(ctx: Context, target: byte)
    ensures RemoveBody(ctx, target) == BodyOf(ctx, RemoveContent(target))
            <==> FormatTimestamp(ctx.expiry) == TimestampText.Text(ctx.expiry)
  {
    SpaceRemove();
    hide Ascii, FormatTimestamp, TimestampText.Text, ActionText, DecimalText;
    var rest := Ascii(": ") + ActionText(ctx.action) + Ascii(" remove intent ") + DecimalText(target) + Suffix(ctx);
    SameRest(FormatTimestamp(ctx.expiry), TimestampText.Text(ctx.expiry), Ascii("expires "), rest);
    assert RemoveBody(ctx, target) == Ascii("expires ") + FormatTimestamp(ctx.expiry) + rest;
    assert BodyOf(ctx, RemoveContent(target)) == Ascii("expires ") + TimestampText.Text(ctx.expiry) + rest;
  }

  lemma AddBodiesAlike(env: Env, ctx: Context, data: Bytes)
    ensures AddBody(env, ctx, data) == BodyOf(ctx, AddContent(env.sha256(data)))
            <==> FormatTimestamp(ctx.expiry) == TimestampText.Text(ctx.expiry)
  {
    SpaceAdd();
    HexAlike(env.sha256(data));
    hide Ascii, FormatTimestamp, TimestampText.Text, ActionText, DecimalText, HexText, HexEncode;
    var rest := Ascii(": ") + ActionText(ctx.action) + Ascii(" add intent definition_hash: ")
                + HexText(env.sha256(data)) + Suffix(ctx);
    SameRest(FormatTimestamp(ctx.expiry), TimestampText.Text(ctx.expiry), Ascii("expires "), rest);
    assert AddBody(env, ctx, data) == Ascii("expires ") + FormatTimestamp(ctx.expiry) + rest;
    assert BodyOf(ctx, AddContent(env.sha256(data))) == Ascii("expires ") + TimestampText.Text(ctx.expiry) + rest;
  }

  lemma WrapOnce(b1: Bytes, b2: Bytes)
    ensures Wrapped(b1) == Wrapped(b2) <==> b1 == b2
  {
    assert Wrapped(b1)[HEADER_LEN..] == b1 && Wrapped(b2)[HEADER_LEN..] == b2;
  }

  predicate FourDigitYear(timestamp: i64)
  {
    0 <= Calendar.TimestampToParts(timestamp).year <= 9999
  }

  /** A client's removal message is the one the program checks exactly for expiries in the years 0 to 9999. */
  lemma RemoveMessageAlike(env: Env, ctx: Context, def: Definition, target: byte)
    requires def.intentType == RemoveIntent && Message(env, ctx, def, [target]).Ok?
    ensures Message(env, ctx, def, [target]) == Ok(Wrapped(RemoveBody(ctx, target))) <==> FourDigitYear(ctx.expiry)
  {
    TimestampsAlike(ctx.expiry);
    RemoveBodiesAlike(ctx, target);
    WrapOnce(RemoveBody(ctx, target), BodyOf(ctx, RemoveContent(target)));
    hide RemoveBody, BodyOf, RemoveContent, Wrapped, FormatTimestamp, TimestampText.Text, Calendar.TimestampToParts;
  }

  /** A client's addition message is the one the program checks exactly for expiries in the years 0 to 9999. */
  lemma AddMessageAlike(env: Env, ctx: Context, def: Definition, data: Bytes)
    requires def.intentType == AddIntent && Message(env, ctx, def, data).Ok?
    ensures Message(env, ctx, def, data) == Ok(Wrapped(AddBody(env, ctx, data))) <==> FourDigitYear(ctx.expiry)
  {
    TimestampsAlike(ctx.expiry);
    AddBodiesAlike(env, ctx, data);
    WrapOnce(AddBody(env, ctx, data), BodyOf(ctx, AddContent(env.sha256(data))));
    hide AddBody, BodyOf, AddContent, Wrapped, FormatTimestamp, TimestampText.Text, Calendar.TimestampToParts;
  }
}
