/** utils/message.rs: the builder that writes a message into a fixed buffer. */
module MessageBuilders {
  import opened Bytes
  import opened Decimal
  import opened Definition
  import opened MessageText
  import Base58
  import Params
  import TimestampText

  /**
   The contract of every `push_*` and `build_*` method: the text before is never rewritten, the call succeeds
   exactly when there is a text to push and room for it, and then that text is appended.
   */
  predicate Appends(before: Bytes, after: Bytes, text: Result<Bytes>, ok: bool)
  {
    && before <= after
    && (ok <==> text.Ok? && HEADER_LEN + |before| + |text.value| <= MSG_BUF_SIZE)
    && (ok ==> after == before + text.value)
  }

  /** What the outcome of a push says about sizes. */
  lemma AppendsRoom(before: Bytes, after: Bytes, text: Result<Bytes>, ok: bool)
    requires Appends(before, after, text, ok) && text.Ok?
    ensures ok <==> HEADER_LEN + |before| + |text.value| <= MSG_BUF_SIZE
    ensures ok ==> |after| == |before| + |text.value|
  {}

  /** The error of a push: the text's own if there is none, otherwise that of a full buffer. */
  function ErrorOf(text: Result<Bytes>): (e: ProgramError)
  {
    if text.Err? then text.error else InvalidInstructionData
  }

  /** One more push: `done` is what the earlier pushes of a longer text `whole` have appended. */
  lemma AppendsStep(before: Bytes, between: Bytes, after: Bytes, done: Bytes, next: Bytes, ok: bool, whole: Bytes)
    requires Appends(before, between, Ok(done), true)
    requires Appends(between, after, Ok(next), ok)
    requires |done| + |next| <= |whole|
    ensures ok ==> Appends(before, after, Ok(done + next), true)
    ensures !ok ==> Appends(before, after, Ok(whole), false)
  {}

  /** The rest of a template whose head has been rendered as `done`. */
  predicate Continues(whole: Result<Bytes>, done: Bytes, rest: Result<Bytes>)
  {
    (whole.Ok? <==> rest.Ok?) && (whole.Ok? ==> whole.value == done + rest.value)
  }

  lemma ContinuesFresh(whole: Result<Bytes>)
    ensures Continues(whole, [], whole)
  {}

  lemma ContinuesRefused(whole: Result<Bytes>, done: Bytes, rest: Result<Bytes>)
    requires Continues(whole, done, rest) && rest.Err?
    ensures whole.Err?
  {}

  lemma AppendsPiece(before: Bytes, between: Bytes, after: Bytes, done: Bytes, text: Result<Bytes>, ok: bool,
                     whole: Result<Bytes>, was: Result<Bytes>, rest: Result<Bytes>)
    requires Appends(before, between, Ok(done), true)
    requires Appends(between, after, text, ok)
    requires Continues(whole, done, was)
    requires was.Ok? <==> text.Ok? && rest.Ok?
    requires was.Ok? ==> was.value == text.value + rest.value
    ensures ok ==> text.Ok? && Appends(before, after, Ok(done + text.value), true)
                   && Continues(whole, done + text.value, rest)
    ensures !ok ==> Appends(before, after, whole, false)
  {
    if was.Ok? {
      assert done + (text.value + rest.value) == done + text.value + rest.value;
    }
  }

  lemma AppendsAll(before: Bytes, after: Bytes, done: Bytes, whole: Result<Bytes>)
    requires Appends(before, after, Ok(done), true)
    requires Continues(whole, done, Ok([]))
    ensures Appends(before, after, whole, true)
  {
    assert done + [] == done;
  }

  lemma AppendsRefused(before: Bytes, after: Bytes, done: Bytes, whole: Result<Bytes>)
    requires Appends(before, after, Ok(done), true) && whole.Err?
    ensures Appends(before, after, whole, false)
  {}

  lemma MachineNumber(s: Bytes)
    ensures |s| == 1 ==> FromLE(s) == s[0]
    ensures |s| == 2 ==> FromLE(s) < 0x1_0000
    ensures |s| == 4 ==> FromLE(s) < 0x1_0000_0000
    ensures |s| == 8 ==> FromLE(s) < 0x1_0000_0000_0000_0000
    ensures |s| == 16 ==> FromLE(s) < 0x1_0000_0000_0000_0000_0000_0000_0000_0000
  {
    FromLEBound(s);
    PowersOf256();
    hide Pow;
    if |s| == 1 {
      assert s[1..] == [];
    }
  }

  /** `parse_usize`, with its checked arithmetic. */
  method ParseUsize(s: Bytes) returns (r: Result<u64>)
    ensures r == ParsedUsize(s)
  {
    var n: nat := 0;
    for i := 0 to |s|
      invariant ReadDigits(s[..i]) == Some(n)
      invariant n < 0x1_0000_0000_0000_0000
    {
      assert s[..i + 1][..i] == s[..i];
      if DigitValue(s[i]) == None {
        return Err(InvalidInstructionData);
      }
      n := n * 10 + (s[i] - 0x30);
      if n >= 0x1_0000_0000_0000_0000 {
        if AllDigits(s) {
          ReadDigitsGrow(s, i + 1);
        }
        return Err(InvalidInstructionData);
      }
    }
    assert s[..|s|] == s;
    r := Ok(n);
  }

  lemma HexNothing()
    ensures HexText([]) == []
  {}

  lemma HexStep(data: Bytes, i: nat)
    requires i < |data|
    ensures HexText(data[..i + 1]) == HexText(data[..i]) + [HexDigit(data[i] / 16), HexDigit(data[i] % 16)]
    ensures |HexText(data[..i])| + 2 <= |HexText(data)|
  {
    HexAppend(data[..i], [data[i]]);
    assert data[..i] + [data[i]] == data[..i + 1];
  }

  /** Rendering the template of `def` into a buffer filled up to `len` aborts. */
  predicate Panics(def: Definition, data: Bytes, utf8: Bytes -> bool, len: nat)
    requires len <= MSG_BUF_SIZE
  {
    var t := Template(def, utf8);
    t.Ok? && TemplatePanics(def.params, data, t.value, utf8, MSG_BUF_SIZE - len)
  }

  class MessageBuilder {
    var buf: array<byte>
    var len: nat

    ghost predicate Valid()
      reads this
    {
      buf.Length == MSG_BUF_SIZE && HEADER_LEN <= len <= MSG_BUF_SIZE
    }

    /** The message text written so far. */
    ghost function Text(): (r: Bytes)
      requires Valid()
      reads this, buf
    {
      buf[HEADER_LEN..len]
    }

    constructor ()
      ensures Valid() && fresh(buf)
      ensures Text() == []
    {
      buf := new byte[MSG_BUF_SIZE](_ => 0);
      len := HEADER_LEN;
    }

    method AsBytes() returns (r: Bytes)
      requires Valid()
      ensures r == buf[..len]
    {
      r := buf[..len];
    }

    method Finalize() returns (r: Result<()>)
      requires Valid()
      modifies buf
      ensures Valid() && r == Ok(())
      ensures buf[..len] == Wrapped(old(Text()))
    {
      var messageLen := len - HEADER_LEN;
      if messageLen > 0xffff {
        assert false;
      }
      ghost var text := Text();
      ghost var front := [0xff] + Ascii("solana offchain") + [0, 0];
      CopyDomain();
      buf[16] := 0;
      buf[17] := 0;
      buf[18] := messageLen % 0x100;
      buf[19] := messageLen / 0x100 % 0x100;
      assert buf[..20] == front + [messageLen % 0x100, messageLen / 0x100 % 0x100];
      assert buf[20..len] == text;
      r := Ok(());
    }

    /** `self.buf[..16].copy_from_slice(OFFCHAIN_SIGNING_DOMAIN)`. */
    method CopyDomain()
      requires Valid()
      modifies buf
      ensures buf[..16] == [0xff] + Ascii("solana offchain")
      ensures forall k :: 16 <= k < buf.Length ==> buf[k] == old(buf[k])
    {
      var domain := [0xff] + Ascii("solana offchain");
      assert |domain| == 16;
      forall k | 0 <= k < 16 {
        buf[k] := domain[k];
      }
      assert buf[..16] == domain;
    }

    method PushBytes(data: Bytes) returns (r: Result<()>)
      requires Valid()
      modifies this`len, buf
      ensures Valid()
      ensures Appends(old(Text()), Text(), Ok(data), r.Ok?)
      ensures r.Err? ==> r.error == InvalidInstructionData
    {
      var newLen := len + |data|;
      if newLen > MSG_BUF_SIZE {
        return Err(InvalidInstructionData);
      }
      forall k | len <= k < newLen {
        buf[k] := data[k - len];
      }
      assert buf[HEADER_LEN..newLen] == old(Text()) + data;
      len := newLen;
      r := Ok(());
    }

    /** `push_base58`; the work buffer holds 44 letters, so an address always encodes. */
    method PushBase58(address: Address) returns (r: Result<()>)
      requires Valid()
      modifies this`len, buf
      ensures Valid()
      ensures Appends(old(Text()), Text(), Ok(Base58.Encoded(address)), r.Ok?)
      ensures r.Err? ==> r.error == InvalidInstructionData
    {
      var b58 := new byte[44](_ => 0);
      Base58.AddressFits(address);
      var n := Base58.EncodeBase58(address, b58);
      assert n.Written? && b58[..n.count] == Base58.Encoded(address);
      r := PushBytes(b58[..n.count]);
    }

    method PushU64(val: u64) returns (r: Result<()>)
      requires Valid()
      modifies this`len, buf
      ensures Valid()
      ensures Appends(old(Text()), Text(), Ok(DecimalText(val)), r.Ok?)
      ensures r.Err? ==> r.error == InvalidInstructionData
    {
      if val == 0 {
        r := PushBytes([0x30]);
      } else {
        MachineWidths();
        var digits := new byte[20](_ => 0);
        var pos := WriteDigits(digits, val);
        r := PushBytes(digits[pos..]);
      }
    }

    method PushU128(val: u128) returns (r: Result<()>)
      requires Valid()
      modifies this`len, buf
      ensures Valid()
      ensures Appends(old(Text()), Text(), Ok(DecimalText(val)), r.Ok?)
      ensures r.Err? ==> r.error == InvalidInstructionData
    {
      if val == 0 {
        r := PushBytes([0x30]);
      } else {
        MachineWidths();
        var digits := new byte[39](_ => 0);
        var pos := WriteDigits(digits, val);
        r := PushBytes(digits[pos..]);
      }
    }

    method PushI64(val: i64) returns (r: Result<()>)
      requires Valid()
      modifies this`len, buf
      ensures Valid()
      ensures Appends(old(Text()), Text(), Ok(SignedText(val)), r.Ok?)
      ensures r.Err? ==> r.error == InvalidInstructionData
    {
      hide DecimalText, Magnitude;
      ghost var before := Text();
      if val < 0 {
        r := PushBytes([0x2d]);
        if r.Ok? {
          ghost var between := Text();
          r := PushU64(Magnitude(val));
          AppendsStep(before, between, Text(), [0x2d], DecimalText(Magnitude(val)), r.Ok?, SignedText(val));
        }
      } else {
        r := PushU64(val);
      }
    }

    method PushTimestamp(ts: i64) returns (r: Result<()>)
      requires Valid()
      modifies this`len, buf
      ensures Valid()
      ensures Appends(old(Text()), Text(), Ok(TimestampText.Text(ts)), r.Ok?)
      ensures r.Err? ==> r.error == InvalidInstructionData
    {
      hide TimestampText.Text;
      var start := len;
      if start + 19 > MSG_BUF_SIZE {
        return Err(InvalidInstructionData);
      }
      ghost var was := buf[..];
      var n := TimestampText.FormatTimestamp(ts, buf, start);
      assert buf[..start] == was[..start];
      len := start + 19;
      assert Text() == old(Text()) + TimestampText.Text(ts);
      r := Ok(());
    }

    method PushHex(data: Bytes) returns (r: Result<()>)
      requires Valid()
      modifies this`len, buf
      ensures Valid()
      ensures Appends(old(Text()), Text(), Ok(HexText(data)), r.Ok?)
      ensures r.Err? ==> r.error == InvalidInstructionData
    {
      hide HexDigit, HexText, Appends;
      ghost var before := Text();
      assert data[..0] == [] && data[..|data|] == data;
      HexNothing();
      AppendsNothing(before);
      for i := 0 to |data|
        invariant Valid() && unchanged(this`buf)
        invariant Appends(before, Text(), Ok(HexText(data[..i])), true)
      {
        HexStep(data, i);
        ghost var between := Text();
        var pair := [HexDigit(data[i] / 16), HexDigit(data[i] % 16)];
        r := PushBytes(pair);
        AppendsStep(before, between, Text(), HexText(data[..i]), pair, r.Ok?, HexText(data));
        if r.Err? {
          return;
        }
      }
      r := Ok(());
    }

    method PushHeader(ctx: Context) returns (r: Result<()>)
      requires Valid()
      modifies this`len, buf
      ensures Valid()
      ensures Appends(old(Text()), Text(), Ok(Header(ctx)), r.Ok?)
      ensures r.Err? ==> r.error == InvalidInstructionData
    {
      HeaderParts(ctx);
      hide Ascii, Appends, TimestampText.Text, ActionText, Header;
      ghost var before, whole, done := Text(), Header(ctx), [];
      AppendsNothing(before);
      r, done := PushPart(Ascii("expires "), before, done, whole);
      if r.Err? { return; }
      ghost var between := Text();
      r := PushTimestamp(ctx.expiry);
      AppendsStep(before, between, Text(), done, TimestampText.Text(ctx.expiry), r.Ok?, whole);
      if r.Err? { return; }
      done := done + TimestampText.Text(ctx.expiry);
      r, done := PushPart(Ascii(": "), before, done, whole);
      if r.Err? { return; }
      r, done := PushPart(ActionText(ctx.action), before, done, whole);
      if r.Err? { return; }
      r, done := PushPart(Ascii(" "), before, done, whole);
      assert r.Ok? ==> done == whole;
    }

    /** `push_str` of one part of a longer text. */
    method PushPart(part: Bytes, ghost before: Bytes, ghost done: Bytes, ghost whole: Bytes)
      returns (r: Result<()>, ghost more: Bytes)
      requires Valid()
      requires Appends(before, Text(), Ok(done), true)
      requires |done| + |part| <= |whole|
      modifies this`len, buf
      ensures Valid()
      ensures more == done + part
      ensures r.Ok? ==> Appends(before, Text(), Ok(more), true)
      ensures r.Err? ==> Appends(before, Text(), Ok(whole), false)
      ensures r.Err? ==> r.error == InvalidInstructionData
    {
      ghost var between := Text();
      r := PushBytes(part);
      AppendsStep(before, between, Text(), done, part, r.Ok?, whole);
      more := done + part;
    }

    /** `push_u64` as one part of a longer text. */
    method PushNumberPart(val: u64, ghost before: Bytes, ghost done: Bytes, ghost whole: Bytes)
      returns (r: Result<()>, ghost more: Bytes)
      requires Valid()
      requires Appends(before, Text(), Ok(done), true)
      requires |done| + |DecimalText(val)| <= |whole|
      modifies this`len, buf
      ensures Valid()
      ensures more == done + DecimalText(val)
      ensures r.Ok? ==> Appends(before, Text(), Ok(more), true)
      ensures r.Err? ==> Appends(before, Text(), Ok(whole), false)
      ensures r.Err? ==> r.error == InvalidInstructionData
    {
      hide Appends;
      ghost var between := Text();
      r := PushU64(val);
      AppendsStep(before, between, Text(), done, DecimalText(val), r.Ok?, whole);
      more := done + DecimalText(val);
    }

    /** `push_hex` as one part of a longer text. */
    method PushHexPart(data: Bytes, ghost before: Bytes, ghost done: Bytes, ghost whole: Bytes)
      returns (r: Result<()>, ghost more: Bytes)
      requires Valid()
      requires Appends(before, Text(), Ok(done), true)
      requires |done| + |HexText(data)| <= |whole|
      modifies this`len, buf
      ensures Valid()
      ensures more == done + HexText(data)
      ensures r.Ok? ==> Appends(before, Text(), Ok(more), true)
      ensures r.Err? ==> Appends(before, Text(), Ok(whole), false)
      ensures r.Err? ==> r.error == InvalidInstructionData
    {
      hide Appends;
      ghost var between := Text();
      r := PushHex(data);
      AppendsStep(before, between, Text(), done, HexText(data), r.Ok?, whole);
      more := done + HexText(data);
    }

    method PushSuffix(ctx: Context) returns (r: Result<()>)
      requires Valid()
      modifies this`len, buf
      ensures Valid()
      ensures Appends(old(Text()), Text(), Ok(Suffix(ctx)), r.Ok?)
      ensures r.Err? ==> r.error == InvalidInstructionData
    {
      SuffixParts(ctx);
      hide Ascii, Appends, DecimalText, Suffix;
      ghost var before, whole, done := Text(), Suffix(ctx), [];
      AppendsNothing(before);
      r, done := PushPart(Ascii(" | wallet: "), before, done, whole);
      if r.Err? { return; }
      r, done := PushPart(ctx.walletName, before, done, whole);
      if r.Err? { return; }
      r, done := PushPart(Ascii(" proposal: "), before, done, whole);
      if r.Err? { return; }
      r, done := PushNumberPart(ctx.proposalIndex, before, done, whole);
      assert r.Ok? ==> done == whole;
    }

    // ---- Template rendering ----

    method RenderParam(params: seq<ParamEntry>, data: Bytes, index: byte, utf8: Bytes -> bool) returns (r: Result<()>)
      requires Valid()
      modifies this`len, buf
      ensures Valid()
      ensures Appends(old(Text()), Text(), MessageText.RenderParam(params, data, index, utf8), r.Ok?)
      ensures r.Err? ==> r.error == ErrorOf(MessageText.RenderParam(params, data, index, utf8))
    {
      if index >= |params| {
        return Err(InvalidInstructionData);
      }
      var start := Params.ParamOffset(params, data, index);
      if start.Err? {
        return Err(start.error);
      }
      r := RenderAt(params[index].paramType, data, start.value, utf8);
    }

    /** The arms of `render_param`; a slice past the end of the data aborts. */
    method RenderAt(paramType: ParamType, data: Bytes, offset: nat, utf8: Bytes -> bool) returns (r: Result<()>)
      requires Valid()
      modifies this`len, buf
      ensures Valid()
      ensures Appends(old(Text()), Text(), ParamTextAt(paramType, data, offset, utf8), r.Ok?)
      ensures r.Err? ==> r.error == ErrorOf(ParamTextAt(paramType, data, offset, utf8))
    {
      hide DecimalText, SignedText, Base58.Encoded, AsI64, Ascii, FromLE, Appends;
      AppendsNoText(Text());
      match paramType {
        case AddressParam =>
          if offset + 32 > |data| { return Err(Panic); }
          r := PushBase58(data[offset..offset + 32]);
        case StringParam =>
          if offset >= |data| { return Err(Panic); }
          var len: nat := data[offset];
          if offset + 1 + len > |data| { return Err(Panic); }
          var s := data[offset + 1..offset + 1 + len];
          assert s == data[offset..offset + 1 + len][1..];
          if !utf8(s) { return Err(InvalidInstructionData); }
          r := PushBytes(s);
        case BoolParam =>
          if offset >= |data| { return Err(InvalidInstructionData); }
          r := PushBytes(if data[offset] != 0 then Ascii("true") else Ascii("false"));
        case _ =>
          r := RenderNumber(paramType, data, offset, utf8);
      }
    }

    method RenderNumber(paramType: ParamType, data: Bytes, offset: nat, utf8: Bytes -> bool) returns (r: Result<()>)
      requires Valid()
      requires paramType != AddressParam && paramType != StringParam && paramType != BoolParam
      modifies this`len, buf
      ensures Valid()
      ensures Appends(old(Text()), Text(), ParamTextAt(paramType, data, offset, utf8), r.Ok?)
      ensures r.Err? ==> r.error == ErrorOf(ParamTextAt(paramType, data, offset, utf8))
    {
      hide DecimalText, SignedText, AsI64, FromLE, Appends;
      AppendsNoText(Text());
      match paramType {
        case U64Param =>
          if offset + 8 > |data| { return Err(Panic); }
          MachineNumber(data[offset..offset + 8]);
          r := PushU64(FromLE(data[offset..offset + 8]));
        case I64Param =>
          if offset + 8 > |data| { return Err(Panic); }
          r := PushI64(AsI64(FromLE(data[offset..offset + 8])));
        case U8Param =>
          if offset >= |data| { return Err(InvalidInstructionData); }
          MachineNumber(data[offset..offset + 1]);
          r := PushU64(data[offset]);
        case U16Param =>
          if offset + 2 > |data| { return Err(Panic); }
          MachineNumber(data[offset..offset + 2]);
          r := PushU64(FromLE(data[offset..offset + 2]));
        case U32Param =>
          if offset + 4 > |data| { return Err(Panic); }
          MachineNumber(data[offset..offset + 4]);
          r := PushU64(FromLE(data[offset..offset + 4]));
        case U128Param =>
          if offset + 16 > |data| { return Err(Panic); }
          MachineNumber(data[offset..offset + 16]);
          r := PushU128(FromLE(data[offset..offset + 16]));
      }
    }

    /** The `{N}` at `t[i]`; the result is the place after it. */
    method RenderPlaceholderAt(def: Definition, data: Bytes, utf8: Bytes -> bool, t: Bytes, i: nat, ghost before: Bytes,
                               ghost done: Bytes, ghost whole: Result<Bytes>)
      returns (r: Result<nat>, ghost more: Bytes)
      requires Valid() && i < |t| && t[i] == 0x7b
      requires Appends(before, Text(), Ok(done), true)
      requires Continues(whole, done, Render(def.params, data, t[i..], utf8))
      modifies this`len, buf
      ensures Valid()
      ensures r.Ok? ==>
                && i < r.value <= |t| && Appends(before, Text(), Ok(more), true)
                && Continues(whole, more, Render(def.params, data, t[r.value..], utf8))
                && TemplatePanics(def.params, data, t[i..], utf8, MSG_BUF_SIZE - old(len))
                   == TemplatePanics(def.params, data, t[r.value..], utf8, MSG_BUF_SIZE - len)
      ensures r.Err? ==>
                && Appends(before, Text(), whole, false)
                && r.error == if TemplatePanics(def.params, data, t[i..], utf8, MSG_BUF_SIZE - old(len)) then Panic
                              else InvalidInstructionData
    {
      hide Render, Appends, Continues, MessageText.RenderParam, ParsedUsize, FindClose, TemplatePanics;
      ghost var between, rest := Text(), t[i..];
      more := done;
      var start := i + 1;
      assert rest[1..] == t[start..];
      var close := FindClose(t[start..]);
      if close == None {
        UnclosedTemplate(def.params, data, rest, utf8);
        PanicsNowhere(def.params, data, rest, utf8, MSG_BUF_SIZE - len);
        ContinuesRefused(whole, done, Render(def.params, data, rest, utf8));
        AppendsRefused(before, between, done, whole);
        return Err(InvalidInstructionData), more;
      }
      var end := start + close.value;
      RenderPlaceholder(def.params, data, rest, close.value, utf8);
      PanicsAtPlaceholder(def.params, data, rest, close.value, utf8, MSG_BUF_SIZE - len);
      assert rest[1..1 + close.value] == t[start..end] && rest[close.value + 2..] == t[end + 1..];
      var index := ParseUsize(t[start..end]);
      if index.Err? {
        ContinuesRefused(whole, done, Render(def.params, data, rest, utf8));
        AppendsRefused(before, between, done, whole);
        return Err(index.error), more;
      }
      ghost var text := MessageText.RenderParam(def.params, data, index.value % 0x100, utf8);
      var pushed := RenderParam(def.params, data, index.value % 0x100, utf8);
      AppendsPiece(before, between, Text(), done, text, pushed.Ok?, whole,
                   Render(def.params, data, rest, utf8), Render(def.params, data, t[end + 1..], utf8));
      if text.Err? {
        RenderErrors(def.params, data, index.value % 0x100, utf8);
      } else {
        AppendsRoom(between, Text(), text, pushed.Ok?);
        more := done + text.value;
      }
      r := if pushed.Ok? then Ok(end + 1) else Err(pushed.error);
    }

    method RenderTemplate(def: Definition, data: Bytes, utf8: Bytes -> bool) returns (r: Result<()>)
      requires Valid()
      modifies this`len, buf
      ensures Valid()
      ensures Appends(old(Text()), Text(), CustomContent(def, data, utf8), r.Ok?)
      ensures r.Err? ==> r.error == if Panics(def, data, utf8, old(len)) then Panic else InvalidInstructionData
      ensures r.Ok? ==> !Panics(def, data, utf8, old(len))
    {
      hide Render, Appends, Continues, MessageText.RenderParam, ParsedUsize, FindClose, TemplatePanics;
      ghost var before, done := Text(), [];
      AppendsNothing(before);
      var template := Template(def, utf8);
      if template.Err? {
        AppendsRefused(before, before, [], CustomContent(def, data, utf8));
        return Err(template.error);
      }
      var t := template.value;
      ghost var whole := Render(def.params, data, t, utf8);
      var i := 0;
      assert t[0..] == t;
      ContinuesFresh(whole);
      while i < |t|
        invariant Valid() && unchanged(this`buf) && i <= |t|
        invariant Appends(before, Text(), Ok(done), true)
        invariant Continues(whole, done, Render(def.params, data, t[i..], utf8))
        invariant Panics(def, data, utf8, old(len)) == TemplatePanics(def.params, data, t[i..], utf8,
                                                                      MSG_BUF_SIZE - len)
      {
        ghost var between := Text();
        ghost var rest := t[i..];
        if t[i] == 0x7b {
          var next;
          next, done := RenderPlaceholderAt(def, data, utf8, t, i, before, done, whole);
          if next.Err? {
            return Err(next.error);
          }
          i := next.value;
        } else {
          RenderLiteral(def.params, data, rest, utf8);
          PanicsAtLiteral(def.params, data, rest, utf8, MSG_BUF_SIZE - len);
          assert rest[1..] == t[i + 1..];
          r := PushBytes(t[i..i + 1]);
          assert t[i..i + 1] == [rest[0]];
          AppendsPiece(before, between, Text(), done, Ok(t[i..i + 1]), r.Ok?, whole,
                       Render(def.params, data, rest, utf8), Render(def.params, data, t[i + 1..], utf8));
          AppendsRoom(between, Text(), Ok(t[i..i + 1]), r.Ok?);
          if r.Err? { return; }
          done := done + t[i..i + 1];
          i := i + 1;
        }
      }
      EmptyTemplate(def.params, data, utf8);
      assert t[i..] == [];
      PanicsNowhere(def.params, data, [], utf8, MSG_BUF_SIZE - len);
      AppendsAll(before, Text(), done, whole);
      r := Ok(());
    }

    // ---- Whole messages ----

    /** `push_header` as the first part of a message body. */
    method StartBody(ctx: Context, ghost whole: Bytes) returns (r: Result<()>)
      requires Valid()
      requires |Header(ctx)| <= |whole|
      modifies this`len, buf
      ensures Valid()
      ensures r.Ok? ==> Appends(old(Text()), Text(), Ok(Header(ctx)), true)
      ensures r.Err? ==> Appends(old(Text()), Text(), Ok(whole), false)
      ensures r.Err? ==> r.error == InvalidInstructionData
    {
      hide Header;
      r := PushHeader(ctx);
    }

    /** `push_suffix` as the last part of a message body. */
    method EndBody(ctx: Context, ghost before: Bytes, ghost done: Bytes, ghost whole: Bytes) returns (r: Result<()>)
      requires Valid()
      requires Appends(before, Text(), Ok(done), true)
      requires done + Suffix(ctx) == whole
      modifies this`len, buf
      ensures Valid()
      ensures Appends(before, Text(), Ok(whole), r.Ok?)
      ensures r.Err? ==> r.error == InvalidInstructionData
    {
      hide Suffix, Appends;
      ghost var between := Text();
      r := PushSuffix(ctx);
      AppendsStep(before, between, Text(), done, Suffix(ctx), r.Ok?, whole);
    }

    method BuildAddIntentMessage(ctx: Context, hash: Digest) returns (r: Result<()>)
      requires Valid()
      modifies this`len, buf
      ensures Valid()
      ensures Appends(old(Text()), Text(), Ok(BodyOf(ctx, AddContent(hash))), r.Ok?)
      ensures r.Err? ==> r.error == InvalidInstructionData
    {
      hide Appends, Header, Suffix, Ascii, HexText;
      ghost var before, whole, done := Text(), BodyOf(ctx, AddContent(hash)), Header(ctx);
      r := StartBody(ctx, whole);
      if r.Err? { return; }
      r, done := PushPart(Ascii("add intent definition_hash: "), before, done, whole);
      if r.Err? { return; }
      r, done := PushHexPart(hash, before, done, whole);
      if r.Err? { return; }
      r := EndBody(ctx, before, done, whole);
    }

    method BuildRemoveIntentMessage(ctx: Context, target: byte) returns (r: Result<()>)
      requires Valid()
      modifies this`len, buf
      ensures Valid()
      ensures Appends(old(Text()), Text(), Ok(BodyOf(ctx, RemoveContent(target))), r.Ok?)
      ensures r.Err? ==> r.error == InvalidInstructionData
    {
      hide Appends, Header, Suffix, Ascii, DecimalText;
      ghost var before, whole, done := Text(), BodyOf(ctx, RemoveContent(target)), Header(ctx);
      r := StartBody(ctx, whole);
      if r.Err? { return; }
      r, done := PushPart(Ascii("remove intent "), before, done, whole);
      if r.Err? { return; }
      r, done := PushNumberPart(target, before, done, whole);
      if r.Err? { return; }
      r := EndBody(ctx, before, done, whole);
    }

    method BuildUpdateIntentMessage(ctx: Context, target: byte, hash: Digest) returns (r: Result<()>)
      requires Valid()
      modifies this`len, buf
      ensures Valid()
      ensures Appends(old(Text()), Text(), Ok(BodyOf(ctx, UpdateContent(target, hash))), r.Ok?)
      ensures r.Err? ==> r.error == InvalidInstructionData
    {
      UpdateParts(ctx, target, hash);
      hide Appends, Header, Suffix, Ascii, DecimalText, HexText, BodyOf;
      ghost var before, whole, done := Text(), BodyOf(ctx, UpdateContent(target, hash)), Header(ctx);
      r := StartBody(ctx, whole);
      if r.Err? { return; }
      r, done := PushPart(Ascii("update intent "), before, done, whole);
      if r.Err? { return; }
      r, done := PushNumberPart(target, before, done, whole);
      if r.Err? { return; }
      r, done := PushPart(Ascii(" definition_hash: "), before, done, whole);
      if r.Err? { return; }
      r, done := PushHexPart(hash, before, done, whole);
      if r.Err? { return; }
      r := EndBody(ctx, before, done, whole);
    }

    method BuildCustomMessage(ctx: Context, def: Definition, data: Bytes, utf8: Bytes -> bool) returns (r: Result<()>)
      requires Valid()
      modifies this`len, buf
      ensures Valid()
      ensures Appends(old(Text()), Text(), WithFrame(ctx, CustomContent(def, data, utf8)), r.Ok?)
      ensures r.Err? && def.intentType == Custom ==>
                r.error == BuildError(ctx, def, data, utf8, MSG_BUF_SIZE - old(len))
    {
      hide Appends, Header, Suffix, CustomContent;
      ghost var before, content := Text(), CustomContent(def, data, utf8);
      ghost var whole := WithFrame(ctx, content);
      r := PushHeader(ctx);
      ghost var afterHeader := Text();
      AppendsRoom(before, afterHeader, Ok(Header(ctx)), r.Ok?);
      if r.Err? {
        AppendsFails(before, afterHeader, Header(ctx), whole);
        return;
      }
      r := RenderTemplate(def, data, utf8);
      ghost var afterContent := Text();
      AppendsContent(before, afterHeader, afterContent, ctx, content, r.Ok?);
      if r.Err? { return; }
      r := EndBody(ctx, before, Header(ctx) + content.value, whole.value);
    }

    /** The message of any intent, complete with the off-chain header. */
    method BuildMessageForIntent(env: Env, ctx: Context, def: Definition, data: Bytes) returns (r: Result<()>)
      requires Valid()
      modifies this`len, buf
      ensures Valid()
      ensures Appends(old(Text()), Text(), Body(env, ctx, def, data), r.Ok?)
      ensures r.Err? ==> r.error == BuildError(ctx, def, data, env.utf8, MSG_BUF_SIZE - old(len))
      ensures r.Ok? ==> buf[..len] == Wrapped(Text())
    {
      hide Appends, BodyOf, AddContent, RemoveContent, UpdateContent, CustomContent, Wrapped;
      match def.intentType {
        case AddIntent =>
          r := BuildAddIntentMessage(ctx, env.sha256(data));
        case RemoveIntent =>
          if |data| != 1 { AppendsNoText(Text()); return Err(InvalidInstructionData); }
          r := BuildRemoveIntentMessage(ctx, data[0]);
        case UpdateIntent =>
          if |data| <= 1 { AppendsNoText(Text()); return Err(InvalidInstructionData); }
          r := BuildUpdateIntentMessage(ctx, data[0], env.sha256(data[1..]));
        case Custom =>
          r := BuildCustomMessage(ctx, def, data, env.utf8);
      }
      if r.Ok? {
        ghost var text := Text();
        r := Finalize();
        KeepsText(buf[..len], text);
        assert Text() == buf[..len][HEADER_LEN..];
      }
    }
  }

  /** The bytes an instruction checks a signature against: `new`, `build_message_for_intent`, `as_bytes`. */
  method SignedBytes(env: Env, ctx: Context, def: Definition, data: Bytes) returns (r: Result<Bytes>)
    ensures r == Built(env, ctx, def, data)
  {
    hide Wrapped, Body;
    var builder := new MessageBuilder();
    var built := builder.BuildMessageForIntent(env, ctx, def, data);
    if built.Err? {
      return Err(built.error);
    }
    ghost var body := Body(env, ctx, def, data).value;
    assert builder.Text() == [] + body == body;
    var bytes := builder.AsBytes();
    r := Ok(bytes);
  }

  lemma KeepsText(wrapped: Bytes, text: Bytes)
    requires wrapped == Wrapped(text)
    ensures wrapped[HEADER_LEN..] == text
  {}

  lemma AppendsNoText(text: Bytes)
    ensures forall e: ProgramError :: Appends(text, text, Err(e), false)
  {}

  lemma AppendsFails(before: Bytes, after: Bytes, first: Bytes, whole: Result<Bytes>)
    requires Appends(before, after, Ok(first), false)
    requires whole.Ok? ==> |first| <= |whole.value|
    ensures Appends(before, after, whole, false)
  {}

  function WithFrame(ctx: Context, content: Result<Bytes>): (r: Result<Bytes>)
  {
    var c :- content;
    Ok(BodyOf(ctx, c))
  }

  lemma AppendsContent(before: Bytes, between: Bytes, after: Bytes, ctx: Context, content: Result<Bytes>, ok: bool)
    requires Appends(before, between, Ok(Header(ctx)), true)
    requires Appends(between, after, content, ok)
    ensures ok ==> content.Ok? && Appends(before, after, Ok(Header(ctx) + content.value), true)
    ensures !ok ==> Appends(before, after, WithFrame(ctx, content), false)
  {
    hide Header, Suffix;
  }

  lemma UpdateParts(ctx: Context, target: byte, hash: Digest)
    ensures BodyOf(ctx, UpdateContent(target, hash))
            == Header(ctx) + Ascii("update intent ") + DecimalText(target) + Ascii(" definition_hash: ") + HexText(hash)
               + Suffix(ctx)
  {
    hide Header, Suffix, Ascii, DecimalText, HexText;
  }

  lemma AppendsNothing(text: Bytes)
    requires HEADER_LEN + |text| <= MSG_BUF_SIZE
    ensures Appends(text, text, Ok([]), true)
  {}

  lemma HeaderParts(ctx: Context)
    ensures Header(ctx) == [] + Ascii("expires ") + TimestampText.Text(ctx.expiry) + Ascii(": ")
                           + ActionText(ctx.action) + Ascii(" ")
    ensures |Header(ctx)| == |Ascii("expires ")| + |TimestampText.Text(ctx.expiry)| + |Ascii(": ")|
                             + |ActionText(ctx.action)| + |Ascii(" ")|
  {
    hide Ascii, TimestampText.Text, ActionText;
  }

  lemma SuffixParts(ctx: Context)
    ensures Suffix(ctx) == [] + Ascii(" | wallet: ") + ctx.walletName + Ascii(" proposal: ")
                           + DecimalText(ctx.proposalIndex)
    ensures |Suffix(ctx)| == |Ascii(" | wallet: ")| + |ctx.walletName| + |Ascii(" proposal: ")|
                             + |DecimalText(ctx.proposalIndex)|
  {
    hide Ascii, DecimalText;
  }
}
