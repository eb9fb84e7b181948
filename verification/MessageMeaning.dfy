/** What a signed message determines, and what its text says about each parameter. */
module MessageMeaning {
  import opened Bytes
  import opened Decimal
  import opened Definition
  import opened MessageText
  import opened Params
  import Base58
  import Calendar
  import TimestampText

  // ---- The frame: expiry, action and proposal index ----

  lemma WrappedInjective(b1: Bytes, b2: Bytes)
    requires Wrapped(b1) == Wrapped(b2)
    ensures b1 == b2
  {
    assert Wrapped(b1)[HEADER_LEN..] == b1 && Wrapped(b2)[HEADER_LEN..] == b2;
  }

  /** The header of a signed message: at most 2048 bytes in all, and a length field that is the length of the body. */
  lemma HeaderFields(env: Env, ctx: Context, def: Definition, data: Bytes)
    requires Message(env, ctx, def, data).Ok?
    ensures var m := Message(env, ctx, def, data).value;
            && HEADER_LEN <= |m| <= MSG_BUF_SIZE
            && m[..18] == [0xff] + Ascii("solana offchain") + [0, 0]
            && FromLE(m[18..HEADER_LEN]) == |m| - HEADER_LEN
            && Body(env, ctx, def, data) == Ok(m[HEADER_LEN..])
  {
    var body := Body(env, ctx, def, data).value;
    WrappedFields(body);
    hide Wrapped, Body;
  }

  lemma WrappedFields(body: Bytes)
    requires |body| < 0x1_0000
    ensures Wrapped(body)[..18] == [0xff] + Ascii("solana offchain") + [0, 0]
    ensures FromLE(Wrapped(body)[18..HEADER_LEN]) == |body|
    ensures Wrapped(body)[HEADER_LEN..] == body
  {
    var field := Wrapped(body)[18..HEADER_LEN];
    assert field == [|body| % 0x100, |body| / 0x100 % 0x100];
    assert FromLE(field) == field[0] + 0x100 * FromLE(field[1..]) && FromLE(field[1..]) == field[1];
  }

  /** The message of a meta-intent always fits, for the names a wallet can have. */
  lemma MetaFits(env: Env, ctx: Context, def: Definition, data: Bytes)
    requires !def.intentType.Custom? && Content(env, def, data).Ok? && |ctx.walletName| <= 64
    ensures Message(env, ctx, def, data).Ok?
  {
    MetaContentOf(env, def, data);
    var meta := MetaOf(env, def, data).value;
    MetaSize(meta);
    FrameSize(ctx);
    hide MetaOf, MetaContent, Header, Suffix, Content;
  }

  lemma MetaSize(meta: Meta)
    ensures |MetaContent(meta)| <= 120
  {
    match meta {
      case Add(_) =>
        assert |Ascii("add intent definition_hash: ")| == 28;
      case Remove(target) =>
        ByteText(target);
        assert |Ascii("remove intent ")| == 14;
      case Update(target, _) =>
        ByteText(target);
        assert |Ascii("update intent ")| == 14 && |Ascii(" definition_hash: ")| == 18;
    }
    hide HexText, DecimalText;
  }

  lemma ByteText(n: byte)
    ensures |DecimalText(n)| <= 3
  {
    assert Pow(10, 3) == 1000;
    DecimalLength(n, 3);
  }

  lemma FrameSize(ctx: Context)
    ensures |Header(ctx)| <= 40
    ensures |Suffix(ctx)| <= |ctx.walletName| + 50
  {
    MachineWidths();
    DecimalLength(ctx.proposalIndex, 20);
    assert |Ascii("expires ")| == 8 && |Ascii(" | wallet: ")| == 11 && |Ascii(" proposal: ")| == 11;
    assert |ActionText(ctx.action)| <= 7;
    hide DecimalText, Pow, TimestampText.Text, ActionText;
  }

  /** A body read from the front. */
  lemma BodyFront(ctx: Context, content: Bytes)
    ensures BodyOf(ctx, content)
            == Ascii("expires ") + (TimestampText.Text(ctx.expiry)
               + (Ascii(": ") + (ActionText(ctx.action) + (Ascii(" ") + content + Suffix(ctx)))))
  {
    hide Ascii, TimestampText.Text, ActionText, Suffix;
  }

  /** A body read from the back. */
  lemma BodyBack(ctx: Context, content: Bytes)
    ensures BodyOf(ctx, content) == BeforeIndex(ctx, content) + DecimalText(ctx.proposalIndex)
    ensures BeforeIndex(ctx, content) != []
    ensures BeforeIndex(ctx, content)[|BeforeIndex(ctx, content)| - 1] == 0x20
  {
    LastIsSpace();
    hide Ascii, Header, DecimalText;
  }

  function BeforeIndex(ctx: Context, content: Bytes): (r: Bytes)
  {
    Header(ctx) + content + (Ascii(" | wallet: ") + ctx.walletName) + Ascii(" proposal: ")
  }

  lemma LastIsSpace()
    ensures |Ascii(" proposal: ")| == 11 && Ascii(" proposal: ")[10] == 0x20
  {}

  lemma ActionByte(action: Action)
    ensures |ActionText(action)| > 0
    ensures ActionText(action)[0] == match action case Propose => 0x70 case Approve => 0x61 case Cancel => 0x63
  {}

  lemma SameAction(a1: Action, a2: Action, r1: Bytes, r2: Bytes)
    requires ActionText(a1) + r1 == ActionText(a2) + r2
    ensures a1 == a2
  {
    ActionByte(a1);
    ActionByte(a2);
    hide ActionText;
    assert (ActionText(a1) + r1)[0] == ActionText(a1)[0] && (ActionText(a2) + r2)[0] == ActionText(a2)[0];
  }

  lemma SameIndex(n1: nat, n2: nat, p1: Bytes, p2: Bytes)
    requires p1 != [] && p2 != [] && p1[|p1| - 1] == 0x20 && p2[|p2| - 1] == 0x20
    requires p1 + DecimalText(n1) == p2 + DecimalText(n2)
    ensures n1 == n2 && p1 == p2
  {
    DecimalRoundTrip(n1);
    DecimalRoundTrip(n2);
    hide DecimalText, ReadDigits;
    DigitRunBack(p1, p2, DecimalText(n1), DecimalText(n2));
  }

  /** Equal bodies agree on the written expiry, the action, the index and everything between them. */
  lemma FrameDetermined(c1: Context, c2: Context, content1: Bytes, content2: Bytes)
    requires BodyOf(c1, content1) == BodyOf(c2, content2)
    ensures TimestampText.Text(c1.expiry) == TimestampText.Text(c2.expiry)
    ensures c1.action == c2.action && c1.proposalIndex == c2.proposalIndex
    ensures content1 + (Ascii(" | wallet: ") + c1.walletName) == content2 + (Ascii(" | wallet: ") + c2.walletName)
  {
    FrontDetermined(c1, c2, content1, content2);
    BodyBack(c1, content1);
    BodyBack(c2, content2);
    SameIndex(c1.proposalIndex, c2.proposalIndex, BeforeIndex(c1, content1), BeforeIndex(c2, content2));
    MiddleDetermined(c1, c2, content1, content2);
  }

  lemma FrontDetermined(c1: Context, c2: Context, content1: Bytes, content2: Bytes)
    requires BodyOf(c1, content1) == BodyOf(c2, content2)
    ensures TimestampText.Text(c1.expiry) == TimestampText.Text(c2.expiry) && c1.action == c2.action
  {
    BodyFront(c1, content1);
    BodyFront(c2, content2);
    hide Ascii, TimestampText.Text, ActionText, BodyOf, Suffix;
    var (s1, s2) := (Ascii(" ") + content1 + Suffix(c1), Ascii(" ") + content2 + Suffix(c2));
    var (a1, a2) := (ActionText(c1.action) + s1, ActionText(c2.action) + s2);
    var (t1, t2) := (TimestampText.Text(c1.expiry), TimestampText.Text(c2.expiry));
    ConcatCancel(Ascii("expires "), Ascii("expires "), t1 + (Ascii(": ") + a1), t2 + (Ascii(": ") + a2));
    ConcatCancel(t1, t2, Ascii(": ") + a1, Ascii(": ") + a2);
    ConcatCancel(Ascii(": "), Ascii(": "), a1, a2);
    SameAction(c1.action, c2.action, s1, s2);
  }

  lemma MiddleDetermined(c1: Context, c2: Context, content1: Bytes, content2: Bytes)
    requires BeforeIndex(c1, content1) == BeforeIndex(c2, content2)
    requires TimestampText.Text(c1.expiry) == TimestampText.Text(c2.expiry) && c1.action == c2.action
    ensures content1 + (Ascii(" | wallet: ") + c1.walletName) == content2 + (Ascii(" | wallet: ") + c2.walletName)
  {
    assert Header(c1) == Header(c2);
    hide Ascii, Header;
    var (w1, w2) := (Ascii(" | wallet: ") + c1.walletName, Ascii(" | wallet: ") + c2.walletName);
    CancelAround(Header(c1), content1, content2, w1, w2, Ascii(" proposal: "));
  }

  lemma CancelAround(head: Bytes, s1: Bytes, s2: Bytes, w1: Bytes, w2: Bytes, last: Bytes)
    requires head + s1 + w1 + last == head + s2 + w2 + last
    ensures s1 + w1 == s2 + w2
  {
    ConcatCancel(head + s1 + w1, head + s2 + w2, last, last);
    assert head + s1 + w1 == head + (s1 + w1) && head + s2 + w2 == head + (s2 + w2);
    ConcatCancel(head, head, s1 + w1, s2 + w2);
  }

  predicate YearInRange(timestamp: i64)
  {
    0 <= Calendar.TimestampToParts(timestamp).year < 208000
  }

  /** Two texts read the same: action, index, written expiry, and all from the content through the wallet's name. */
  predicate SameReading(c1: Context, c2: Context, content1: Bytes, content2: Bytes)
  {
    && c1.action == c2.action && c1.proposalIndex == c2.proposalIndex
    && TimestampText.Text(c1.expiry) == TimestampText.Text(c2.expiry)
    && content1 + (Ascii(" | wallet: ") + c1.walletName) == content2 + (Ascii(" | wallet: ") + c2.walletName)
  }

  /**
   For every intent type, custom ones included: the signed bytes are equal exactly when action, proposal index, written
   expiry and the text from the content through the wallet name are. For the years 0 to 207999 the expiry is then equal.
   */
  lemma MessageDetermines(env: Env, c1: Context, c2: Context, d1: Definition, d2: Definition, p1: Bytes, p2: Bytes)
    requires Message(env, c1, d1, p1).Ok? && Message(env, c2, d2, p2).Ok?
    ensures Content(env, d1, p1).Ok? && Content(env, d2, p2).Ok?
    ensures Message(env, c1, d1, p1) == Message(env, c2, d2, p2) <==>
            SameReading(c1, c2, Content(env, d1, p1).value, Content(env, d2, p2).value)
    ensures Message(env, c1, d1, p1) == Message(env, c2, d2, p2) && YearInRange(c1.expiry) && YearInRange(c2.expiry) ==>
              c1.expiry == c2.expiry
  {
    var (content1, content2) := (Content(env, d1, p1), Content(env, d2, p2));
    hide Wrapped, BodyOf, Content, TimestampText.Text, Calendar.TimestampToParts, Ascii;
    var (b1, b2) := (BodyOf(c1, content1.value), BodyOf(c2, content2.value));
    if Wrapped(b1) == Wrapped(b2) {
      WrappedInjective(b1, b2);
      FrameDetermined(c1, c2, content1.value, content2.value);
      if YearInRange(c1.expiry) && YearInRange(c2.expiry) {
        TimestampText.TextOrder(c1.expiry, c2.expiry);
      }
    }
    if SameReading(c1, c2, content1.value, content2.value) {
      SameFrame(c1, c2, content1.value, content2.value);
    }
  }

  lemma SameFrame(c1: Context, c2: Context, content1: Bytes, content2: Bytes)
    requires SameReading(c1, c2, content1, content2)
    ensures BodyOf(c1, content1) == BodyOf(c2, content2)
  {
    assert Header(c1) == Header(c2);
    BodyMiddle(c1, content1);
    BodyMiddle(c2, content2);
    hide Ascii, Header, BodyOf;
  }

  lemma BodyMiddle(ctx: Context, content: Bytes)
    ensures BodyOf(ctx, content) == Header(ctx) + (content + (Ascii(" | wallet: ") + ctx.walletName))
                                    + (Ascii(" proposal: ") + DecimalText(ctx.proposalIndex))
  {
    hide Ascii, Header, DecimalText;
  }

  // ---- Meta-intents: the content and the wallet name ----

  /** What a meta-intent proposal does. */
  datatype Meta = Add(hash: Digest) | Remove(target: byte) | Update(target: byte, newHash: Digest)

  function MetaContent(meta: Meta): (r: Bytes)
  {
    match meta
    case Add(hash) => AddContent(hash)
    case Remove(target) => RemoveContent(target)
    case Update(target, hash) => UpdateContent(target, hash)
  }

  function MetaOf(env: Env, def: Definition, data: Bytes): (r: Option<Meta>)
  {
    match def.intentType
    case AddIntent => Some(Add(env.sha256(data)))
    case RemoveIntent => if |data| == 1 then Some(Remove(data[0])) else None
    case UpdateIntent => if |data| > 1 then Some(Update(data[0], env.sha256(data[1..]))) else None
    case Custom => None
  }

  lemma MetaByte(meta: Meta)
    ensures MetaContent(meta) != []
    ensures MetaContent(meta)[0] == match meta case Add(_) => 0x61 case Remove(_) => 0x72 case Update(_, _) => 0x75
  {
    hide HexText, DecimalText;
  }

  lemma SameKind(m1: Meta, m2: Meta, r1: Bytes, r2: Bytes)
    requires MetaContent(m1) + r1 == MetaContent(m2) + r2
    ensures (m1.Add? <==> m2.Add?) && (m1.Remove? <==> m2.Remove?)
  {
    MetaByte(m1);
    MetaByte(m2);
    hide MetaContent;
    assert (MetaContent(m1) + r1)[0] == MetaContent(m1)[0] && (MetaContent(m2) + r2)[0] == MetaContent(m2)[0];
  }

  /** A decimal number followed by a space is read off unambiguously. */
  lemma SameNumber(n1: nat, n2: nat, r1: Bytes, r2: Bytes)
    requires r1 != [] && r2 != [] && r1[0] == 0x20 && r2[0] == 0x20
    requires DecimalText(n1) + r1 == DecimalText(n2) + r2
    ensures n1 == n2 && r1 == r2
  {
    DecimalRoundTrip(n1);
    DecimalRoundTrip(n2);
    hide DecimalText, ReadDigits;
    DigitRunFront(DecimalText(n1), DecimalText(n2), r1, r2);
  }

  lemma AddDetermined(h1: Digest, h2: Digest, r1: Bytes, r2: Bytes)
    requires AddContent(h1) + r1 == AddContent(h2) + r2
    ensures h1 == h2 && r1 == r2
  {
    hide Ascii, HexText;
    var lead := Ascii("add intent definition_hash: ");
    assert |lead + HexText(h1)| == |lead + HexText(h2)|;
    ConcatCancel(lead + HexText(h1), lead + HexText(h2), r1, r2);
    ConcatCancel(lead, lead, HexText(h1), HexText(h2));
    HexInjective(h1, h2);
  }

  lemma RemoveDetermined(t1: byte, t2: byte, r1: Bytes, r2: Bytes)
    requires r1 != [] && r2 != [] && r1[0] == 0x20 && r2[0] == 0x20
    requires RemoveContent(t1) + r1 == RemoveContent(t2) + r2
    ensures t1 == t2 && r1 == r2
  {
    hide Ascii, DecimalText;
    var lead := Ascii("remove intent ");
    assert RemoveContent(t1) + r1 == lead + (DecimalText(t1) + r1);
    assert RemoveContent(t2) + r2 == lead + (DecimalText(t2) + r2);
    ConcatCancel(lead, lead, DecimalText(t1) + r1, DecimalText(t2) + r2);
    SameNumber(t1, t2, r1, r2);
  }

  lemma UpdateDetermined(t1: byte, t2: byte, h1: Digest, h2: Digest, r1: Bytes, r2: Bytes)
    requires UpdateContent(t1, h1) + r1 == UpdateContent(t2, h2) + r2
    ensures t1 == t2 && h1 == h2 && r1 == r2
  {
    var (lead, middle) := (Ascii("update intent "), Ascii(" definition_hash: "));
    assert middle[0] == 0x20;
    UpdateShape(t1, h1, r1);
    UpdateShape(t2, h2, r2);
    hide Ascii, DecimalText, HexText, UpdateContent;
    var (s1, s2) := (middle + (HexText(h1) + r1), middle + (HexText(h2) + r2));
    assert s1[0] == middle[0] && s2[0] == middle[0];
    ConcatCancel(lead, lead, DecimalText(t1) + s1, DecimalText(t2) + s2);
    SameNumber(t1, t2, s1, s2);
    ConcatCancel(middle, middle, HexText(h1) + r1, HexText(h2) + r2);
    ConcatCancel(HexText(h1), HexText(h2), r1, r2);
    HexInjective(h1, h2);
  }

  lemma UpdateShape(t: byte, h: Digest, r: Bytes)
    ensures UpdateContent(t, h) + r
            == Ascii("update intent ") + (DecimalText(t) + (Ascii(" definition_hash: ") + (HexText(h) + r)))
  {
    hide Ascii, DecimalText, HexText;
  }

  lemma ContentDetermined(m1: Meta, m2: Meta, r1: Bytes, r2: Bytes)
    requires r1 != [] && r2 != [] && r1[0] == 0x20 && r2[0] == 0x20
    requires MetaContent(m1) + r1 == MetaContent(m2) + r2
    ensures m1 == m2 && r1 == r2
  {
    SameKind(m1, m2, r1, r2);
    hide AddContent, RemoveContent, UpdateContent;
    match m1 {
      case Add(hash) => AddDetermined(hash, m2.hash, r1, r2);
      case Remove(target) => RemoveDetermined(target, m2.target, r1, r2);
      case Update(target, hash) => UpdateDetermined(target, m2.target, hash, m2.newHash, r1, r2);
    }
  }

  lemma SpaceFirst(name: Bytes)
    ensures Ascii(" | wallet: ") + name != []
    ensures (Ascii(" | wallet: ") + name)[0] == 0x20
  {}

  /**
   For meta-intents the signed bytes are equal exactly when everything they are about is: kind, target, hash, wallet
   name (whatever it contains), action, index and written expiry.
   */
  lemma MetaMessageDetermines(env: Env, c1: Context, c2: Context, d1: Definition, d2: Definition, p1: Bytes, p2: Bytes)
    requires Message(env, c1, d1, p1).Ok? && Message(env, c2, d2, p2).Ok?
    requires !d1.intentType.Custom? && !d2.intentType.Custom?
    ensures Message(env, c1, d1, p1) == Message(env, c2, d2, p2) <==>
            && MetaOf(env, d1, p1) == MetaOf(env, d2, p2)
            && c1.(expiry := 0) == c2.(expiry := 0)
            && TimestampText.Text(c1.expiry) == TimestampText.Text(c2.expiry)
  {
    MetaContentOf(env, d1, p1);
    MetaContentOf(env, d2, p2);
    var (m1, m2) := (MetaOf(env, d1, p1).value, MetaOf(env, d2, p2).value);
    var (b1, b2) := (BodyOf(c1, MetaContent(m1)), BodyOf(c2, MetaContent(m2)));
    assert Message(env, c1, d1, p1) == Ok(Wrapped(b1)) && Message(env, c2, d2, p2) == Ok(Wrapped(b2));
    hide Message, MetaOf, MetaContent, Wrapped, Content;
    if Wrapped(b1) == Wrapped(b2) {
      WrappedInjective(b1, b2);
      MetaBodyDetermined(c1, c2, m1, m2);
    }
    if m1 == m2 && c1.(expiry := 0) == c2.(expiry := 0)
       && TimestampText.Text(c1.expiry) == TimestampText.Text(c2.expiry) {
      assert Header(c1) == Header(c2) && Suffix(c1) == Suffix(c2);
    }
  }

  lemma MetaContentOf(env: Env, def: Definition, data: Bytes)
    requires !def.intentType.Custom? && Content(env, def, data).Ok?
    ensures MetaOf(env, def, data).Some?
    ensures Content(env, def, data) == Ok(MetaContent(MetaOf(env, def, data).value))
  {
    hide AddContent, RemoveContent, UpdateContent;
  }

  lemma MetaBodyDetermined(c1: Context, c2: Context, m1: Meta, m2: Meta)
    requires BodyOf(c1, MetaContent(m1)) == BodyOf(c2, MetaContent(m2))
    ensures m1 == m2 && c1.(expiry := 0) == c2.(expiry := 0)
    ensures TimestampText.Text(c1.expiry) == TimestampText.Text(c2.expiry)
  {
    SpaceFirst(c1.walletName);
    SpaceFirst(c2.walletName);
    hide MetaContent, BodyOf, Ascii, TimestampText.Text;
    FrameDetermined(c1, c2, MetaContent(m1), MetaContent(m2));
    var lead := Ascii(" | wallet: ");
    ContentDetermined(m1, m2, lead + c1.walletName, lead + c2.walletName);
    ConcatCancel(lead, lead, c1.walletName, c2.walletName);
  }

  // ---- Parameters: the text shown reads back to the value ----

  /** What reading a displayed parameter gives. */
  datatype Value = AddressValue(bytes: Bytes) | Number(n: int) | Flag(on: bool) | TextValue(text: Bytes)

  function ReadText(paramType: ParamType, text: Bytes): (r: Option<Value>)
  {
    match paramType
    case AddressParam =>
      (match Base58.Decoded(text)
       case Some(s) => Some(AddressValue(s))
       case None => None)
    case I64Param =>
      (match ReadSigned(text)
       case Some(n) => Some(Number(n))
       case None => None)
    case BoolParam =>
      if text == Ascii("true") then Some(Flag(true)) else if text == Ascii("false") then Some(Flag(false)) else None
    case StringParam => Some(TextValue(text))
    case _ =>
      match ReadDigits(text)
      case Some(n) => Some(Number(n))
      case None => None
  }

  /** The value of the raw bytes of a parameter. */
  function RawValue(paramType: ParamType, s: Bytes): (r: Value)
  {
    match paramType
    case AddressParam => AddressValue(s)
    case I64Param => Number(AsI64(FromLE(s)))
    case BoolParam => Flag(s != [] && s[0] != 0)
    case StringParam => TextValue(if s == [] then [] else s[1..])
    case _ => Number(FromLE(s))
  }

  /** The text shown for a parameter reads back to the value of its bytes, whatever its type. */
  lemma DisplayReads(paramType: ParamType, s: Bytes)
    ensures ReadText(paramType, ParamText(paramType, s)) == Some(RawValue(paramType, s))
  {
    match paramType {
      case AddressParam => Base58.RoundTrip(s);
      case I64Param => SignedRoundTrip(AsI64(FromLE(s)));
      case BoolParam => TrueIsNotFalse();
      case StringParam =>
      case _ => DecimalRoundTrip(FromLE(s));
    }
  }

  lemma TrueIsNotFalse()
    ensures Ascii("true") != Ascii("false")
  {
    assert |Ascii("true")| == 4 && |Ascii("false")| == 5;
  }

  /** Raw bytes as `param_byte_size` cuts them: eight for a signed number, a length byte in front of a text. */
  predicate WellSized(paramType: ParamType, s: Bytes)
  {
    match paramType
    case I64Param => |s| == 8
    case StringParam => s != [] && s[0] == |s| - 1
    case _ => true
  }

  /** For every type but booleans, whose non-zero bytes all read `true`, equal texts of equal size mean equal bytes. */
  lemma DisplayDetermines(paramType: ParamType, s1: Bytes, s2: Bytes)
    requires paramType != BoolParam && |s1| == |s2| && WellSized(paramType, s1) && WellSized(paramType, s2)
    ensures ParamText(paramType, s1) == ParamText(paramType, s2) <==> s1 == s2
  {
    DisplayReads(paramType, s1);
    DisplayReads(paramType, s2);
    if ParamText(paramType, s1) == ParamText(paramType, s2) {
      SameValueSameBytes(paramType, s1, s2);
    }
  }

  lemma SameValueSameBytes(paramType: ParamType, s1: Bytes, s2: Bytes)
    requires paramType != BoolParam && |s1| == |s2| && WellSized(paramType, s1) && WellSized(paramType, s2)
    requires RawValue(paramType, s1) == RawValue(paramType, s2)
    ensures s1 == s2
  {
    match paramType {
      case AddressParam =>
      case StringParam =>
        assert s1 == [s1[0]] + s1[1..] && s2 == [s2[0]] + s2[1..];
      case I64Param =>
        SameSigned(s1, s2);
      case _ =>
        FromLEInjective(s1, s2);
    }
  }

  lemma SameSigned(s1: Bytes, s2: Bytes)
    requires |s1| == |s2| == 8 && AsI64(FromLE(s1)) == AsI64(FromLE(s2))
    ensures s1 == s2
  {
    FromLEBound(s1);
    FromLEBound(s2);
    PowersOf256();
    var (a, b) := (FromLE(s1), FromLE(s2));
    hide FromLE, Pow;
    assert a == b;
    FromLEInjective(s1, s2);
  }

  /** After validation every declared parameter renders, and to the text of its bytes. */
  lemma ValidatedRenders(params: seq<ParamEntry>, data: Bytes, utf8: Bytes -> bool, i: byte)
    requires Validated(params, data, utf8).Ok? && i < |params|
    ensures ParamBytes(params, data, i).Ok?
    ensures RenderParam(params, data, i, utf8) == Ok(ParamText(params[i].paramType, ParamBytes(params, data, i).value))
  {
    SliceOf(params, data, utf8, i);
    hide Validated, ParamText;
  }

  predicate Declared(params: seq<ParamEntry>, pieces: seq<Piece>)
  {
    forall k :: 0 <= k < |pieces| && pieces[k].Placeholder? ==> pieces[k].index % 0x100 < |params|
  }

  /** After validation a template renders exactly when its placeholders, cut to a byte, name declared parameters. */
  lemma {:induction false} ValidatedSubstitutes(params: seq<ParamEntry>, data: Bytes, pieces: seq<Piece>,
                                                utf8: Bytes -> bool)
    requires Validated(params, data, utf8).Ok?
    ensures Substituted(params, data, pieces, utf8).Ok? <==> Declared(params, pieces)
  {
    if pieces != [] {
      hide Validated, RenderParam, ParamText;
      ValidatedSubstitutes(params, data, pieces[1..], utf8);
      assert Declared(params, pieces) <==>
             (pieces[0].Placeholder? ==> pieces[0].index % 0x100 < |params|) && Declared(params, pieces[1..]);
      if pieces[0].Placeholder? {
        var i := pieces[0].index % 0x100;
        if i < |params| {
          ValidatedRenders(params, data, utf8, i);
        } else {
          UndeclaredFails(params, data, utf8, i);
        }
      }
    }
  }

  lemma UndeclaredFails(params: seq<ParamEntry>, data: Bytes, utf8: Bytes -> bool, i: byte)
    requires i >= |params|
    ensures RenderParam(params, data, i, utf8).Err?
  {}
}
