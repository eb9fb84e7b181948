/** The texts of utils/message.rs as plain concatenations. */
module MessageText {
  import opened Bytes
  import opened Decimal
  import opened Definition
  import opened Params
  import Base58
  import TimestampText

  datatype Action = Propose | Approve | Cancel

  datatype Context = Context(expiry: i64, action: Action, walletName: Bytes, proposalIndex: u64)

  function ActionText(action: Action): (r: Bytes)
  {
    match action
    case Propose => Ascii("propose")
    case Approve => Ascii("approve")
    case Cancel => Ascii("cancel")
  }

  // ---- One parameter ----

  /** `i64::from_le_bytes` of an unsigned reading: two's complement. */
  function AsI64(n: nat): (r: i64)
  {
    (n + 0x8000_0000_0000_0000) % 0x1_0000_0000_0000_0000 - 0x8000_0000_0000_0000
  }

  /** The text shown for a parameter, given its raw bytes. */
  function ParamText(paramType: ParamType, s: Bytes): (r: Bytes)
  {
    match paramType
    case AddressParam => Base58.Encoded(s)
    case StringParam => if s == [] then [] else s[1..]
    case BoolParam => if s != [] && s[0] != 0 then Ascii("true") else Ascii("false")
    case I64Param => SignedText(AsI64(FromLE(s)))
    case _ => DecimalText(FromLE(s))
  }

  /** What the renderer does with bytes that are not there: the slicing arms abort, the one-byte arms report. */
  function ShortData(paramType: ParamType): (e: ProgramError)
  {
    if paramType == BoolParam || paramType == U8Param then InvalidInstructionData else Panic
  }

  function ParamTextAt(paramType: ParamType, data: Bytes, offset: nat, utf8: Bytes -> bool): (r: Result<Bytes>)
  {
    match ParamByteSize(paramType, data, offset)
    case Err(_) => Err(Panic)
    case Ok(size) =>
      match GetSlice(data, offset, offset + size)
      case None => Err(ShortData(paramType))
      case Some(s) =>
        if paramType == StringParam && !utf8(s[1..]) then Err(InvalidInstructionData)
        else Ok(ParamText(paramType, s))
  }

  function RenderParam(params: seq<ParamEntry>, data: Bytes, index: byte, utf8: Bytes -> bool): (r: Result<Bytes>)
  {
    if index >= |params| then Err(InvalidInstructionData)
    else
      var offset :- ParamStart(params, data, index);
      ParamTextAt(params[index].paramType, data, offset, utf8)
  }

  // ---- Templates ----

  datatype Piece = Literal(b: byte) | Placeholder(index: u64)

  /** `bytes[..].iter().position(|b| b == '}')`. */
  function FindClose(t: Bytes): (r: Option<nat>)
    ensures r.Some? ==> r.value < |t| && t[r.value] == 0x7d
  {
    if t == [] then None
    else if t[0] == 0x7d then Some(0)
    else
      match FindClose(t[1..])
      case Some(n) => Some(n + 1)
      case None => None
  }

  /** `parse_usize`: a decimal number below 2^64; the empty string is 0. */
  function ParsedUsize(s: Bytes): (r: Result<u64>)
    ensures r.Err? ==> r.error == InvalidInstructionData
  {
    match ReadDigits(s)
    case Some(n) => if n < 0x1_0000_0000_0000_0000 then Ok(n) else Err(InvalidInstructionData)
    case None => Err(InvalidInstructionData)
  }

  /** A template as literal bytes and `{N}` placeholders. */
  function Pieces(t: Bytes): (r: Result<seq<Piece>>)
    decreases |t|
  {
    if t == [] then Ok([])
    else if t[0] == 0x7b then
      match FindClose(t[1..])
      case None => Err(InvalidInstructionData)
      case Some(close) =>
        var index :- ParsedUsize(t[1..1 + close]);
        var rest :- Pieces(t[close + 2..]);
        Ok([Placeholder(index)] + rest)
    else
      var rest :- Pieces(t[1..]);
      Ok([Literal(t[0])] + rest)
  }

  /** The index is cut to a byte before the parameter is looked up. */
  function PieceText(params: seq<ParamEntry>, data: Bytes, piece: Piece, utf8: Bytes -> bool): (r: Result<Bytes>)
  {
    match piece
    case Literal(b) => Ok([b])
    case Placeholder(index) => RenderParam(params, data, index % 0x100, utf8)
  }

  function Substituted(params: seq<ParamEntry>, data: Bytes, pieces: seq<Piece>, utf8: Bytes -> bool)
    : (r: Result<Bytes>)
  {
    if pieces == [] then Ok([])
    else
      var text :- PieceText(params, data, pieces[0], utf8);
      var rest :- Substituted(params, data, pieces[1..], utf8);
      Ok(text + rest)
  }

  /** A template with every placeholder replaced. */
  function Render(params: seq<ParamEntry>, data: Bytes, t: Bytes, utf8: Bytes -> bool): (r: Result<Bytes>)
  {
    var pieces :- Pieces(t);
    Substituted(params, data, pieces, utf8)
  }

  // One step of the renderer at the head of a template.

  lemma RenderLiteral(params: seq<ParamEntry>, data: Bytes, t: Bytes, utf8: Bytes -> bool)
    requires t != [] && t[0] != 0x7b
    ensures var (whole, rest) := (Render(params, data, t, utf8), Render(params, data, t[1..], utf8));
            && (whole.Ok? <==> rest.Ok?)
            && (whole.Ok? ==> whole.value == [t[0]] + rest.value)
  {
    var pieces := Pieces(t[1..]);
    if pieces.Ok? {
      assert ([Literal(t[0])] + pieces.value)[1..] == pieces.value;
    }
  }

  lemma RenderPlaceholder(params: seq<ParamEntry>, data: Bytes, t: Bytes, close: nat, utf8: Bytes -> bool)
    requires t != [] && t[0] == 0x7b && FindClose(t[1..]) == Some(close)
    ensures var whole := Render(params, data, t, utf8);
            var index := ParsedUsize(t[1..1 + close]);
            var rest := Render(params, data, t[close + 2..], utf8);
            && (whole.Ok? <==> index.Ok? && RenderParam(params, data, index.value % 0x100, utf8).Ok? && rest.Ok?)
            && (whole.Ok? ==> whole.value == RenderParam(params, data, index.value % 0x100, utf8).value + rest.value)
  {
    hide RenderParam, ParsedUsize;
    var index := ParsedUsize(t[1..1 + close]);
    var pieces := Pieces(t[close + 2..]);
    if index.Ok? && pieces.Ok? {
      assert ([Placeholder(index.value)] + pieces.value)[1..] == pieces.value;
    }
  }

  lemma UnclosedTemplate(params: seq<ParamEntry>, data: Bytes, t: Bytes, utf8: Bytes -> bool)
    requires t != [] && t[0] == 0x7b && FindClose(t[1..]) == None
    ensures Render(params, data, t, utf8).Err?
  {}

  lemma EmptyTemplate(params: seq<ParamEntry>, data: Bytes, utf8: Bytes -> bool)
    ensures Render(params, data, [], utf8) == Ok([])
  {}

  /** `template_str`. */
  function Template(def: Definition, utf8: Bytes -> bool): (r: Result<Bytes>)
  {
    match GetSlice(def.pool, def.templateOffset, def.templateOffset as nat + def.templateLen as nat)
    case None => Err(InvalidInstructionData)
    case Some(t) => if utf8(t) then Ok(t) else Err(InvalidInstructionData)
  }

  // ---- Whole messages ----

  function Header(ctx: Context): (r: Bytes)
  {
    Ascii("expires ") + TimestampText.Text(ctx.expiry) + Ascii(": ") + ActionText(ctx.action) + Ascii(" ")
  }

  function Suffix(ctx: Context): (r: Bytes)
  {
    Ascii(" | wallet: ") + ctx.walletName + Ascii(" proposal: ") + DecimalText(ctx.proposalIndex)
  }

  /** The part of a message that says what is proposed. */
  function Content(env: Env, def: Definition, data: Bytes): (r: Result<Bytes>)
  {
    match def.intentType
    case AddIntent => Ok(AddContent(env.sha256(data)))
    case RemoveIntent => if |data| == 1 then Ok(RemoveContent(data[0])) else Err(InvalidInstructionData)
    case UpdateIntent =>
      if |data| > 1 then Ok(UpdateContent(data[0], env.sha256(data[1..]))) else Err(InvalidInstructionData)
    case Custom => CustomContent(def, data, env.utf8)
  }

  function CustomContent(def: Definition, data: Bytes, utf8: Bytes -> bool): (r: Result<Bytes>)
  {
    var t :- Template(def, utf8);
    Render(def.params, data, t, utf8)
  }

  function AddContent(hash: Digest): (r: Bytes)
  {
    Ascii("add intent definition_hash: ") + HexText(hash)
  }

  function RemoveContent(target: byte): (r: Bytes)
  {
    Ascii("remove intent ") + DecimalText(target)
  }

  function UpdateContent(target: byte, hash: Digest): (r: Bytes)
  {
    Ascii("update intent ") + DecimalText(target) + Ascii(" definition_hash: ") + HexText(hash)
  }

  function BodyOf(ctx: Context, content: Bytes): (r: Bytes)
  {
    Header(ctx) + content + Suffix(ctx)
  }

  function Body(env: Env, ctx: Context, def: Definition, data: Bytes): (r: Result<Bytes>)
  {
    var content :- Content(env, def, data);
    Ok(BodyOf(ctx, content))
  }

  const MSG_BUF_SIZE: nat := 2048
  const HEADER_LEN: nat := 20

  /** The off-chain message header: signing domain, version 0, format 0, body length as two bytes. */
  function Wrapped(body: Bytes): (r: Bytes)
    ensures |r| == HEADER_LEN + |body|
  {
    [0xff] + Ascii("solana offchain") + [0, 0] + [|body| % 0x100, |body| / 0x100 % 0x100] + body
  }

  /** Rendering meets a slice that aborts before it meets any other error or runs out of `room`. */
  predicate TemplatePanics(params: seq<ParamEntry>, data: Bytes, t: Bytes, utf8: Bytes -> bool, room: nat)
    decreases |t|
  {
    if t == [] then false
    else if t[0] == 0x7b then
      match FindClose(t[1..])
      case None => false
      case Some(close) =>
        match ParsedUsize(t[1..1 + close])
        case Err(_) => false
        case Ok(index) =>
          match RenderParam(params, data, index % 0x100, utf8)
          case Err(e) => e == Panic
          case Ok(text) => |text| <= room && TemplatePanics(params, data, t[close + 2..], utf8, room - |text|)
    else room > 0 && TemplatePanics(params, data, t[1..], utf8, room - 1)
  }

  lemma PanicsAtLiteral(params: seq<ParamEntry>, data: Bytes, t: Bytes, utf8: Bytes -> bool, room: nat)
    requires t != [] && t[0] != 0x7b
    ensures TemplatePanics(params, data, t, utf8, room)
            <==> room > 0 && TemplatePanics(params, data, t[1..], utf8, room - 1)
  {}

  lemma PanicsAtPlaceholder(params: seq<ParamEntry>, data: Bytes, t: Bytes, close: nat, utf8: Bytes -> bool, room: nat)
    requires t != [] && t[0] == 0x7b && FindClose(t[1..]) == Some(close)
    ensures var index := ParsedUsize(t[1..1 + close]);
            TemplatePanics(params, data, t, utf8, room) <==>
            && index.Ok?
            && var text := RenderParam(params, data, index.value % 0x100, utf8);
            if text.Err? then text.error == Panic
            else |text.value| <= room && TemplatePanics(params, data, t[close + 2..], utf8, room - |text.value|)
  {}

  lemma PanicsNowhere(params: seq<ParamEntry>, data: Bytes, t: Bytes, utf8: Bytes -> bool, room: nat)
    requires t == [] || (t[0] == 0x7b && FindClose(t[1..]) == None)
    ensures !TemplatePanics(params, data, t, utf8, room)
  {}

  /** A parameter renders, aborts, or is refused with one code. */
  lemma RenderErrors(params: seq<ParamEntry>, data: Bytes, index: byte, utf8: Bytes -> bool)
    requires RenderParam(params, data, index, utf8).Err?
    ensures RenderParam(params, data, index, utf8).error == Panic
            || RenderParam(params, data, index, utf8).error == InvalidInstructionData
  {
    hide ParamText;
    if index < |params| && ParamStart(params, data, index).Err? {
      StartErrors(params, data, index);
    }
  }

  lemma {:induction false} StartErrors(params: seq<ParamEntry>, data: Bytes, target: nat)
    requires ParamStart(params, data, target).Err?
    ensures ParamStart(params, data, target).error == InvalidInstructionData
  {
    if target > 0 && ParamStart(params, data, target - 1).Err? {
      StartErrors(params, data, target - 1);
    }
  }

  /** The error of a message that cannot be built into `room` bytes. */
  function BuildError(ctx: Context, def: Definition, data: Bytes, utf8: Bytes -> bool, room: nat): (e: ProgramError)
  {
    var t := Template(def, utf8);
    if def.intentType == Custom && |Header(ctx)| <= room && t.Ok?
       && TemplatePanics(def.params, data, t.value, utf8, room - |Header(ctx)|) then Panic
    else InvalidInstructionData
  }

  /** The bytes a signer signs. */
  function Message(env: Env, ctx: Context, def: Definition, data: Bytes): (r: Result<Bytes>)
  {
    var body :- Body(env, ctx, def, data);
    if HEADER_LEN + |body| <= MSG_BUF_SIZE then Ok(Wrapped(body)) else Err(InvalidInstructionData)
  }

  /** What building a message returns, with the error it reports. */
  function Built(env: Env, ctx: Context, def: Definition, data: Bytes): (r: Result<Bytes>)
  {
    match Message(env, ctx, def, data)
    case Ok(m) => Ok(m)
    case Err(_) => Err(BuildError(ctx, def, data, env.utf8, MSG_BUF_SIZE - HEADER_LEN))
  }
}
