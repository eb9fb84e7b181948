/** The signed bytes written out, place by place, and the templates they are rendered from. */
module MessageLayout {
  import opened Bytes
  import opened Decimal
  import opened Definition
  import opened MessageText
  import opened Params
  import TimestampText

  // ---- Numbers ----

  /** Hex text has two digits for every byte, high half first, in lower case. */
  lemma {:induction false} HexDigits(s: Bytes, i: nat)
    requires i < |s|
    ensures |HexText(s)| == 2 * |s|
    ensures HexText(s)[2 * i] == Ascii("0123456789abcdef")[s[i] / 16]
    ensures HexText(s)[2 * i + 1] == Ascii("0123456789abcdef")[s[i] % 16]
  {
    DigitTable(s[0] / 16);
    DigitTable(s[0] % 16);
    var head := [HexDigit(s[0] / 16), HexDigit(s[0] % 16)];
    assert HexText(s) == head + HexText(s[1..]);
    hide HexDigit, Ascii;
    if i > 0 {
      HexDigits(s[1..], i - 1);
      assert HexText(s)[2 * i] == HexText(s[1..])[2 * (i - 1)];
      assert HexText(s)[2 * i + 1] == HexText(s[1..])[2 * (i - 1) + 1];
    } else if |s| > 1 {
      HexDigits(s[1..], 0);
    }
  }

  lemma DigitTable(n: nat)
    requires n < 16
    ensures HexDigit(n) == Ascii("0123456789abcdef")[n]
  {}

  /** Eight bytes as a signed number: from 2 to the 63 on, 2 to the 64 is taken off. */
  lemma SignedReading(n: u64)
    ensures AsI64(n) == if n < 0x8000_0000_0000_0000 then n else n - 0x1_0000_0000_0000_0000
  {}

  // ---- One parameter ----

  /** A parameter renders exactly when its bytes are there and, of a text, valid; what is shown is the text of them. */
  lemma RenderIff(params: seq<ParamEntry>, data: Bytes, i: byte, utf8: Bytes -> bool, text: Bytes)
    ensures RenderParam(params, data, i, utf8) == Ok(text) <==>
            && i < |params| && ParamBytes(params, data, i).Ok?
            && var (s, paramType) := (ParamBytes(params, data, i).value, params[i].paramType);
            && (paramType == StringParam ==> s != [] && utf8(s[1..])) && text == ParamText(paramType, s)
  {
    hide ParamText;
  }

  /** The renderer aborts when the bytes of any parameter but a bool or a u8 are missing; else it refuses. */
  lemma RenderRefusal(params: seq<ParamEntry>, data: Bytes, i: byte, utf8: Bytes -> bool)
    requires RenderParam(params, data, i, utf8).Err?
    ensures var missing := i < |params| && ParamStart(params, data, i).Ok? && ParamBytes(params, data, i).Err?;
            RenderParam(params, data, i, utf8)
            == Err(if missing && params[i].paramType != BoolParam && params[i].paramType != U8Param then Panic
                   else InvalidInstructionData)
  {
    hide ParamText;
    if i < |params| && ParamStart(params, data, i).Err? {
      StartErrors(params, data, i);
    }
  }

  // ---- The whole text ----

  /** What stands between the expiry and the content. */
  function ActionWord(action: Action): (r: Bytes)
  {
    match action
    case Propose => Ascii(": propose ")
    case Approve => Ascii(": approve ")
    case Cancel => Ascii(": cancel ")
  }

  lemma ActionWords(action: Action)
    ensures ActionWord(action) == Ascii(": ") + ActionText(action) + Ascii(" ")
  {}

  /** The text of a message: `expires <ts>: <action> <content> | wallet: <name> proposal: <index>`. */
  lemma BodyIs(ctx: Context, content: Bytes)
    ensures BodyOf(ctx, content)
            == Ascii("expires ") + TimestampText.Text(ctx.expiry) + ActionWord(ctx.action) + content
               + Ascii(" | wallet: ") + ctx.walletName + Ascii(" proposal: ") + DecimalText(ctx.proposalIndex)
  {
    ActionWords(ctx.action);
    hide Ascii, TimestampText.Text, DecimalText, ActionText, ActionWord;
  }

  /** The content of a meta-intent's message, for each of the three. */
  lemma ContentIs(env: Env, def: Definition, data: Bytes)
    ensures def.intentType == AddIntent ==>
              Content(env, def, data) == Ok(Ascii("add intent definition_hash: ") + HexText(env.sha256(data)))
    ensures def.intentType == RemoveIntent ==>
              && (Content(env, def, data).Ok? <==> |data| == 1)
              && (|data| == 1 ==> Content(env, def, data) == Ok(Ascii("remove intent ") + DecimalText(data[0])))
    ensures def.intentType == UpdateIntent ==>
              && (Content(env, def, data).Ok? <==> |data| > 1)
              && (|data| > 1 ==>
                    Content(env, def, data)
                    == Ok(Ascii("update intent ") + DecimalText(data[0]) + Ascii(" definition_hash: ")
                          + HexText(env.sha256(data[1..]))))
  {
    hide Ascii, DecimalText, HexText;
  }

  /**
   A message can be signed if and only if its content can be rendered and the whole, with its 20 bytes of header, has at
   most 2048 bytes; it is then the header, with the length of the text, and the text.
   */
  lemma MessageIff(env: Env, ctx: Context, def: Definition, data: Bytes)
    ensures Message(env, ctx, def, data).Ok? <==>
            && Content(env, def, data).Ok?
            && 20 + |BodyOf(ctx, Content(env, def, data).value)| <= 2048
    ensures Message(env, ctx, def, data).Ok? ==>
              var (m, body) := (Message(env, ctx, def, data).value, BodyOf(ctx, Content(env, def, data).value));
              && |m| == 20 + |body| && m[20..] == body
              && m[0] == 0xff && m[1..16] == Ascii("solana offchain") && m[16] == 0 && m[17] == 0
              && m[18] as int + 256 * m[19] as int == |body|
  {
    hide Content, BodyOf;
    if Message(env, ctx, def, data).Ok? {
      WrappedIs(BodyOf(ctx, Content(env, def, data).value));
    }
  }

  lemma WrappedIs(body: Bytes)
    requires |body| < 0x1_0000
    ensures var m := Wrapped(body);
            && m[20..] == body && m[0] == 0xff && m[1..16] == Ascii("solana offchain") && m[16] == 0 && m[17] == 0
            && m[18] as int + 256 * m[19] as int == |body|
  {
    var m := Wrapped(body);
    assert m[18] == |body| % 0x100 && m[19] == |body| / 0x100 % 0x100;
  }

  // ---- Templates ----

  /** The text of a piece in a template: a byte other than `{`, or a number in braces. */
  predicate Spells(text: Bytes, piece: Piece)
  {
    match piece
    case Literal(b) => text == [b] && b != 0x7b
    case Placeholder(index) =>
      && |text| >= 2 && text[0] == 0x7b && text[|text| - 1] == 0x7d
      && (forall i :: 1 <= i < |text| - 1 ==> text[i] != 0x7d)
      && ReadDigits(text[1..|text| - 1]) == Some(index)
  }

  function Joined(texts: seq<Bytes>): (r: Bytes)
  {
    if texts == [] then [] else texts[0] + Joined(texts[1..])
  }

  predicate SpellAll(texts: seq<Bytes>, pieces: seq<Piece>)
  {
    |texts| == |pieces| && forall k :: 0 <= k < |texts| ==> Spells(texts[k], pieces[k])
  }

  lemma {:induction false} CloseIs(t: Bytes)
    ensures FindClose(t) == None ==> forall i :: 0 <= i < |t| ==> t[i] != 0x7d
    ensures FindClose(t).Some? ==> forall i :: 0 <= i < FindClose(t).value ==> t[i] != 0x7d
  {
    if t != [] && t[0] != 0x7d {
      CloseIs(t[1..]);
      assert forall i :: 1 <= i < |t| ==> t[i] == t[1..][i - 1];
    }
  }

  lemma {:induction false} CloseFound(t: Bytes, n: nat)
    requires n < |t| && t[n] == 0x7d && forall i :: 0 <= i < n ==> t[i] != 0x7d
    ensures FindClose(t) == Some(n)
  {
    if n > 0 {
      CloseFound(t[1..], n - 1);
    }
  }

  /** What the template reader makes of a template spells it. */
  lemma {:induction false} PiecesSpell(t: Bytes) returns (texts: seq<Bytes>)
    requires Pieces(t).Ok?
    ensures SpellAll(texts, Pieces(t).value) && Joined(texts) == t
    decreases |t|
  {
    hide ReadDigits, Spells, ParsedUsize;
    if t == [] {
      texts := [];
    } else if t[0] == 0x7b {
      var close := FindClose(t[1..]).value;
      var rest := PiecesSpell(t[close + 2..]);
      BraceSpells(t, close);
      texts := [t[..close + 2]] + rest;
      SpelledMore(t[..close + 2], rest, Pieces(t).value, Pieces(t[close + 2..]).value);
      assert t[..close + 2] + t[close + 2..] == t;
    } else {
      var rest := PiecesSpell(t[1..]);
      LiteralSpells(t[0]);
      texts := [[t[0]]] + rest;
      SpelledMore([t[0]], rest, Pieces(t).value, Pieces(t[1..]).value);
      assert [t[0]] + t[1..] == t;
    }
  }

  lemma LiteralSpells(b: byte)
    requires b != 0x7b
    ensures Spells([b], Literal(b))
  {}

  lemma BraceSpells(t: Bytes, close: nat)
    requires t != [] && t[0] == 0x7b && FindClose(t[1..]) == Some(close) && ParsedUsize(t[1..1 + close]).Ok?
    ensures close + 2 <= |t| && Spells(t[..close + 2], Placeholder(ParsedUsize(t[1..1 + close]).value))
  {
    hide ReadDigits;
    CloseIs(t[1..]);
    var text := t[..close + 2];
    assert text[1..|text| - 1] == t[1..1 + close] && text[|text| - 1] == t[1..][close];
    assert forall i :: 1 <= i < |text| - 1 ==> text[i] == t[1..][i - 1];
  }

  lemma SpelledMore(text: Bytes, rest: seq<Bytes>, pieces: seq<Piece>, others: seq<Piece>)
    requires pieces != [] && pieces == [pieces[0]] + others && Spells(text, pieces[0]) && SpellAll(rest, others)
    ensures SpellAll([text] + rest, pieces) && Joined([text] + rest) == text + Joined(rest)
  {
    hide Spells;
    assert ([text] + rest)[1..] == rest;
  }

  /** And it makes of a template whatever spells it: there is one reading only. */
  lemma {:induction false} SpelledIsRead(texts: seq<Bytes>, pieces: seq<Piece>)
    requires SpellAll(texts, pieces)
    ensures Pieces(Joined(texts)) == Ok(pieces)
    decreases |texts|
  {
    hide Spells, Pieces;
    if texts == [] {
      NoPieces();
    } else {
      SpelledIsRead(texts[1..], pieces[1..]);
      assert Spells(texts[0], pieces[0]);
      FirstIsRead(texts[0], Joined(texts[1..]), pieces[0]);
      assert pieces == [pieces[0]] + pieces[1..];
    }
  }

  lemma NoPieces()
    ensures Pieces([]) == Ok([])
  {}

  /** A piece's text in front of a template that can be read. */
  lemma FirstIsRead(text: Bytes, rest: Bytes, piece: Piece)
    requires Spells(text, piece) && Pieces(rest).Ok?
    ensures Pieces(text + rest) == Ok([piece] + Pieces(rest).value)
  {
    hide ReadDigits;
    var t := text + rest;
    match piece {
      case Literal(b) =>
        assert t[1..] == rest;
      case Placeholder(index) =>
        var close := |text| - 2;
        assert t[1..][close] == text[|text| - 1];
        assert forall i :: 0 <= i < close ==> t[1..][i] == text[i + 1];
        CloseFound(t[1..], close);
        assert t[1..1 + close] == text[1..|text| - 1] && t[close + 2..] == rest;
    }
  }

  /** The template is the part of the pool that the definition names, if it is there and valid text. */
  lemma TemplateIs(def: Definition, utf8: Bytes -> bool, t: Bytes)
    ensures Template(def, utf8) == Ok(t) <==>
            && def.templateOffset as int + def.templateLen as int <= |def.pool|
            && t == def.pool[def.templateOffset..def.templateOffset as int + def.templateLen as int]
            && utf8(t)
  {}

  /** A custom message renders exactly the pieces that spell the definition's template, piece after piece. */
  lemma CustomContentIff(env: Env, def: Definition, data: Bytes, texts: seq<Bytes>, pieces: seq<Piece>)
    requires def.intentType == Custom && SpellAll(texts, pieces) && Template(def, env.utf8) == Ok(Joined(texts))
    ensures Content(env, def, data).Ok?
            <==> forall k :: 0 <= k < |pieces| ==> PieceText(def.params, data, pieces[k], env.utf8).Ok?
    ensures Content(env, def, data).Ok? ==>
              Content(env, def, data).value
              == Joined(seq(|pieces|, k requires 0 <= k < |pieces| =>
                                        Shown(PieceText(def.params, data, pieces[k], env.utf8))))
  {
    hide PieceText, SpellAll, Template;
    SpelledIsRead(texts, pieces);
    SubstitutedIff(def.params, data, pieces, env.utf8);
  }

  function Shown(r: Result<Bytes>): (s: Bytes)
  {
    if r.Ok? then r.value else []
  }

  lemma {:induction false} SubstitutedIff(params: seq<ParamEntry>, data: Bytes, pieces: seq<Piece>,
                                          utf8: Bytes -> bool)
    ensures Substituted(params, data, pieces, utf8).Ok?
            <==> forall k :: 0 <= k < |pieces| ==> PieceText(params, data, pieces[k], utf8).Ok?
    ensures Substituted(params, data, pieces, utf8).Ok? ==>
              Substituted(params, data, pieces, utf8).value
              == Joined(seq(|pieces|, k requires 0 <= k < |pieces| =>
                                        Shown(PieceText(params, data, pieces[k], utf8))))
    decreases |pieces|
  {
    hide PieceText;
    if pieces != [] {
      SubstitutedIff(params, data, pieces[1..], utf8);
      var texts := seq(|pieces|, k requires 0 <= k < |pieces| => Shown(PieceText(params, data, pieces[k], utf8)));
      var others := seq(|pieces| - 1, k requires 0 <= k < |pieces| - 1 =>
                                        Shown(PieceText(params, data, pieces[1..][k], utf8)));
      assert texts[1..] == others;
      assert forall k :: 1 <= k < |pieces| ==> pieces[k] == pieces[1..][k - 1];
    }
  }

  // ---- When rendering aborts ----

  /**
   The template begins with texts that spell `pieces`; all but the last have texts that fit the room together, and the
   last one aborts. What comes after does not matter.
   */
  predicate AbortsAt(params: seq<ParamEntry>, data: Bytes, utf8: Bytes -> bool, room: nat, t: Bytes, texts: seq<Bytes>,
                     pieces: seq<Piece>, tail: Bytes)
  {
    && SpellAll(texts, pieces) && pieces != [] && t == Joined(texts) + tail
    && var before := Substituted(params, data, pieces[..|pieces| - 1], utf8);
    && before.Ok? && |before.value| <= room
    && PieceText(params, data, pieces[|pieces| - 1], utf8) == Err(Panic)
  }

  lemma {:induction false} PanicsSomewhere(params: seq<ParamEntry>, data: Bytes, utf8: Bytes -> bool, room: nat,
                                           t: Bytes)
    returns (texts: seq<Bytes>, pieces: seq<Piece>, tail: Bytes)
    requires TemplatePanics(params, data, t, utf8, room)
    ensures AbortsAt(params, data, utf8, room, t, texts, pieces, tail)
    decreases |t|
  {
    hide RenderParam, ParsedUsize, Spells, AbortsAt;
    if t[0] == 0x7b {
      var close := FindClose(t[1..]).value;
      var index := ParsedUsize(t[1..1 + close]).value;
      BraceSpells(t, close);
      var text := RenderParam(params, data, index % 0x100, utf8);
      if text.Err? {
        texts, pieces, tail := [t[..close + 2]], [Placeholder(index)], t[close + 2..];
        AbortsHere(params, data, utf8, room, t, t[..close + 2], Placeholder(index), tail);
      } else {
        texts, pieces, tail := PanicsSomewhere(params, data, utf8, room - |text.value|, t[close + 2..]);
        AbortsLater(params, data, utf8, room, t[..close + 2], Placeholder(index), t[close + 2..], texts, pieces, tail);
        assert t[..close + 2] + t[close + 2..] == t;
        texts, pieces := [t[..close + 2]] + texts, [Placeholder(index)] + pieces;
      }
    } else {
      LiteralSpells(t[0]);
      texts, pieces, tail := PanicsSomewhere(params, data, utf8, room - 1, t[1..]);
      AbortsLater(params, data, utf8, room, [t[0]], Literal(t[0]), t[1..], texts, pieces, tail);
      assert [t[0]] + t[1..] == t;
      texts, pieces := [[t[0]]] + texts, [Literal(t[0])] + pieces;
    }
  }

  lemma AbortsHere(params: seq<ParamEntry>, data: Bytes, utf8: Bytes -> bool, room: nat, t: Bytes, text: Bytes,
                   piece: Piece, tail: Bytes)
    requires Spells(text, piece) && t == text + tail && PieceText(params, data, piece, utf8) == Err(Panic)
    ensures AbortsAt(params, data, utf8, room, t, [text], [piece], tail)
  {
    hide Spells, PieceText;
    assert [piece][..0] == [] && Joined([text]) == text + Joined([text][1..]) && [text][1..] == [];
    assert text + [] == text;
    assert Substituted(params, data, [], utf8) == Ok([]);
  }

  lemma AbortsLater(params: seq<ParamEntry>, data: Bytes, utf8: Bytes -> bool, room: nat, text: Bytes, piece: Piece,
                    rest: Bytes, texts: seq<Bytes>, pieces: seq<Piece>, tail: Bytes)
    requires Spells(text, piece) && PieceText(params, data, piece, utf8).Ok?
    requires |PieceText(params, data, piece, utf8).value| <= room
    requires AbortsAt(params, data, utf8, room - |PieceText(params, data, piece, utf8).value|, rest, texts, pieces,
                      tail)
    ensures AbortsAt(params, data, utf8, room, text + rest, [text] + texts, [piece] + pieces, tail)
  {
    hide Spells, PieceText;
    var (all, more) := ([piece] + pieces, [text] + texts);
    assert more[1..] == texts && Joined(more) == text + Joined(texts);
    assert text + rest == Joined(more) + tail;
    assert all[..|all| - 1] == [piece] + pieces[..|pieces| - 1];
    assert all[..|all| - 1][1..] == pieces[..|pieces| - 1];
    assert all[|all| - 1] == pieces[|pieces| - 1];
  }

  lemma {:induction false} AbortsPanics(params: seq<ParamEntry>, data: Bytes, utf8: Bytes -> bool, room: nat, t: Bytes,
                                        texts: seq<Bytes>, pieces: seq<Piece>, tail: Bytes)
    requires AbortsAt(params, data, utf8, room, t, texts, pieces, tail)
    ensures TemplatePanics(params, data, t, utf8, room)
    decreases |texts|
  {
    hide Spells, PieceText, TemplatePanics;
    var (text, piece, rest) := (texts[0], pieces[0], Joined(texts[1..]) + tail);
    assert t == text + rest && Spells(text, piece);
    if |pieces| > 1 {
      assert pieces[..|pieces| - 1][0] == piece;
      assert pieces[..|pieces| - 1][1..] == pieces[1..][..|pieces| - 2];
      AbortsPanics(params, data, utf8, room - |PieceText(params, data, piece, utf8).value|, rest, texts[1..],
                   pieces[1..], tail);
    }
    FirstPanics(params, data, utf8, room, text, piece, rest);
  }

  /** What the first piece of a template means for whether the rest aborts. */
  lemma FirstPanics(params: seq<ParamEntry>, data: Bytes, utf8: Bytes -> bool, room: nat, text: Bytes, piece: Piece,
                    rest: Bytes)
    requires Spells(text, piece)
    ensures var shown := PieceText(params, data, piece, utf8);
            TemplatePanics(params, data, text + rest, utf8, room)
            <==> if shown.Err? then shown.error == Panic
                 else |shown.value| <= room && TemplatePanics(params, data, rest, utf8, room - |shown.value|)
  {
    hide RenderParam, ReadDigits;
    var t := text + rest;
    match piece {
      case Literal(b) =>
        assert t[1..] == rest;
      case Placeholder(index) =>
        var close := |text| - 2;
        assert t[1..][close] == text[|text| - 1];
        assert forall i :: 0 <= i < close ==> t[1..][i] == text[i + 1];
        CloseFound(t[1..], close);
        assert t[1..1 + close] == text[1..|text| - 1] && t[close + 2..] == rest;
    }
  }
}
