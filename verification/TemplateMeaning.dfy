/** When the text of a custom message determines the parameters it was rendered from. */
module TemplateMeaning {
  import opened Bytes
  import opened Decimal
  import opened Definition
  import opened MessageText
  import opened MessageMeaning
  import opened Params
  import Agreement
  import Base58

  /** The bytes that texts of a parameter type are made of. */
  predicate InAlphabet(paramType: ParamType, b: byte)
  {
    match paramType
    case AddressParam => Base58.LetterValue(b).Some?
    case StringParam => true
    case BoolParam => 0x61 <= b <= 0x7a
    case I64Param => DigitValue(b).Some? || b == 0x2d
    case _ => DigitValue(b).Some?
  }

  predicate OfAlphabet(paramType: ParamType, s: Bytes)
  {
    forall i :: 0 <= i < |s| ==> InAlphabet(paramType, s[i])
  }

  /**
   A condition one can check on a template: every placeholder is the last piece or is followed by a literal byte that
   no text of its type contains.
   */
  predicate Separated(params: seq<ParamEntry>, pieces: seq<Piece>)
  {
    forall k :: 0 <= k < |pieces| - 1 && pieces[k].Placeholder? && pieces[k].index % 0x100 < |params| ==>
      && pieces[k + 1].Literal?
      && !InAlphabet(params[pieces[k].index % 0x100].paramType, pieces[k + 1].b)
  }

  lemma OfAlphabetConcat(paramType: ParamType, s: Bytes, t: Bytes)
    requires OfAlphabet(paramType, s) && OfAlphabet(paramType, t)
    ensures OfAlphabet(paramType, s + t)
  {
    hide InAlphabet;
  }

  lemma {:induction false} LettersOfAlphabet(digits: seq<Base58.digit>)
    ensures OfAlphabet(AddressParam, Base58.Letters(digits))
  {
    if digits != [] {
      LettersOfAlphabet(digits[1..]);
      Base58.AlphabetRead(digits[0]);
      OfAlphabetConcat(AddressParam, Base58.Letters(digits[1..]), [Base58.ALPHABET[digits[0]]]);
    }
  }

  lemma NumberOfAlphabet(n: nat)
    ensures AllDigits(DecimalText(n))
  {
    DecimalRoundTrip(n);
    hide DecimalText, ReadDigits;
  }

  lemma BooleansOfAlphabet()
    ensures OfAlphabet(BoolParam, Ascii("true")) && OfAlphabet(BoolParam, Ascii("false"))
  {}

  /** The text of a parameter is of its type's alphabet. */
  lemma TextOfAlphabet(paramType: ParamType, s: Bytes)
    ensures OfAlphabet(paramType, ParamText(paramType, s))
  {
    match paramType {
      case AddressParam =>
        LettersOfAlphabet(Base58.Digits(s[Base58.LeadingZeros(s)..]));
        hide Base58.Letters, Base58.Digits;
        OfAlphabetConcat(AddressParam, Base58.Ones(Base58.LeadingZeros(s)),
                         Base58.Letters(Base58.Digits(s[Base58.LeadingZeros(s)..])));
      case StringParam =>
      case BoolParam => BooleansOfAlphabet();
      case I64Param => SignedOfAlphabet(AsI64(FromLE(s)));
      case _ => NumberOfAlphabet(FromLE(s));
    }
  }

  lemma SignedOfAlphabet(val: i64)
    ensures OfAlphabet(I64Param, SignedText(val))
  {
    hide DecimalText, Magnitude;
    if val < 0 {
      NumberOfAlphabet(Magnitude(val));
      OfAlphabetConcat(I64Param, [0x2d], DecimalText(Magnitude(val)));
    } else {
      NumberOfAlphabet(val);
    }
  }

  lemma NotShorter(paramType: ParamType, t1: Bytes, t2: Bytes, r1: Bytes, r2: Bytes)
    requires OfAlphabet(paramType, t2) && t1 + r1 == t2 + r2
    requires (r1 == [] && r2 == []) || (r1 != [] && !InAlphabet(paramType, r1[0]))
    ensures |t1| >= |t2|
  {
    hide InAlphabet;
    var s := t1 + r1;
    assert r1 != [] ==> s[|t1|] == r1[0];
    assert forall i :: 0 <= i < |t2| ==> InAlphabet(paramType, s[i]);
  }

  /** Two texts of one alphabet, each followed by a byte outside it, are told apart from what follows. */
  lemma SameRun(paramType: ParamType, t1: Bytes, t2: Bytes, r1: Bytes, r2: Bytes)
    requires OfAlphabet(paramType, t1) && OfAlphabet(paramType, t2) && t1 + r1 == t2 + r2
    requires (r1 == [] && r2 == [])
             || (r1 != [] && r2 != [] && !InAlphabet(paramType, r1[0]) && !InAlphabet(paramType, r2[0]))
    ensures t1 == t2 && r1 == r2
  {
    hide InAlphabet;
    NotShorter(paramType, t1, t2, r1, r2);
    NotShorter(paramType, t2, t1, r2, r1);
    ConcatCancel(t1, t2, r1, r2);
  }

  /** Every placeholder shows the same text for both data. */
  predicate SameTexts(params: seq<ParamEntry>, d1: Bytes, d2: Bytes, pieces: seq<Piece>, utf8: Bytes -> bool)
  {
    forall k :: 0 <= k < |pieces| ==> PieceText(params, d1, pieces[k], utf8) == PieceText(params, d2, pieces[k], utf8)
  }

  lemma PieceOfAlphabet(params: seq<ParamEntry>, data: Bytes, piece: Piece, utf8: Bytes -> bool)
    requires piece.Placeholder? && PieceText(params, data, piece, utf8).Ok?
    ensures piece.index % 0x100 < |params|
    ensures OfAlphabet(params[piece.index % 0x100].paramType, PieceText(params, data, piece, utf8).value)
  {
    hide ParamText, ParamStart, InAlphabet;
    var i := piece.index % 0x100;
    var start := ParamStart(params, data, i).value;
    var size := ParamByteSize(params[i].paramType, data, start).value;
    TextOfAlphabet(params[i].paramType, data[start..start + size]);
  }

  /** A separated template renders two data alike only if every placeholder shows the same text. */
  lemma {:induction false} SeparatedDetermines(params: seq<ParamEntry>, d1: Bytes, d2: Bytes, pieces: seq<Piece>,
                                               utf8: Bytes -> bool)
    requires Separated(params, pieces)
    requires Substituted(params, d1, pieces, utf8).Ok?
    requires Substituted(params, d1, pieces, utf8) == Substituted(params, d2, pieces, utf8)
    ensures SameTexts(params, d1, d2, pieces, utf8)
  {
    if pieces != [] {
      hide PieceText, InAlphabet;
      var (t1, t2) := (PieceText(params, d1, pieces[0], utf8).value, PieceText(params, d2, pieces[0], utf8).value);
      var (r1, r2) := (Substituted(params, d1, pieces[1..], utf8).value,
                       Substituted(params, d2, pieces[1..], utf8).value);
      SeparatedTail(params, pieces);
      if pieces[0].Placeholder? {
        PieceOfAlphabet(params, d1, pieces[0], utf8);
        PieceOfAlphabet(params, d2, pieces[0], utf8);
        if |pieces| > 1 {
          assert pieces[1..][0] == pieces[1] && pieces[0 + 1].Literal?;
          StartsWith(params, d1, pieces[1..], utf8);
          StartsWith(params, d2, pieces[1..], utf8);
        }
        SameRun(params[pieces[0].index % 0x100].paramType, t1, t2, r1, r2);
      } else {
        LiteralText(params, d1, pieces[0], utf8);
        LiteralText(params, d2, pieces[0], utf8);
        ConcatCancel(t1, t2, r1, r2);
      }
      SeparatedDetermines(params, d1, d2, pieces[1..], utf8);
      TextsOf(params, d1, d2, pieces, utf8);
    }
  }

  lemma SeparatedTail(params: seq<ParamEntry>, pieces: seq<Piece>)
    requires pieces != [] && Separated(params, pieces)
    ensures Separated(params, pieces[1..])
  {
    hide InAlphabet;
    var rest := pieces[1..];
    forall k | 0 <= k < |rest| - 1 && rest[k].Placeholder? && rest[k].index % 0x100 < |params|
      ensures rest[k + 1].Literal? && !InAlphabet(params[rest[k].index % 0x100].paramType, rest[k + 1].b)
    {
      assert pieces[k + 1] == rest[k] && pieces[k + 1 + 1] == rest[k + 1];
    }
  }

  lemma StartsWith(params: seq<ParamEntry>, data: Bytes, pieces: seq<Piece>, utf8: Bytes -> bool)
    requires pieces != [] && pieces[0].Literal? && Substituted(params, data, pieces, utf8).Ok?
    ensures Substituted(params, data, pieces, utf8).value != []
    ensures Substituted(params, data, pieces, utf8).value[0] == pieces[0].b
  {
    hide RenderParam;
  }

  lemma LiteralText(params: seq<ParamEntry>, data: Bytes, piece: Piece, utf8: Bytes -> bool)
    requires piece.Literal?
    ensures PieceText(params, data, piece, utf8) == Ok([piece.b])
  {}

  lemma TextsOf(params: seq<ParamEntry>, d1: Bytes, d2: Bytes, pieces: seq<Piece>, utf8: Bytes -> bool)
    requires pieces != [] && SameTexts(params, d1, d2, pieces[1..], utf8)
    requires PieceText(params, d1, pieces[0], utf8) == PieceText(params, d2, pieces[0], utf8)
    ensures SameTexts(params, d1, d2, pieces, utf8)
  {
    hide PieceText;
    forall k | 0 <= k < |pieces|
      ensures PieceText(params, d1, pieces[k], utf8) == PieceText(params, d2, pieces[k], utf8)
    {
      if k > 0 {
        assert pieces[k] == pieces[1..][k - 1];
      }
    }
  }

  // ---- From texts to parameters ----

  /** After validation the raw bytes of a parameter are sized as its type says. */
  lemma ValidatedSized(params: seq<ParamEntry>, data: Bytes, utf8: Bytes -> bool, i: byte)
    requires Validated(params, data, utf8).Ok? && i < |params|
    ensures ParamBytes(params, data, i).Ok? && WellSized(params[i].paramType, ParamBytes(params, data, i).value)
    ensures params[i].paramType != StringParam ==>
              && Agreement.MatchingEncoding(params[i].paramType).Some?
              && |ParamBytes(params, data, i).value|
                 == EncodingSize(Agreement.MatchingEncoding(params[i].paramType).value)
  {
    SliceOf(params, data, utf8, i);
    hide Validated, ParamStart;
  }

  /** Two validated data that show the same text for a non-boolean parameter have the same bytes for it. */
  lemma SameTextSameParam(params: seq<ParamEntry>, d1: Bytes, d2: Bytes, utf8: Bytes -> bool, i: byte)
    requires Validated(params, d1, utf8).Ok? && Validated(params, d2, utf8).Ok?
    requires i < |params| && params[i].paramType != BoolParam
    requires RenderParam(params, d1, i, utf8) == RenderParam(params, d2, i, utf8)
    ensures ParamBytes(params, d1, i).Ok? && ParamBytes(params, d1, i) == ParamBytes(params, d2, i)
  {
    ValidatedRenders(params, d1, utf8, i);
    ValidatedRenders(params, d2, utf8, i);
    ValidatedSized(params, d1, utf8, i);
    ValidatedSized(params, d2, utf8, i);
    var (s1, s2) := (ParamBytes(params, d1, i).value, ParamBytes(params, d2, i).value);
    hide Validated, ParamBytes, RenderParam;
    if params[i].paramType == StringParam {
      assert |s1| == |s2|;
    }
    hide ParamText;
    DisplayDetermines(params[i].paramType, s1, s2);
  }

  /**
   Under a separated template, two signed messages of one custom definition and wallet are equal only if every
   placeholder shows the same text, hence every non-boolean parameter with a placeholder has the same bytes.
   */
  lemma SameMessageSameParams(env: Env, c1: Context, c2: Context, def: Definition, d1: Bytes, d2: Bytes,
                              pieces: seq<Piece>, k: nat)
    requires def.intentType == Custom && c1.walletName == c2.walletName
    requires Validated(def.params, d1, env.utf8).Ok? && Validated(def.params, d2, env.utf8).Ok?
    requires Template(def, env.utf8).Ok? && Pieces(Template(def, env.utf8).value) == Ok(pieces)
    requires Separated(def.params, pieces)
    requires Message(env, c1, def, d1).Ok? && Message(env, c1, def, d1) == Message(env, c2, def, d2)
    requires k < |pieces| && pieces[k].Placeholder?
    ensures pieces[k].index % 0x100 < |def.params|
    ensures PieceText(def.params, d1, pieces[k], env.utf8) == PieceText(def.params, d2, pieces[k], env.utf8)
    ensures def.params[pieces[k].index % 0x100].paramType != BoolParam ==>
              && ParamBytes(def.params, d1, pieces[k].index % 0x100).Ok?
              && ParamBytes(def.params, d1, pieces[k].index % 0x100)
                 == ParamBytes(def.params, d2, pieces[k].index % 0x100)
  {
    MessageDetermines(env, c1, c2, def, def, d1, d2);
    SameContent(env, c1, def, d1, d2);
    ContentIs(env, def, d1, pieces);
    ContentIs(env, def, d2, pieces);
    hide Validated, Template, Pieces, Separated, Message, Content, Substituted, RenderParam, ParamBytes;
    SeparatedDetermines(def.params, d1, d2, pieces, env.utf8);
    ValidatedSubstitutes(def.params, d1, pieces, env.utf8);
    if def.params[pieces[k].index % 0x100].paramType != BoolParam {
      SameTextSameParam(def.params, d1, d2, env.utf8, pieces[k].index % 0x100);
    }
  }

  lemma SameContent(env: Env, ctx: Context, def: Definition, d1: Bytes, d2: Bytes)
    requires Content(env, def, d1).Ok? && Content(env, def, d2).Ok?
    requires Content(env, def, d1).value + (Ascii(" | wallet: ") + ctx.walletName)
             == Content(env, def, d2).value + (Ascii(" | wallet: ") + ctx.walletName)
    ensures Content(env, def, d1) == Content(env, def, d2)
  {
    hide Content, Ascii;
    var name := Ascii(" | wallet: ") + ctx.walletName;
    ConcatCancel(Content(env, def, d1).value, Content(env, def, d2).value, name, name);
  }

  lemma ContentIs(env: Env, def: Definition, data: Bytes, pieces: seq<Piece>)
    requires def.intentType == Custom
    requires Template(def, env.utf8).Ok? && Pieces(Template(def, env.utf8).value) == Ok(pieces)
    ensures Content(env, def, data) == Substituted(def.params, data, pieces, env.utf8)
  {
    hide Template, Pieces, Substituted;
  }

  /** Adjacent placeholders can show two different data alike: 1 and 11, or 11 and 1. */
  lemma AdjacentCollide(utf8: Bytes -> bool)
    ensures var params := [ParamEntry(U8Param, Unconstrained, 0), ParamEntry(U8Param, Unconstrained, 0)];
            var pieces := [Placeholder(0), Placeholder(1)];
            && Validated(params, [1, 11], utf8).Ok? && Validated(params, [11, 1], utf8).Ok?
            && Substituted(params, [1, 11], pieces, utf8).Ok?
            && Substituted(params, [1, 11], pieces, utf8) == Substituted(params, [11, 1], pieces, utf8)
            && ParamBytes(params, [1, 11], 0) != ParamBytes(params, [11, 1], 0)
  {
    hide Validated, Substituted, ParamBytes, DecimalText;
    TwoBytes(1, 11, utf8);
    TwoBytes(11, 1, utf8);
    SmallTexts();
    assert DecimalText(1) + DecimalText(11) == DecimalText(11) + DecimalText(1);
  }

  lemma SmallTexts()
    ensures DecimalText(1) == [0x31] && DecimalText(11) == [0x31, 0x31]
  {}

  lemma TwoBytes(a: byte, b: byte, utf8: Bytes -> bool)
    ensures var params := [ParamEntry(U8Param, Unconstrained, 0), ParamEntry(U8Param, Unconstrained, 0)];
            && Validated(params, [a, b], utf8).Ok?
            && Substituted(params, [a, b], [Placeholder(0), Placeholder(1)],
                           utf8) == Ok(DecimalText(a) + DecimalText(b))
            && ParamBytes(params, [a, b], 0) == Ok([a])
  {
    hide Validated, Substituted, ParamBytes, RenderParam, DecimalText;
    var params := [ParamEntry(U8Param, Unconstrained, 0), ParamEntry(U8Param, Unconstrained, 0)];
    OneByte(params, [a, b], 0, utf8);
    OneByte(params, [a, b], 1, utf8);
    BothReadable(params, [a, b], utf8);
    ValidatedIff(params, [a, b], utf8);
    TwoPlaceholders(params, [a, b], utf8);
  }

  lemma BothReadable(params: seq<ParamEntry>, data: Bytes, utf8: Bytes -> bool)
    requires |params| == 2 && ParamBytes(params, data, 0).Ok? && ParamBytes(params, data, 1).Ok?
    requires forall p <- params :: p.paramType == U8Param && p.constraintType == Unconstrained
    ensures ReadableFrom(params, data, 0, utf8)
  {
    hide ParamBytes;
  }

  lemma TwoPlaceholders(params: seq<ParamEntry>, data: Bytes, utf8: Bytes -> bool)
    requires |params| == 2
    requires RenderParam(params, data, 0, utf8).Ok? && RenderParam(params, data, 1, utf8).Ok?
    ensures Substituted(params, data, [Placeholder(0), Placeholder(1)], utf8)
            == Ok(RenderParam(params, data, 0, utf8).value + RenderParam(params, data, 1, utf8).value)
  {
    hide RenderParam;
    var pieces := [Placeholder(0), Placeholder(1)];
    assert pieces[1..] == [Placeholder(1)] && pieces[1..][1..] == [];
    assert Substituted(params, data, [], utf8) == Ok([]);
    var last := RenderParam(params, data, 1, utf8).value;
    assert Substituted(params, data, pieces[1..], utf8) == Ok(last + []);
    assert last + [] == last;
  }

  lemma OneByte(params: seq<ParamEntry>, data: Bytes, i: byte, utf8: Bytes -> bool)
    requires params == [ParamEntry(U8Param, Unconstrained, 0), ParamEntry(U8Param, Unconstrained, 0)]
    requires |data| == 2 && i < 2
    ensures ParamBytes(params, data, i) == Ok([data[i]])
    ensures RenderParam(params, data, i, utf8) == Ok(DecimalText(data[i]))
  {
    hide DecimalText;
    assert ParamStart(params, data, 0) == Ok(0) && ParamStart(params, data, 1) == Ok(1);
    assert data[i..i + 1] == [data[i]] && FromLE([data[i]]) == data[i] + 0x100 * FromLE([]);
  }
}
