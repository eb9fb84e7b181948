/** From the signed text to the emitted instructions, over whole runs. */
module SignedExecution {
  import opened Bytes
  import opened Agreement
  import opened Definition
  import opened Emission
  import opened Governance
  import opened History
  import opened Invariant
  import opened MessageMeaning
  import opened Params
  import opened Runs
  import opened Steps
  import Interpreter
  import MessageText

  // ---- Constraints survive ----

  /**
   Constraints survive to execution: in every state the parameters of an open custom proposal still meet their schema
   and bounds, so every declared parameter can be read.
   */
  lemma ConstraintsSurvive(run: Run, n: nat, key: Key)
    requires Started(run) && n <= |run.steps| && key in At(run, n).proposals && Open(At(run, n).proposals[key])
    ensures key.intent in At(run, n).intents && |At(run, n).proposals[key].params| <= run.env.paramsCap
    ensures var (def, params) := (At(run, n).intents[key.intent].def, At(run, n).proposals[key].params);
            def.intentType == Custom ==>
              && Validated(def.params, params, run.env.utf8).Ok?
              && ReadableFrom(def.params, params, 0, run.env.utf8)
  {
    hide At, Inv, Started, Validated, ReadableFrom, VotesOk;
    Reachable(run, n);
    RecordsOk(run.env, At(run, n), key);
    var (def, params) := (At(run, n).intents[key.intent].def, At(run, n).proposals[key].params);
    ValidatedIff(def.params, params, run.env.utf8);
  }

  // ---- What a custom execution did ----

  /** A successful custom execution records exactly the instructions the interpreter emits for the stored parameters. */
  lemma CustomRan(run: Run, n: nat) returns (calls: seq<Interpreter.Call>)
    requires Started(run) && n < |run.steps| && run.steps[n].Execute? && Succeeds(run, n)
    requires run.steps[n].key.intent in At(run, n).intents
    requires At(run, n).intents[run.steps[n].key.intent].def.intentType == Custom
    ensures var (s, ins) := (At(run, n), run.steps[n]);
            && ins.key in s.proposals
            && var (def, params) := (s.intents[ins.key.intent].def, s.proposals[ins.key].params);
            && Interpreter.Executed(run.env, def, params, ins.declared, ins.remaining) == Ok(calls)
            && ExecutionRight(run.env, def, params, ins.declared, ins.remaining, calls)
            && At(run, n + 1).effects == s.effects + [Done(ins.key, Ran(calls))]
  {
    var (s, ins) := (At(run, n), run.steps[n]);
    hide At, Inv, Started, Apply, ExecutionRight, Interpreter.Executed, ApplyExecute;
    Reachable(run, n);
    SucceedsTo(run, n);
    ExecuteIsApply(run.env, s, ins);
    ExecuteEffects(run.env, s, ins.key, ins.declared, ins.remaining);
    var (def, params) := (s.intents[ins.key.intent].def, s.proposals[ins.key].params);
    calls := Interpreter.Executed(run.env, def, params, ins.declared, ins.remaining).value;
    ExecutedRight(run.env, def, params, ins.declared, ins.remaining);
  }

  // ---- One placeholder, one segment ----

  /** A rendered template is the text of the pieces before one, that piece's text, and the text of the pieces after. */
  lemma {:induction false} SubstitutedAt(params: seq<ParamEntry>, data: Bytes, pieces: seq<MessageText.Piece>,
                                         utf8: Bytes -> bool, k: nat)
    requires k < |pieces| && MessageText.Substituted(params, data, pieces, utf8).Ok?
    ensures var before := MessageText.Substituted(params, data, pieces[..k], utf8);
            var text := MessageText.PieceText(params, data, pieces[k], utf8);
            var after := MessageText.Substituted(params, data, pieces[k + 1..], utf8);
            && before.Ok? && text.Ok? && after.Ok?
            && MessageText.Substituted(params, data, pieces, utf8).value == before.value + text.value + after.value
  {
    hide MessageText.PieceText, MessageText.Substituted;
    SubstitutedStep(params, data, pieces, utf8);
    if k == 0 {
      SubstitutedNothing(params, data, utf8);
      assert pieces[..0] == [] && pieces[0 + 1..] == pieces[1..];
      var (text, after) := (MessageText.PieceText(params, data, pieces[0], utf8).value,
                            MessageText.Substituted(params, data, pieces[1..], utf8).value);
      assert [] + text + after == text + after;
    } else {
      SubstitutedAt(params, data, pieces[1..], utf8, k - 1);
      SubstitutedStep(params, data, pieces[..k], utf8);
      assert pieces[..k][1..] == pieces[1..][..k - 1] && pieces[1..][k - 1 + 1..] == pieces[k + 1..];
      var first := MessageText.PieceText(params, data, pieces[0], utf8).value;
      var before := MessageText.Substituted(params, data, pieces[1..][..k - 1], utf8).value;
      var text := MessageText.PieceText(params, data, pieces[k], utf8).value;
      var after := MessageText.Substituted(params, data, pieces[k + 1..], utf8).value;
      assert first + (before + text + after) == (first + before) + text + after;
    }
  }

  lemma SubstitutedNothing(params: seq<ParamEntry>, data: Bytes, utf8: Bytes -> bool)
    ensures MessageText.Substituted(params, data, [], utf8) == Ok([])
  {}

  /** The first piece and the others. */
  lemma SubstitutedStep(params: seq<ParamEntry>, data: Bytes, pieces: seq<MessageText.Piece>, utf8: Bytes -> bool)
    requires pieces != []
    ensures var (whole, text) := (MessageText.Substituted(params, data, pieces, utf8),
                                  MessageText.PieceText(params, data, pieces[0], utf8));
            var rest := MessageText.Substituted(params, data, pieces[1..], utf8);
            && (whole.Ok? <==> text.Ok? && rest.Ok?)
            && (whole.Ok? ==> whole.value == text.value + rest.value)
  {
    hide MessageText.PieceText;
  }

  /**
   Pasted segments are the bytes of the segments before one, that segment's bytes, and those of the segments after.
   */
  lemma {:induction false} PastedAt(def: Definition, data: Bytes, segments: seq<DataSegmentEntry>, g: nat)
    requires g < |segments| && Pasted(def, data, segments).Ok?
    ensures var before := Pasted(def, data, segments[..g]);
            var bytes := Interpreter.SegmentBytes(def, data, segments[g]);
            var after := Pasted(def, data, segments[g + 1..]);
            && before.Ok? && bytes.Ok? && after.Ok?
            && Pasted(def, data, segments).value == before.value + bytes.value + after.value
  {
    hide Interpreter.SegmentBytes;
    if g > 0 {
      PastedAt(def, data, segments[1..], g - 1);
      assert segments[..g][1..] == segments[1..][..g - 1] && segments[1..][g..] == segments[g + 1..];
      var first := Interpreter.SegmentBytes(def, data, segments[0]).value;
      var before := Pasted(def, data, segments[1..][..g - 1]).value;
      var bytes := Interpreter.SegmentBytes(def, data, segments[g]).value;
      var after := Pasted(def, data, segments[g + 1..]).value;
      assert first + (before + bytes + after) == (first + before) + bytes + after;
    }
  }

  /** Where piece `k` of a template stands in a rendered message: after the text of the earlier pieces. */
  predicate ShownAt(env: Env, ctx: MessageText.Context, def: Definition, data: Bytes, pieces: seq<MessageText.Piece>,
                    k: nat, message: Bytes, text: Bytes)
    requires k < |pieces|
  {
    var before := MessageText.Substituted(def.params, data, pieces[..k], env.utf8);
    var after := MessageText.Substituted(def.params, data, pieces[k + 1..], env.utf8);
    && before.Ok? && after.Ok?
    && MessageText.PieceText(def.params, data, pieces[k], env.utf8) == Ok(text)
    && message == MessageText.Wrapped(MessageText.BodyOf(ctx, before.value + text + after.value))
  }

  /** Where segment `g` of an instruction stands in its data: after the bytes of the earlier segments. */
  predicate EmittedAt(def: Definition, data: Bytes, entry: InstructionEntry, g: nat, ixData: Bytes, bytes: Bytes)
    requires entry.segmentsStart <= g < entry.segmentsStart as nat + entry.segmentsCount as nat <= |def.segments|
  {
    var before := Pasted(def, data, def.segments[entry.segmentsStart..g]);
    var after := Pasted(def, data, def.segments[g + 1..entry.segmentsStart as nat + entry.segmentsCount as nat]);
    && before.Ok? && after.Ok?
    && Interpreter.SegmentBytes(def, data, def.segments[g]) == Ok(bytes)
    && ixData == before.value + bytes + after.value
  }

  /** The template of a definition as pieces. */
  predicate HasPieces(env: Env, def: Definition, pieces: seq<MessageText.Piece>)
  {
    var t := MessageText.Template(def, env.utf8);
    t.Ok? && MessageText.Pieces(t.value) == Ok(pieces)
  }

  /**
   Placeholder `k` of the template and segment `g` of instruction `j` are about the same parameter, in its encoding.
   */
  predicate SameParam(def: Definition, pieces: seq<MessageText.Piece>, k: nat, j: nat, g: nat)
  {
    && k < |pieces| && pieces[k].Placeholder? && j < |def.instructions|
    && def.instructions[j].segmentsStart <= g
       < def.instructions[j].segmentsStart as nat + def.instructions[j].segmentsCount as nat <= |def.segments|
    && pieces[k].index % 0x100 < |def.params|
    && MatchingEncoding(def.params[pieces[k].index % 0x100].paramType).Some?
    && EmitsParam(def, def.segments[g], pieces[k].index % 0x100,
                  MatchingEncoding(def.params[pieces[k].index % 0x100].paramType).value)
  }

  lemma MessageShows(env: Env, ctx: MessageText.Context, def: Definition, data: Bytes, pieces: seq<MessageText.Piece>,
                     k: nat)
    requires def.intentType == Custom && MessageText.Message(env, ctx, def, data).Ok?
    requires HasPieces(env, def, pieces) && k < |pieces|
    ensures var text := MessageText.PieceText(def.params, data, pieces[k], env.utf8);
            text.Ok? && ShownAt(env, ctx, def, data, pieces, k, MessageText.Message(env, ctx, def, data).value,
                                text.value)
  {
    hide MessageText.PieceText, MessageText.Wrapped, MessageText.BodyOf, MessageText.Pieces, MessageText.Substituted;
    SubstitutedAt(def.params, data, pieces, env.utf8, k);
  }

  lemma CallEmits(env: Env, def: Definition, data: Bytes, declared: Interpreter.Declared,
                  remaining: seq<Interpreter.AccountView>, calls: seq<Interpreter.Call>, j: nat, g: nat)
    requires ExecutionRight(env, def, data, declared, remaining, calls) && j < |def.instructions|
    requires def.instructions[j].segmentsStart <= g
             < def.instructions[j].segmentsStart as nat + def.instructions[j].segmentsCount as nat <= |def.segments|
    ensures var bytes := Interpreter.SegmentBytes(def, data, def.segments[g]);
            j < |calls| && bytes.Ok? && EmittedAt(def, data, def.instructions[j], g, calls[j].data, bytes.value)
  {
    hide Interpreter.SegmentBytes, Interpreter.Resolved, Interpreter.NamedAddress, InjectedRight, Taken, Pasted;
    var entry := def.instructions[j];
    var (from, to) := (entry.segmentsStart, entry.segmentsStart as nat + entry.segmentsCount as nat);
    assert CallRight(def, data, Interpreter.Resolved(def, declared, remaining).value, entry, calls[j]);
    PastedAt(def, data, def.segments[from..to], g - from);
    assert def.segments[from..to][..g - from] == def.segments[from..g];
    assert def.segments[from..to][g - from + 1..] == def.segments[g + 1..to];
  }

  /**
   What the signers read is what runs. When a custom proposal executes, take any slot standing by its approval, any
   placeholder of the template, and any segment of any emitted instruction that carries the same parameter in its own
   encoding: the slot's approver signed, before it expired, a message whose text at that placeholder reads back to
   exactly the value of the bytes at that segment of the emitted instruction's data.
   */
  lemma SignedIsExecuted(run: Run, n: nat, slot: nat, pieces: seq<MessageText.Piece>, k: nat, j: nat, g: nat)
    returns (m: nat, calls: seq<Interpreter.Call>, text: Bytes, bytes: Bytes)
    requires Started(run) && n < |run.steps| && run.steps[n].Execute? && Succeeds(run, n)
    requires slot in Approvers(run, run.steps[n].key, n) && run.steps[n].key.intent in At(run, n).intents
    requires At(run, n).intents[run.steps[n].key.intent].def.intentType == Custom
    requires HasPieces(run.env, At(run, n).intents[run.steps[n].key.intent].def, pieces)
    requires SameParam(At(run, n).intents[run.steps[n].key.intent].def, pieces, k, j, g)
    ensures var (s, key) := (At(run, n), run.steps[n].key);
            && key in s.proposals && m < n
            && var (def, params) := (s.intents[key.intent].def, s.proposals[key].params);
            && ApprovedAt(run, key, slot, def, params, m)
            && var ctx := MessageText.Context(run.steps[m].expiry, MessageText.Approve, At(run, m).name, key.index);
            && MessageText.Message(run.env, ctx, def, params).Ok?
            && ShownAt(run.env, ctx, def, params, pieces, k, MessageText.Message(run.env, ctx, def, params).value, text)
            && j < |calls| && EmittedAt(def, params, def.instructions[j], g, calls[j].data, bytes)
            && (var paramType := def.params[pieces[k].index % 0x100].paramType;
                ReadText(paramType, text) == Some(RawValue(paramType, bytes)))
            && At(run, n + 1).effects == s.effects + [Done(key, Ran(calls))]
  {
    hide At, Inv, Started, Apply, Succeeds, ExecutionRight, Interpreter.Executed, Approvers, MessageText.Message,
      Validated, ReadableFrom, HasPieces, ReadText, RawValue, MessageText.PieceText, Interpreter.SegmentBytes,
      ShownAt, EmittedAt, MatchingEncoding, EmitsParam, ParamBytes;
    var (s, key) := (At(run, n), run.steps[n].key);
    m := ExecutedMeansSigned(run, n, slot);
    ExecuteNeedsApproved(run, n);
    ConstraintsSurvive(run, n, key);
    calls := CustomRan(run, n);
    var (def, params) := (s.intents[key.intent].def, s.proposals[key].params);
    var ctx := MessageText.Context(run.steps[m].expiry, MessageText.Approve, At(run, m).name, key.index);
    MessageShows(run.env, ctx, def, params, pieces, k);
    CallEmits(run.env, def, params, run.steps[n].declared, run.steps[n].remaining, calls, j, g);
    DisplayedIsExecuted(run.env, def, params, pieces[k], def.segments[g]);
    text := MessageText.PieceText(def.params, params, pieces[k], run.env.utf8).value;
    bytes := Interpreter.SegmentBytes(def, params, def.segments[g]).value;
  }

  /** Placeholder `k` of the template and account `x` of instruction `j` are about the same address parameter. */
  predicate SameAddress(def: Definition, pieces: seq<MessageText.Piece>, k: nat, j: nat, x: nat)
  {
    && k < |pieces| && pieces[k].Placeholder? && pieces[k].index % 0x100 < |def.params|
    && def.params[pieces[k].index % 0x100].paramType == AddressParam
    && EntryBehind(def, j, x).Some? && TakesParam(def, EntryBehind(def, j, x).value, pieces[k].index % 0x100)
  }

  /**
   The accounts the signers read are the accounts that are used: when a custom proposal executes, the address read from
   the text at any placeholder, in the message any slot standing by its approval has signed, is the address of every
   account the emitted instructions take from the same parameter.
   */
  lemma SignedIsAddressed(run: Run, n: nat, slot: nat, pieces: seq<MessageText.Piece>, k: nat, j: nat, x: nat)
    returns (m: nat, calls: seq<Interpreter.Call>, text: Bytes)
    requires Started(run) && n < |run.steps| && run.steps[n].Execute? && Succeeds(run, n)
    requires slot in Approvers(run, run.steps[n].key, n) && run.steps[n].key.intent in At(run, n).intents
    requires At(run, n).intents[run.steps[n].key.intent].def.intentType == Custom
    requires HasPieces(run.env, At(run, n).intents[run.steps[n].key.intent].def, pieces)
    requires SameAddress(At(run, n).intents[run.steps[n].key.intent].def, pieces, k, j, x)
    ensures var (s, key) := (At(run, n), run.steps[n].key);
            && key in s.proposals && m < n
            && var (def, params) := (s.intents[key.intent].def, s.proposals[key].params);
            && ApprovedAt(run, key, slot, def, params, m)
            && var ctx := MessageText.Context(run.steps[m].expiry, MessageText.Approve, At(run, m).name, key.index);
            && MessageText.Message(run.env, ctx, def, params).Ok?
            && ShownAt(run.env, ctx, def, params, pieces, k, MessageText.Message(run.env, ctx, def, params).value, text)
            && j < |calls| && x < |calls[j].accounts|
            && ReadText(AddressParam, text) == Some(AddressValue(calls[j].accounts[x].address))
            && At(run, n + 1).effects == s.effects + [Done(key, Ran(calls))]
  {
    hide At, Inv, Started, Apply, Succeeds, ExecutionRight, Interpreter.Executed, Approvers, MessageText.Message,
      Validated, ReadableFrom, HasPieces, ReadText, MessageText.PieceText, ShownAt, EntryBehind, TakesParam;
    var (s, key) := (At(run, n), run.steps[n].key);
    m := ExecutedMeansSigned(run, n, slot);
    ExecuteNeedsApproved(run, n);
    ConstraintsSurvive(run, n, key);
    calls := CustomRan(run, n);
    var (def, params) := (s.intents[key.intent].def, s.proposals[key].params);
    var ctx := MessageText.Context(run.steps[m].expiry, MessageText.Approve, At(run, m).name, key.index);
    MessageShows(run.env, ctx, def, params, pieces, k);
    DisplayedIsAddressed(run.env, def, params, run.steps[n].declared, run.steps[n].remaining, calls, pieces[k], j, x);
    text := MessageText.PieceText(def.params, params, pieces[k], run.env.utf8).value;
  }

  /** Placeholder `k` of the template and seed `q` of the derived account `x` of instruction `j` share a parameter. */
  predicate SameSeed(def: Definition, pieces: seq<MessageText.Piece>, k: nat, j: nat, x: nat, q: nat)
  {
    && k < |pieces| && pieces[k].Placeholder?
    && EntryBehind(def, j, x).Some?
    && var d := Derivation(def, EntryBehind(def, j, x).value);
    && d.Some? && q < d.value.2 && d.value.1 + q < |def.seeds|
    && SeedParam(def, def.seeds[d.value.1 + q]) == Some(pieces[k].index % 0x100)
  }

  /**
   The same for derived accounts: when a custom proposal executes, every emitted account whose entry is derived is the
   program address of the entry's seeds, and the text at a placeholder, in the message any slot standing by its approval
   has signed, reads back to the value of every seed taken from the same parameter.
   */
  lemma SignedIsDerived(run: Run, n: nat, slot: nat, pieces: seq<MessageText.Piece>, k: nat, j: nat, x: nat, q: nat)
    returns (m: nat, calls: seq<Interpreter.Call>, text: Bytes, seeds: seq<Bytes>)
    requires Started(run) && n < |run.steps| && run.steps[n].Execute? && Succeeds(run, n)
    requires slot in Approvers(run, run.steps[n].key, n) && run.steps[n].key.intent in At(run, n).intents
    requires At(run, n).intents[run.steps[n].key.intent].def.intentType == Custom
    requires HasPieces(run.env, At(run, n).intents[run.steps[n].key.intent].def, pieces)
    requires SameSeed(At(run, n).intents[run.steps[n].key.intent].def, pieces, k, j, x, q)
    ensures var (s, key, ins) := (At(run, n), run.steps[n].key, run.steps[n]);
            && key in s.proposals && m < n
            && var (def, params) := (s.intents[key.intent].def, s.proposals[key].params);
            && ApprovedAt(run, key, slot, def, params, m)
            && var ctx := MessageText.Context(run.steps[m].expiry, MessageText.Approve, At(run, m).name, key.index);
            && MessageText.Message(run.env, ctx, def, params).Ok?
            && ShownAt(run.env, ctx, def, params, pieces, k, MessageText.Message(run.env, ctx, def, params).value, text)
            && var views := Interpreter.Resolved(def, ins.declared, ins.remaining);
            && views.Ok? && j < |calls| && x < |calls[j].accounts|
            && DerivedRight(run.env, def, params, views.value, EntryBehind(def, j, x).value, seeds,
                            calls[j].accounts[x].address)
            && q < |seeds| && pieces[k].index % 0x100 < |def.params|
            && (var paramType := def.params[pieces[k].index % 0x100].paramType;
                ReadText(paramType, text) == Some(RawValue(paramType, seeds[q])))
            && At(run, n + 1).effects == s.effects + [Done(key, Ran(calls))]
  {
    hide At, Inv, Started, Apply, Succeeds, ExecutionRight, Interpreter.Executed, Interpreter.Resolved, Approvers,
      MessageText.Message, Validated, ReadableFrom, HasPieces, ReadText, RawValue, MessageText.PieceText, ShownAt,
      EntryBehind, Derivation, SeedParam, DerivedRight;
    var (s, key, ins) := (At(run, n), run.steps[n].key, run.steps[n]);
    m := ExecutedMeansSigned(run, n, slot);
    ExecuteNeedsApproved(run, n);
    ConstraintsSurvive(run, n, key);
    calls := CustomRan(run, n);
    var (def, params) := (s.intents[key.intent].def, s.proposals[key].params);
    var ctx := MessageText.Context(run.steps[m].expiry, MessageText.Approve, At(run, m).name, key.index);
    MessageShows(run.env, ctx, def, params, pieces, k);
    IsDerived(def, EntryBehind(def, j, x).value);
    seeds := DerivedIsDisplayed(run.env, def, params, ins.declared, ins.remaining, calls, j, x);
    text := MessageText.PieceText(def.params, params, pieces[k], run.env.utf8).value;
    SeedAtPlaceholder(run.env, def, params, Interpreter.Resolved(def, ins.declared, ins.remaining).value, pieces, k, j,
                      x, q, seeds, calls[j].accounts[x].address);
  }

  lemma IsDerived(def: Definition, entry: AccountEntry)
    requires Derivation(def, entry).Some?
    ensures entry.sourceType == PdaDerived
  {}

  lemma SeedAtPlaceholder(env: Env, def: Definition, data: Bytes, views: seq<Interpreter.AccountView>,
                          pieces: seq<MessageText.Piece>, k: nat, j: nat, x: nat, q: nat, seeds: seq<Bytes>,
                          address: Address)
    requires SameSeed(def, pieces, k, j, x, q)
    requires DerivedRight(env, def, data, views, EntryBehind(def, j, x).value, seeds, address)
    ensures q < |seeds| && pieces[k].index % 0x100 < |def.params|
    ensures var (text, paramType) := (MessageText.PieceText(def.params, data, pieces[k], env.utf8),
                                      def.params[pieces[k].index % 0x100].paramType);
            text.Ok? && ReadText(paramType, text.value) == Some(RawValue(paramType, seeds[q]))
  {
    hide EntryBehind, Derivation, SeedParam, ReadText, RawValue, MessageText.RenderParam, ParamBytes;
    assert SeedShownAt(env, def, data, Derivation(def, EntryBehind(def, j, x).value).value.1, seeds, q);
  }

  // ---- What is emitted, written out ----

  /**
   When a custom proposal executes, its entries resolve, each account has the address its entry names, and each emitted
   instruction is what its entry says, segment by segment.
   */
  lemma CustomEmits(run: Run, n: nat) returns (calls: seq<Interpreter.Call>, views: seq<Interpreter.AccountView>)
    requires Started(run) && n < |run.steps| && run.steps[n].Execute? && Succeeds(run, n)
    requires run.steps[n].key.intent in At(run, n).intents
    requires At(run, n).intents[run.steps[n].key.intent].def.intentType == Custom
    ensures var (s, ins) := (At(run, n), run.steps[n]);
            && ins.key in s.proposals && At(run, n + 1).effects == s.effects + [Done(ins.key, Ran(calls))]
            && var (def, params) := (s.intents[ins.key.intent].def, s.proposals[ins.key].params);
            && Resolvable(def, ins.declared, ins.remaining) && AllSlots(def, ins.declared, ins.remaining, views)
            && AllNamed(run.env, def, params, views) && AllInstructionsGood(def, params, views)
            && AllCalls(def, params, views, calls)
  {
    hide At, Inv, Started, Apply, Succeeds, Interpreter.Executed, ExecutionRight, Resolvable, AllSlots, AllNamed,
      AllInstructionsGood, AllCalls;
    calls := CustomRan(run, n);
    var (s, ins) := (At(run, n), run.steps[n]);
    views := ExecutedIff(run.env, s.intents[ins.key.intent].def, s.proposals[ins.key].params, ins.declared,
                         ins.remaining);
    SlotsLength(s.intents[ins.key.intent].def, ins.declared, ins.remaining, views);
  }

  lemma SlotsLength(def: Definition, declared: Interpreter.Declared, remaining: seq<Interpreter.AccountView>,
                    views: seq<Interpreter.AccountView>)
    requires AllSlots(def, declared, remaining, views)
    ensures |views| == |def.accounts|
  {
    hide SlotIs;
  }

  /**
   Literal bytes are emitted as they are: the data of instruction `j` is what the earlier segments take, by their own
   widths, then the pool bytes of literal segment `g`, then the rest.
   */
  lemma LiteralIsEmitted(run: Run, n: nat, j: nat, g: nat)
    returns (calls: seq<Interpreter.Call>, before: Bytes, after: Bytes)
    requires Started(run) && n < |run.steps| && run.steps[n].Execute? && Succeeds(run, n)
    requires run.steps[n].key.intent in At(run, n).intents
    requires At(run, n).intents[run.steps[n].key.intent].def.intentType == Custom
    requires var def := At(run, n).intents[run.steps[n].key.intent].def;
             && j < |def.instructions| && g < def.instructions[j].segmentsCount
             && var h := def.instructions[j].segmentsStart as int + g;
             h < |def.segments| ==> def.segments[h].segmentType == LiteralSegment
    ensures var (s, ins) := (At(run, n), run.steps[n]);
            && ins.key in s.proposals && At(run, n + 1).effects == s.effects + [Done(ins.key, Ran(calls))]
            && var (def, params) := (s.intents[ins.key.intent].def, s.proposals[ins.key].params);
            && j < |calls|
            && var (entry, start) := (def.instructions[j], def.instructions[j].segmentsStart as int);
            && start + entry.segmentsCount as int <= |def.segments|
            && var segment := def.segments[start + g];
            && var (o, l) := (segment.poolOffset as int, segment.poolLen as int);
            && o + l <= |def.pool| && AllGood(def, params, Segments(def, entry))
            && |before| == Place(def, params, Segments(def, entry), g)
            && calls[j].data == before + def.pool[o..o + l] + after
  {
    hide At, Inv, Started, Apply, Succeeds, AllSlots, AllNamed, Resolvable;
    var views;
    calls, views := CustomEmits(run, n);
    var (s, ins) := (At(run, n), run.steps[n]);
    var (def, params) := (s.intents[ins.key.intent].def, s.proposals[ins.key].params);
    SlotsLength(def, ins.declared, ins.remaining, views);
    assert InstructionGood(def, params, views, def.instructions[j]);
    assert CallIs(def, params, views, def.instructions[j], calls[j]);
    before, after := LiteralAt(def, params, Segments(def, def.instructions[j]), calls[j].data, g);
  }

  lemma LiteralAt(def: Definition, data: Bytes, segments: seq<DataSegmentEntry>, ixData: Bytes, g: nat)
    returns (before: Bytes, after: Bytes)
    requires g < |segments| && AllGood(def, data, segments) && LaidOut(def, data, segments, ixData)
    requires segments[g].segmentType == LiteralSegment
    ensures var (o, l) := (segments[g].poolOffset as int, segments[g].poolLen as int);
            && o + l <= |def.pool| && |before| == Place(def, data, segments, g)
            && ixData == before + def.pool[o..o + l] + after
  {
    hide Place;
    assert SegmentGood(def, data, segments[g]) && InPlace(def, data, segments, ixData, g);
    var from := Place(def, data, segments, g);
    before, after := ixData[..from], ixData[from + segments[g].poolLen..];
  }

  /** The bounds of an open proposal's u64 parameters hold of the stored numbers, in every state of every run. */
  lemma BoundsSurvive(run: Run, n: nat, key: Key, i: byte)
    requires Started(run) && n <= |run.steps| && key in At(run, n).proposals && Open(At(run, n).proposals[key])
    requires key.intent in At(run, n).intents && At(run, n).intents[key.intent].def.intentType == Custom
    requires i < |At(run, n).intents[key.intent].def.params|
    requires At(run, n).intents[key.intent].def.params[i].paramType == U64Param
    ensures var (def, params) := (At(run, n).intents[key.intent].def, At(run, n).proposals[key].params);
            var (entry, val) := (def.params[i], ParamBytes(def.params, params, i));
            && val.Ok? && |val.value| == 8
            && (entry.constraintType == LessThanU64 ==> FromLE(val.value) < entry.constraintValue)
            && (entry.constraintType == GreaterThanU64 ==> FromLE(val.value) > entry.constraintValue)
  {
    hide At, Inv, Started, Validated, ParamBytes, FromLE;
    ConstraintsSurvive(run, n, key);
    ParamWidths(At(run, n).intents[key.intent].def.params, At(run, n).proposals[key].params, run.env.utf8, i);
  }

  /**
   A spending limit binds what is signed and what is emitted: when a custom proposal executes, the number that the
   signers read at a placeholder of a bounded u64 parameter, and the number that a segment of the same parameter emits
   in its own encoding, are one number, and it is below, or above, the bound.
   */
  lemma SignedWithinBounds(run: Run, n: nat, slot: nat, pieces: seq<MessageText.Piece>, k: nat, j: nat, g: nat)
    returns (m: nat, calls: seq<Interpreter.Call>, text: Bytes, bytes: Bytes)
    requires Started(run) && n < |run.steps| && run.steps[n].Execute? && Succeeds(run, n)
    requires slot in Approvers(run, run.steps[n].key, n) && run.steps[n].key.intent in At(run, n).intents
    requires At(run, n).intents[run.steps[n].key.intent].def.intentType == Custom
    requires HasPieces(run.env, At(run, n).intents[run.steps[n].key.intent].def, pieces)
    requires SameParam(At(run, n).intents[run.steps[n].key.intent].def, pieces, k, j, g)
    requires At(run, n).intents[run.steps[n].key.intent].def.params[pieces[k].index % 0x100].paramType == U64Param
    ensures var (s, key) := (At(run, n), run.steps[n].key);
            && key in s.proposals && m < n
            && var (def, params) := (s.intents[key.intent].def, s.proposals[key].params);
            && ApprovedAt(run, key, slot, def, params, m)
            && var ctx := MessageText.Context(run.steps[m].expiry, MessageText.Approve, At(run, m).name, key.index);
            && MessageText.Message(run.env, ctx, def, params).Ok?
            && ShownAt(run.env, ctx, def, params, pieces, k, MessageText.Message(run.env, ctx, def, params).value, text)
            && j < |calls| && EmittedAt(def, params, def.instructions[j], g, calls[j].data, bytes)
            && At(run, n + 1).effects == s.effects + [Done(key, Ran(calls))]
            && var entry := def.params[pieces[k].index % 0x100];
            && |bytes| == 8 && ReadText(U64Param, text) == Some(Number(FromLE(bytes)))
            && (entry.constraintType == LessThanU64 ==> FromLE(bytes) < entry.constraintValue)
            && (entry.constraintType == GreaterThanU64 ==> FromLE(bytes) > entry.constraintValue)
  {
    hide At, Inv, Started, Apply, Succeeds, Approvers, MessageText.Message, HasPieces, ReadText, ShownAt, EmittedAt,
      FromLE, ParamBytes, Interpreter.SegmentBytes, Validated, ApprovedAt;
    m, calls, text, bytes := SignedIsExecuted(run, n, slot, pieces, k, j, g);
    var (s, key) := (At(run, n), run.steps[n].key);
    ExecuteNeedsApproved(run, n);
    ConstraintsSurvive(run, n, key);
    BoundsSurvive(run, n, key, pieces[k].index % 0x100);
    var (def, params) := (s.intents[key.intent].def, s.proposals[key].params);
    EmittedIs(run.env, def, params, pieces[k], def.instructions[j], g, calls[j].data, bytes);
  }

  lemma EmittedIs(env: Env, def: Definition, data: Bytes, piece: MessageText.Piece, entry: InstructionEntry, g: nat,
                  ixData: Bytes, bytes: Bytes)
    requires Validated(def.params, data, env.utf8).Ok? && piece.Placeholder? && piece.index % 0x100 < |def.params|
    requires MatchingEncoding(def.params[piece.index % 0x100].paramType).Some?
    requires entry.segmentsStart <= g < entry.segmentsStart as nat + entry.segmentsCount as nat <= |def.segments|
    requires EmitsParam(def, def.segments[g], piece.index % 0x100,
                        MatchingEncoding(def.params[piece.index % 0x100].paramType).value)
    requires EmittedAt(def, data, entry, g, ixData, bytes)
    ensures ParamBytes(def.params, data, piece.index % 0x100) == Ok(bytes)
  {
    hide Validated, MatchingEncoding, EmitsParam, ParamBytes, Pasted, Interpreter.SegmentBytes;
    DisplayedIsExecuted(env, def, data, piece, def.segments[g]);
  }
}
