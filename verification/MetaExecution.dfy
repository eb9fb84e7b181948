/** From the signed text of a meta-intent proposal to what its execution does to the wallet's intents. */
module MetaExecution {
  import opened Bytes
  import opened Definition
  import opened Governance
  import opened History
  import opened Invariant
  import opened MessageMeaning
  import opened Runs
  import opened Steps
  import Interpreter
  import MessageText

  /** Every intent but the one at `target` keeps its definition and its switch. */
  predicate OthersKept(s: State, t: State, target: Address)
  {
    forall j :: j in s.intents && j != target ==>
      j in t.intents && t.intents[j].def == s.intents[j].def && t.intents[j].approved == s.intents[j].approved
  }

  /** The index of the intent a meta-intent proposal is about. */
  function Target(s: State, meta: Meta): (r: Option<byte>)
  {
    match meta
    case Add(_) => if s.intentIndex < 255 then Some(s.intentIndex + 1) else None
    case Remove(target) => Some(target)
    case Update(target, _) => Some(target)
  }

  /** The account handed in for the target is the one at the target's address, and may be written. */
  predicate TargetGiven(env: Env, meta: Meta, target: byte, remaining: seq<Interpreter.AccountView>)
  {
    match meta
    case Add(_) => |remaining| >= 2 && remaining[0].isSigner && remaining[1].address == env.intentAddress(target)
    case _ => |remaining| >= 1 && remaining[0].isWritable && remaining[0].address == env.intentAddress(target)
  }

  /**
   What `meta` says has been done, at the wallet's own seeds: an addition installs, under the next free index, the body
   read from the parameters whose hash was signed; a removal switches its target off; an update replaces its target by
   the body whose hash was signed. Nothing else changes.
   */
  predicate Carried(env: Env, s: State, t: State, meta: Meta, params: Bytes, remaining: seq<Interpreter.AccountView>,
                    effect: Effect)
  {
    var target := Target(s, meta);
    && target.Some?
    && var a := env.intentAddress(target.value);
    && a in t.intents && OthersKept(s, t, a)
    && TargetGiven(env, meta, target.value, remaining)
    && match meta
       case Add(hash) =>
         && hash == env.sha256(params) && effect == Added(target.value)
         && a !in s.intents && t.intentIndex == target.value
         && t.intents[a] == AddedBody(env, params)
       case Remove(_) =>
         && effect == Removed(target.value) && t.intentIndex == s.intentIndex && a in s.intents
         && t.intents[a] == s.intents[a].(approved := 0)
       case Update(_, hash) =>
         && |params| > 1 && hash == env.sha256(params[1..])
         && effect == Updated(target.value) && t.intentIndex == s.intentIndex && a in s.intents
         && t.intents[a] == env.decodeIntent(params[1..])
  }

  /** The intent the proposal runs under is not the one it is about. */
  predicate AimsElsewhere(env: Env, s: State, meta: Meta, key: Key)
  {
    Target(s, meta).Some? ==> env.intentAddress(Target(s, meta).value) != key.intent
  }

  lemma BranchCarries(env: Env, s: State, def: Definition, params: Bytes, declared: Interpreter.Declared,
                      remaining: seq<Interpreter.AccountView>)
    requires !def.intentType.Custom? && ExecuteBranch(env, s, def, params, declared, remaining).Ok?
    ensures var branch := ExecuteBranch(env, s, def, params, declared, remaining).value;
            && MetaOf(env, def, params).Some?
            && Carried(env, s, branch.0, MetaOf(env, def, params).value, params, remaining, branch.1)
  {
    hide Interpreter.Executed;
  }

  /** Closing the proposal touches the count of its own intent only, and that intent is not the target. */
  lemma CloseCarries(env: Env, s: State, mid: State, key: Key, meta: Meta, params: Bytes,
                     remaining: seq<Interpreter.AccountView>, effect: Effect)
    requires BranchFrame(s, mid, key) && key in mid.proposals
    requires Carried(env, s, mid, meta, params, remaining, effect)
    requires AimsElsewhere(env, s, meta, key)
    ensures Carried(env, s, Close(mid, key, effect), meta, params, remaining, effect)
  {
    hide AddedBody, Open;
  }

  lemma TargetIsAnother(env: Env, s: State, key: Key, params: Bytes, declared: Interpreter.Declared,
                        remaining: seq<Interpreter.AccountView>)
    requires Inv(env, s) && key in s.proposals && Open(s.proposals[key]) && key.intent in s.intents
    requires !s.intents[key.intent].def.intentType.Custom?
    requires ExecuteBranch(env, s, s.intents[key.intent].def, params, declared, remaining).Ok?
    ensures var meta := MetaOf(env, s.intents[key.intent].def, params);
            meta.Some? && AimsElsewhere(env, s, meta.value, key)
  {
    hide Inv, Interpreter.Executed;
    match s.intents[key.intent].def.intentType {
      case AddIntent =>
      case RemoveIntent => TargetIsIdle(env, s, env.intentAddress(params[0]), key);
      case UpdateIntent => TargetIsIdle(env, s, env.intentAddress(params[0]), key);
    }
  }

  /** What a successful meta-intent execution does to the intents is what its parameters say. */
  lemma ExecutionCarries(env: Env, s: State, key: Key, declared: Interpreter.Declared,
                         remaining: seq<Interpreter.AccountView>)
    requires Inv(env, s) && ApplyExecute(env, s, key, declared, remaining).Ok?
    requires key.intent in s.intents && !s.intents[key.intent].def.intentType.Custom?
    ensures key in s.proposals
    ensures var (def, params, t) := (s.intents[key.intent].def, s.proposals[key].params,
                                     ApplyExecute(env, s, key, declared, remaining).value);
            && MetaOf(env, def, params).Some? && |t.effects| == |s.effects| + 1 && t.effects[|s.effects|].key == key
            && Carried(env, s, t, MetaOf(env, def, params).value, params, remaining, t.effects[|s.effects|].effect)
  {
    hide ExecuteBranch, Inv, IntentsOk, Carried, BranchFrame, AimsElsewhere, MetaOf;
    BranchKeeps(env, s, key, declared, remaining);
    ExecuteEffects(env, s, key, declared, remaining);
    var (def, params) := (s.intents[key.intent].def, s.proposals[key].params);
    var branch := ExecuteBranch(env, s, def, params, declared, remaining).value;
    BranchCarries(env, s, def, params, declared, remaining);
    TargetIsAnother(env, s, key, params, declared, remaining);
    FrameKey(s, branch.0, key);
    CloseCarries(env, s, branch.0, key, MetaOf(env, def, params).value, params, remaining, branch.1);
  }

  lemma FrameKey(s: State, mid: State, key: Key)
    requires BranchFrame(s, mid, key) && key in s.proposals
    ensures key in mid.proposals && key.intent in mid.intents
  {
    hide Open;
  }

  /**
   What the signers of a meta-intent proposal read is what its execution does: every slot standing by its approval
   signed, before it expired, the text of exactly the addition, removal or update that is carried out.
   */
  lemma SignedMetaIsExecuted(run: Run, n: nat, slot: nat) returns (m: nat, meta: Meta)
    requires Started(run) && n < |run.steps| && run.steps[n].Execute? && Succeeds(run, n)
    requires slot in Approvers(run, run.steps[n].key, n) && run.steps[n].key.intent in At(run, n).intents
    requires !At(run, n).intents[run.steps[n].key.intent].def.intentType.Custom?
    ensures var (s, t, key) := (At(run, n), At(run, n + 1), run.steps[n].key);
            && key in s.proposals && m < n
            && var (def, params) := (s.intents[key.intent].def, s.proposals[key].params);
            && ApprovedAt(run, key, slot, def, params, m)
            && var ctx := MessageText.Context(run.steps[m].expiry, MessageText.Approve, At(run, m).name, key.index);
            && MessageText.Message(run.env, ctx, def, params)
               == Ok(MessageText.Wrapped(MessageText.BodyOf(ctx, MetaContent(meta))))
            && |t.effects| == |s.effects| + 1
            && Carried(run.env, s, t, meta, params, run.steps[n].remaining, t.effects[|s.effects|].effect)
  {
    hide At, Inv, Started, Apply, ApplyExecute, Succeeds, Approvers, Carried, MetaOf, MetaContent, SignedFor,
      MessageText.Wrapped, MessageText.BodyOf, MessageText.Message, MessageText.Content;
    var (s, ins) := (At(run, n), run.steps[n]);
    m := ExecutedMeansSigned(run, n, slot);
    Reachable(run, n);
    SucceedsTo(run, n);
    ExecuteIsApply(run.env, s, ins);
    ExecutionCarries(run.env, s, ins.key, ins.declared, ins.remaining);
    var (def, params) := (s.intents[ins.key.intent].def, s.proposals[ins.key].params);
    meta := MetaOf(run.env, def, params).value;
    var ctx := MessageText.Context(run.steps[m].expiry, MessageText.Approve, At(run, m).name, ins.key.index);
    ApprovedMessage(run, ins.key, slot, def, params, m);
    MetaMessage(run.env, ctx, def, params);
  }

  lemma ApprovedMessage(run: Run, key: Key, slot: nat, def: Definition, params: Bytes, m: nat)
    requires m < |run.steps| && ApprovedAt(run, key, slot, def, params, m)
    ensures run.steps[m].Approve?
    ensures MessageText.Message(run.env,
                                MessageText.Context(run.steps[m].expiry, MessageText.Approve, At(run, m).name,
                                                    key.index),
                                def, params).Ok?
  {
    hide At, Succeeds, MessageText.Message;
  }

  lemma MetaMessage(env: Env, ctx: MessageText.Context, def: Definition, params: Bytes)
    requires !def.intentType.Custom? && MessageText.Message(env, ctx, def, params).Ok?
    ensures MetaOf(env, def, params).Some?
    ensures MessageText.Message(env, ctx, def, params)
            == Ok(MessageText.Wrapped(MessageText.BodyOf(ctx, MetaContent(MetaOf(env, def, params).value))))
  {
    hide MessageText.Wrapped, MessageText.BodyOf, MetaOf, MetaContent, MessageText.Content;
    MetaContentOf(env, def, params);
  }
}
