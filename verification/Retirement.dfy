/** Intents that have been switched off stay quiet, and the intent that switches others off stays on. */
module Retirement {
  import opened Bytes
  import opened Ballots
  import opened Definition
  import opened Governance
  import opened History
  import opened Invariant
  import opened Runs
  import opened Steps
  import Interpreter
  import Params

  /** The instruction replaces the intent at `j` as a whole: an update here, or anything another wallet does to it. */
  predicate Replaces(env: Env, s: State, ins: Instruction, j: Address)
  {
    || (&& ins.Execute? && ins.key in s.proposals && ins.key.intent in s.intents && Apply(env, s, ins).Ok?
        && s.intents[ins.key.intent].def.intentType == UpdateIntent
        && s.proposals[ins.key].params != [] && env.intentAddress(s.proposals[ins.key].params[0]) == j)
    || (ins.Elsewhere? && ins.at == j && !OwnSeed(env, j))
  }

  /** The intent at `j` changes nothing but the count of open proposals, or is switched off. */
  predicate KeptOrRetired(s: State, t: State, j: Address)
    requires j in s.intents && j in t.intents
  {
    t.intents[j].def == s.intents[j].def
    && (t.intents[j].approved == s.intents[j].approved || t.intents[j].approved == 0)
  }

  /** An execution under `key` switched `j` off: it ran under another, removing intent of this wallet. */
  predicate RemovedBy(env: Env, s: State, ins: Instruction, j: Address)
  {
    && ins.Execute? && ins.key.intent != j && ins.key.intent in s.intents && Names(env, s.intents[ins.key.intent])
    && s.intents[ins.key.intent].def.intentType == RemoveIntent && OwnSeed(env, j)
  }

  lemma BranchOnIntent(env: Env, s: State, key: Key, declared: Interpreter.Declared,
                       remaining: seq<Interpreter.AccountView>, j: Address)
    requires key in s.proposals && key.intent in s.intents && j in s.intents
    requires ExecuteBranch(env, s, s.intents[key.intent].def, s.proposals[key].params, declared, remaining).Ok?
    requires s.intents[key.intent].def.intentType == UpdateIntent ==>
               s.proposals[key].params == [] || env.intentAddress(s.proposals[key].params[0]) != j
    ensures var t := ExecuteBranch(env, s, s.intents[key.intent].def, s.proposals[key].params, declared,
                                   remaining).value.0;
            && j in t.intents && KeptOrRetired(s, t, j)
            && (t.intents[j].approved != s.intents[j].approved ==>
                  && s.intents[key.intent].def.intentType == RemoveIntent && s.intents[j].activeProposalCount == 0
                  && OwnSeed(env, j))
  {
    hide Interpreter.Executed;
  }

  /**
   Short of a replacement, an instruction can only switch an intent off, and only by an execution under a removing
   intent of this wallet other than the one switched off.
   */
  lemma IntentStep(env: Env, s: State, ins: Instruction, t: State, j: Address)
    requires Inv(env, s) && t == Next(env, s, ins) && j in s.intents && !Replaces(env, s, ins, j)
    ensures j in t.intents && KeptOrRetired(s, t, j)
    ensures t.intents[j].approved != s.intents[j].approved ==> RemovedBy(env, s, ins, j)
  {
    hide Inv, OwnSeed, ApplyExecute, Signed, Params.Validated, AfterApprove, AfterCancel, LoadProposal;
    if ins.Execute? && Apply(env, s, ins).Ok? {
      ExecuteOnIntent(env, s, ins, t, j);
    }
  }

  lemma ExecuteOnIntent(env: Env, s: State, ins: Instruction, t: State, j: Address)
    requires Inv(env, s) && j in s.intents && !Replaces(env, s, ins, j)
    requires ins.Execute? && ApplyExecute(env, s, ins.key, ins.declared, ins.remaining) == Ok(t)
    ensures j in t.intents && KeptOrRetired(s, t, j)
    ensures t.intents[j].approved != s.intents[j].approved ==> RemovedBy(env, s, ins, j)
  {
    hide Inv, ExecuteBranch, IntentsOk, OwnSeed;
    BranchKeeps(env, s, ins.key, ins.declared, ins.remaining);
    BranchOnIntent(env, s, ins.key, ins.declared, ins.remaining, j);
    var branch := ExecuteBranch(env, s, s.intents[ins.key.intent].def, s.proposals[ins.key].params, ins.declared,
                                ins.remaining).value;
    if ins.key.intent == j {
      assert branch.0.intents[j] == s.intents[j];
    }
  }

  /** A switched-off intent has no open proposal, and nothing can be proposed, approved or executed under it. */
  lemma RetiredIsQuiet(env: Env, s: State, a: Address, ins: Instruction)
    requires Inv(env, s) && a in s.intents && s.intents[a].approved == 0
    requires match ins
             case Propose(j, _, _, _, _, _) => j == a
             case Approve(key, _, _, _) => key.intent == a
             case Cancel(key, _, _, _) => key.intent == a
             case Execute(key, _, _) => key.intent == a
             case _ => false
    ensures forall k :: k in s.proposals && k.intent == a ==> !Open(s.proposals[k])
    ensures Apply(env, s, ins).Err?
  {
    hide Inv, ExecuteBranch, Signed, Params.Validated, AfterApprove, AfterCancel, VoteCheck;
    NoneOpenUnder(env, s, a);
  }

  lemma NoneOpenUnder(env: Env, s: State, a: Address)
    requires Inv(env, s) && a in s.intents && s.intents[a].approved == 0
    ensures forall k :: k in s.proposals && k.intent == a ==> !Open(s.proposals[k])
  {
    hide ProposalsOk, EffectsOk, OpenKeys, Open;
    forall k | k in s.proposals && k.intent == a
      ensures !Open(s.proposals[k])
    {
      if Open(s.proposals[k]) {
        OpenNamed(env, s, k);
        NoneOpen(s.proposals, a, k);
      }
    }
  }

  // ---- Over runs ----

  /** Nothing between `a` and `b` replaces the intent at `j`. */
  predicate Unreplaced(run: Run, j: Address, a: nat, b: nat)
    requires a <= b <= |run.steps|
  {
    forall m :: a <= m < b ==> !Replaces(run.env, At(run, m), run.steps[m], j)
  }

  /** When a body cannot be longer than the parameters allow, nothing replaces an intent at the wallet's own seeds. */
  lemma NoRoomNoReplacement(run: Run, j: Address, a: nat, b: nat)
    requires a <= b <= |run.steps| && run.env.paramsCap <= run.env.intentBodySize && OwnSeed(run.env, j)
    ensures Unreplaced(run, j, a, b)
  {
    hide At, OwnSeed;
    forall m | a <= m < b
      ensures !Replaces(run.env, At(run, m), run.steps[m], j)
    {
      NoReplacement(run.env, At(run, m), run.steps[m], j);
    }
  }

  lemma NoReplacement(env: Env, s: State, ins: Instruction, j: Address)
    requires env.paramsCap <= env.intentBodySize && OwnSeed(env, j)
    ensures !Replaces(env, s, ins, j)
  {
    hide TargetCheck, Close, OwnSeed;
    if Replaces(env, s, ins, j) {
      UpdateNeedsRoom(env, s, s.proposals[ins.key].params, ins.remaining);
    }
  }

  /** Once switched off, an intent stays off until it is replaced. */
  lemma {:induction false} RetiredForever(run: Run, j: Address, a: nat, b: nat)
    requires Started(run) && a <= b <= |run.steps| && Unreplaced(run, j, a, b)
    requires j in At(run, a).intents && At(run, a).intents[j].approved == 0
    ensures j in At(run, b).intents && At(run, b).intents[j].approved == 0
    ensures At(run, b).intents[j].def == At(run, a).intents[j].def
    decreases b
  {
    hide Started, At, Inv, Next, Replaces, IntentFrozen, ProposalStep;
    if a < b {
      RetiredForever(run, j, a, b - 1);
      StepOf(run, b - 1, AnyKey());
      IntentStep(run.env, At(run, b - 1), run.steps[b - 1], At(run, b), j);
    }
  }

  /** Of all the accounts that name this wallet, wherever they are, only the one at `j` removes. */
  predicate OnlyRemoverIn(env: Env, s: State, j: Address)
  {
    forall a :: a in s.intents && Names(env, s.intents[a]) && s.intents[a].def.intentType == RemoveIntent ==> a == j
  }

  predicate OnlyRemover(run: Run, j: Address, a: nat, b: nat)
    requires a <= b <= |run.steps|
  {
    forall m :: a <= m < b ==> OnlyRemoverIn(run.env, At(run, m), j)
  }

  /** The only removing intent cannot be switched off: a removal cannot target the intent it runs under. */
  lemma {:induction false} OnlyRemoverStays(run: Run, j: Address, a: nat, b: nat)
    requires Started(run) && a <= b <= |run.steps| && Unreplaced(run, j, a, b) && OnlyRemover(run, j, a, b)
    requires j in At(run, a).intents
    ensures j in At(run, b).intents && At(run, b).intents[j].approved == At(run, a).intents[j].approved
    decreases b
  {
    hide Started, At, Inv, Next, Replaces, IntentFrozen, ProposalStep;
    if a < b {
      OnlyRemoverStays(run, j, a, b - 1);
      StepOf(run, b - 1, AnyKey());
      IntentStep(run.env, At(run, b - 1), run.steps[b - 1], At(run, b), j);
    }
  }

  // ---- Accounts outside the wallet's seeds ----

  /** No account outside the wallet's own seeds names the wallet. */
  predicate NoOutsiders(env: Env, s: State)
  {
    forall a :: a in s.intents && Names(env, s.intents[a]) ==> OwnSeed(env, a)
  }

  /** The intent an instruction runs under. */
  function IntentOf(ins: Instruction): (r: Option<Address>)
  {
    match ins
    case Propose(a, _, _, _, _, _) => Some(a)
    case Approve(key, _, _, _) => Some(key.intent)
    case Cancel(key, _, _, _) => Some(key.intent)
    case Execute(key, _, _) => Some(key.intent)
    case _ => None
  }

  /** What passes the account constraints names the wallet; it need not be at the wallet's seeds. */
  lemma RunsUnderNamed(env: Env, s: State, ins: Instruction)
    requires IntentOf(ins).Some? && Apply(env, s, ins).Ok?
    ensures IntentOf(ins).value in s.intents && Names(env, s.intents[IntentOf(ins).value])
  {
    hide Signed, Params.Validated, AfterApprove, AfterCancel, VoteCheck, Executing, LoadProposal;
  }

  /** If no account outside the wallet's seeds names it, all that succeeds runs under an intent at its own seeds. */
  lemma RunsUnderOwnSeeds(env: Env, s: State, ins: Instruction)
    requires NoOutsiders(env, s) && IntentOf(ins).Some? && Apply(env, s, ins).Ok?
    ensures OwnSeed(env, IntentOf(ins).value)
  {
    hide OwnSeed, Apply;
    RunsUnderNamed(env, s, ins);
  }

  /** Of the intents at the wallet's own seeds only the one at `j` removes. */
  predicate OnlyIndexedRemoverIn(env: Env, s: State, j: Address)
  {
    forall a :: a in s.intents && Names(env, s.intents[a]) && OwnSeed(env, a) && a != j ==>
      s.intents[a].def.intentType != RemoveIntent
  }

  /** If the only removing intent at the wallet's seeds is switched off, an account outside the seeds did it. */
  lemma SwitchedOffFromOutside(env: Env, s: State, ins: Instruction, t: State, j: Address)
    requires Inv(env, s) && t == Next(env, s, ins) && j in s.intents && !Replaces(env, s, ins, j)
    requires OnlyIndexedRemoverIn(env, s, j)
    ensures j in t.intents
    ensures t.intents[j].approved != s.intents[j].approved ==>
              && ins.Execute? && ins.key.intent in s.intents && Names(env, s.intents[ins.key.intent])
              && !OwnSeed(env, ins.key.intent) && !NoOutsiders(env, s)
  {
    hide Inv, Next, Replaces, OwnSeed;
    IntentStep(env, s, ins, t, j);
  }

  /** As long as no account outside the seeds names the wallet, the only removing intent at its seeds stays on. */
  lemma IndexedRemoverStays(run: Run, j: Address, a: nat, b: nat)
    requires Started(run) && a <= b <= |run.steps| && Unreplaced(run, j, a, b) && j in At(run, a).intents
    requires forall m :: a <= m < b ==> NoOutsiders(run.env, At(run, m)) && OnlyIndexedRemoverIn(run.env, At(run, m), j)
    ensures j in At(run, b).intents && At(run, b).intents[j].approved == At(run, a).intents[j].approved
  {
    hide Started, At, Unreplaced, OwnSeed;
    forall m | a <= m < b
      ensures OnlyRemoverIn(run.env, At(run, m), j)
    {
      assert NoOutsiders(run.env, At(run, m)) && OnlyIndexedRemoverIn(run.env, At(run, m), j);
    }
    OnlyRemoverStays(run, j, a, b);
  }

  /** As long as no account outside the seeds names the wallet, all it ever executes runs under its own seeds. */
  lemma {:induction false} EffectsUnderSeeds(run: Run, n: nat)
    requires Started(run) && n <= |run.steps|
    requires forall m :: 0 <= m < n ==> NoOutsiders(run.env, At(run, m))
    ensures forall i :: 0 <= i < |At(run, n).effects| ==> OwnSeed(run.env, At(run, n).effects[i].key.intent)
  {
    hide Started, At, Inv, Next, Apply, OwnSeed, NoOutsiders, ProposalStep, IntentFrozen, WalletStep;
    if n == 0 {
      StartsEmpty(run);
    } else {
      EffectsUnderSeeds(run, n - 1);
      var (s, ins) := (At(run, n - 1), run.steps[n - 1]);
      StepOf(run, n - 1, AnyKey());
      EffectStep(run.env, s, ins, At(run, n));
      assert NoOutsiders(run.env, s);
      if IntentOf(ins).Some? && Apply(run.env, s, ins).Ok? {
        RunsUnderOwnSeeds(run.env, s, ins);
      }
    }
  }

  // ---- Bodies without approvers ----

  /** The addresses of the meta-intents a wallet is created with. */
  predicate MetaSeed(env: Env, a: Address)
  {
    a == env.intentAddress(0) || a == env.intentAddress(1) || a == env.intentAddress(2)
  }

  /** Every account that names the wallet, except the three meta-intents it was created with, is without approvers. */
  predicate Voiceless(env: Env, s: State)
  {
    forall a :: a in s.intents && Names(env, s.intents[a]) && !MetaSeed(env, a) ==> s.intents[a].def.approvers == []
  }

  /** No string that fits the parameters decodes to a body with approvers. */
  ghost predicate CutShort(env: Env)
  {
    forall b: Bytes :: |b| <= env.paramsCap ==> env.decodeIntent(b).def.approvers == []
  }

  /** The same of this wallet's executions and of those elsewhere. */
  ghost predicate BodiesCutShort(run: Run)
  {
    && CutShort(run.env)
    && forall m :: 0 <= m < |run.steps| && run.steps[m].Elsewhere? && Names(run.env, run.steps[m].body) ==>
         run.steps[m].body.def.approvers == []
  }

  /** A wallet is created that way if the accounts that already name it are. */
  lemma CreatedVoiceless(env: Env, existing: map<Address, Intent>, taken: set<Key>, clock: i64, args: CreateArgs)
    requires forall a :: a in existing && Names(env, existing[a]) ==> existing[a].def.approvers == []
    ensures Voiceless(env, Initial(env, existing, taken, clock, args))
  {
    hide MetaIntent;
  }

  lemma SetVoiceless(env: Env, s: State, t: State, a: Address, body: Intent)
    requires Voiceless(env, s) && t.intents == s.intents[a := body]
    requires body.def.approvers == [] || (a in s.intents && body.def == s.intents[a].def)
    ensures Voiceless(env, t)
  {
    hide MetaSeed;
  }

  lemma BranchVoiceless(env: Env, s: State, def: Definition, params: Bytes, declared: Interpreter.Declared,
                        remaining: seq<Interpreter.AccountView>)
    requires Voiceless(env, s) && ExecuteBranch(env, s, def, params, declared, remaining).Ok?
    requires |params| <= env.paramsCap && CutShort(env)
    ensures Voiceless(env, ExecuteBranch(env, s, def, params, declared, remaining).value.0)
  {
    hide Interpreter.Executed, Voiceless;
    var t := ExecuteBranch(env, s, def, params, declared, remaining).value.0;
    match def.intentType {
      case AddIntent =>
        SetVoiceless(env, s, t, env.intentAddress(t.intentIndex), AddedBody(env, params));
      case RemoveIntent =>
        var a := env.intentAddress(params[0]);
        SetVoiceless(env, s, t, a, s.intents[a].(approved := 0));
      case UpdateIntent =>
        SetVoiceless(env, s, t, env.intentAddress(params[0]), env.decodeIntent(params[1..]));
      case Custom =>
    }
  }

  lemma VoicelessStep(env: Env, s: State, ins: Instruction, t: State)
    requires Inv(env, s) && t == Next(env, s, ins) && Voiceless(env, s) && CutShort(env)
    requires ins.Elsewhere? && Names(env, ins.body) ==> ins.body.def.approvers == []
    ensures Voiceless(env, t)
  {
    hide Inv, OwnSeed, MetaSeed, CutShort, ApplyExecute, Signed, Params.Validated, AfterApprove, AfterCancel,
         LoadProposal;
    if ins.Execute? && Apply(env, s, ins).Ok? {
      hide Voiceless;
      VoicelessExecute(env, s, ins, t);
    }
  }

  lemma VoicelessExecute(env: Env, s: State, ins: Instruction, t: State)
    requires Inv(env, s) && Voiceless(env, s) && CutShort(env)
    requires ins.Execute? && ApplyExecute(env, s, ins.key, ins.declared, ins.remaining) == Ok(t)
    ensures Voiceless(env, t)
  {
    hide Inv, ExecuteBranch, IntentsOk, Voiceless, CutShort, LoadIntent;
    ExecuteProposals(env, s, ins.key, ins.declared, ins.remaining);
    RecordsOk(env, s, ins.key);
    BranchVoiceless(env, s, s.intents[ins.key.intent].def, s.proposals[ins.key].params, ins.declared, ins.remaining);
    BranchKeeps(env, s, ins.key, ins.declared, ins.remaining);
    var branch := ExecuteBranch(env, s, s.intents[ins.key.intent].def, s.proposals[ins.key].params, ins.declared,
                                ins.remaining).value;
    CloseVoiceless(env, branch.0, ins.key, branch.1);
  }

  lemma CloseVoiceless(env: Env, s: State, key: Key, effect: Effect)
    requires Voiceless(env, s) && key in s.proposals && key.intent in s.intents
    ensures Voiceless(env, Close(s, key, effect))
  {}

  /** An approved proposal has approvers. */
  lemma ApprovedHasApprovers(env: Env, s: State, key: Key)
    requires Inv(env, s) && key in s.proposals && s.proposals[key].status == Approved
    ensures key.intent in s.intents && Names(env, s.intents[key.intent]) && s.intents[key.intent].def.approvers != []
  {
    hide Ballot.Proper, Count, ParamsOk, IntentsOk, EffectsOk, ProposalsOk;
    OpenNamed(env, s, key);
    RecordsOk(env, s, key);
  }

  lemma {:induction false} StaysVoiceless(run: Run, n: nat)
    requires Started(run) && n <= |run.steps| && Voiceless(run.env, run.start) && BodiesCutShort(run)
    ensures Voiceless(run.env, At(run, n))
  {
    hide Started, Inv, Next, Voiceless, CutShort, ProposalStep, IntentFrozen, WalletStep;
    if n > 0 {
      StaysVoiceless(run, n - 1);
      StepOf(run, n - 1, AnyKey());
      VoicelessStep(run.env, At(run, n - 1), run.steps[n - 1], At(run, n));
    }
  }

  /**
   When, as with the program's own sizes, no body that fits the parameters reaches its approvers, then in every run
   every successful execution is under one of the three meta-intents.
   */
  lemma OnlyMetaIntentsExecute(run: Run, n: nat)
    requires Started(run) && Voiceless(run.env, run.start) && BodiesCutShort(run)
    requires n < |run.steps| && run.steps[n].Execute? && Succeeds(run, n)
    ensures MetaSeed(run.env, run.steps[n].key.intent)
  {
    ExecuteNeedsApproved(run, n);
    hide Started, At, Inv, Succeeds, BodiesCutShort;
    Reachable(run, n);
    StaysVoiceless(run, n);
    ApprovedHasApprovers(run.env, At(run, n), run.steps[n].key);
  }
}
