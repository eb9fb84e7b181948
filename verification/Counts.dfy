/** The open-proposal count of an intent: it is exact unless a raw body claims open proposals of its own. */
module Counts {
  import opened Bytes
  import opened Definition
  import opened Governance
  import opened Invariant
  import opened Runs
  import Interpreter
  import Params

  /** The intent at `a`, if it names the wallet, counts exactly its open proposals. */
  predicate CountExact(env: Env, s: State, a: Address)
  {
    a in s.intents && Names(env, s.intents[a]) ==> s.intents[a].activeProposalCount == |OpenKeys(s.proposals, a)|
  }

  /** A raw body for this wallet claims no open proposals. */
  predicate BodyOk(env: Env, body: Intent)
  {
    Names(env, body) ==> body.activeProposalCount == 0
  }

  /** The account an instruction writes a raw body to, and the body. */
  function Installed(env: Env, s: State, ins: Instruction): (r: Option<(Address, Intent)>)
  {
    match ins
    case Elsewhere(a, body) => Some((a, body))
    case Execute(key, _, _) =>
      if key !in s.proposals || key.intent !in s.intents then None
      else InstalledBy(env, s, s.intents[key.intent].def.intentType, s.proposals[key].params)
    case _ => None
  }

  function InstalledBy(env: Env, s: State, intentType: IntentType, params: Bytes): (r: Option<(Address, Intent)>)
  {
    match intentType
    case AddIntent =>
      if s.intentIndex < 255 then Some((env.intentAddress(s.intentIndex + 1), AddedBody(env, params))) else None
    case UpdateIntent =>
      if |params| > 1 then Some((env.intentAddress(params[0]), env.decodeIntent(params[1..]))) else None
    case _ => None
  }

  /** What the instruction installs at `a`, if anything, claims no open proposals. */
  predicate InstallsAt(env: Env, s: State, ins: Instruction, a: Address)
  {
    var w := Installed(env, s, ins);
    w.Some? && w.value.0 == a ==> BodyOk(env, w.value.1)
  }

  // ---- One instruction ----

  lemma WrittenCount(env: Env, s: State, t: State, b: Address, body: Intent, a: Address)
    requires CountExact(env, s, a) && OpenKeys(s.proposals, b) == {}
    requires t.intents == s.intents[b := body] && t.proposals == s.proposals
    ensures CountExact(env, t, a) <==> (a == b ==> BodyOk(env, body))
  {
    hide OpenKeys;
  }

  lemma ReleasedCount(env: Env, s: State, t: State, key: Key, q: Proposal, a: Address)
    requires key in s.proposals && Open(s.proposals[key]) && !Open(q) && key.intent in s.intents
    requires t.proposals == s.proposals[key := q] && t.intents == Release(s.intents, key.intent)
    requires Names(env, s.intents[key.intent])
    requires s.intents[key.intent].activeProposalCount >= 1
    ensures CountExact(env, t, a) <==> CountExact(env, s, a)
  {
    hide OpenKeys;
    OpenKeysClose(s.proposals, key, q, a);
  }

  lemma ProposeCount(env: Env, s: State, ins: Instruction, t: State, a: Address)
    requires CountExact(env, s, a) && ins.Propose? && Apply(env, s, ins) == Ok(t)
    ensures CountExact(env, t, a)
  {
    hide Signed, Params.Validated, OpenKeys;
    var key := Key(ins.intent, s.proposalIndex);
    OpenKeysNew(s.proposals, key, t.proposals[key], a);
  }

  lemma ApproveCount(env: Env, s: State, ins: Instruction, t: State, a: Address)
    requires CountExact(env, s, a) && ins.Approve? && Apply(env, s, ins) == Ok(t)
    ensures CountExact(env, t, a)
  {
    hide VoteCheck, OpenKeys;
    OpenKeysStay(s.proposals, ins.key, t.proposals[ins.key], a);
  }

  lemma CancelCount(env: Env, s: State, ins: Instruction, t: State, a: Address)
    requires Inv(env, s) && CountExact(env, s, a) && ins.Cancel? && Apply(env, s, ins) == Ok(t)
    ensures CountExact(env, t, a)
  {
    hide Inv, VoteCheck, OpenKeys;
    var q := t.proposals[ins.key];
    if q.status == Cancelled {
      OpenIsCounted(env, s, ins.key);
      ReleasedCount(env, s, t, ins.key, q, a);
    } else {
      OpenKeysStay(s.proposals, ins.key, q, a);
    }
  }

  lemma OpenIsCounted(env: Env, s: State, key: Key)
    requires Inv(env, s) && key in s.proposals && Open(s.proposals[key])
    ensures key.intent in s.intents && Names(env, s.intents[key.intent])
    ensures s.intents[key.intent].activeProposalCount >= 1
  {
    hide ProposalsOk, EffectsOk, Open;
    OpenNamed(env, s, key);
    assert key in OpenKeys(s.proposals, key.intent);
  }

  lemma CleanupCount(env: Env, s: State, ins: Instruction, t: State, a: Address)
    requires CountExact(env, s, a) && ins.Cleanup? && Apply(env, s, ins) == Ok(t)
    ensures CountExact(env, t, a)
  {
    hide OpenKeys;
    OpenKeysRemove(s.proposals, ins.key, a);
  }

  lemma ExecuteCount(env: Env, s: State, ins: Instruction, t: State, a: Address)
    requires Inv(env, s) && CountExact(env, s, a) && ins.Execute?
    requires ApplyExecute(env, s, ins.key, ins.declared, ins.remaining) == Ok(t)
    ensures CountExact(env, t, a) <==> InstallsAt(env, s, ins, a)
  {
    hide Inv, ExecuteBranch, IntentsOk, OpenKeys, InstallsAt, CountExact, BranchFrame;
    var key := ins.key;
    BranchKeeps(env, s, key, ins.declared, ins.remaining);
    BranchCount(env, s, key, ins.declared, ins.remaining, a);
    OpenIsCounted(env, s, key);
    var branch := ExecuteBranch(env, s, s.intents[key.intent].def, s.proposals[key].params, ins.declared,
                                ins.remaining).value;
    FrameOf(s, branch.0, key);
    ReleasedCount(env, branch.0, t, key, t.proposals[key], a);
  }

  lemma FrameOf(s: State, mid: State, key: Key)
    requires BranchFrame(s, mid, key)
    ensures mid.proposals == s.proposals && key.intent in mid.intents && key.intent in s.intents
    ensures mid.intents[key.intent] == s.intents[key.intent]
  {
    hide Open;
  }

  lemma BranchCount(env: Env, s: State, key: Key, declared: Interpreter.Declared,
                    remaining: seq<Interpreter.AccountView>, a: Address)
    requires Inv(env, s) && CountExact(env, s, a) && key in s.proposals && key.intent in s.intents
    requires ExecuteBranch(env, s, s.intents[key.intent].def, s.proposals[key].params, declared, remaining).Ok?
    ensures CountExact(env, ExecuteBranch(env, s, s.intents[key.intent].def, s.proposals[key].params, declared,
                                          remaining).value.0, a)
            <==> InstallsAt(env, s, Execute(key, declared, remaining), a)
  {
    hide Inv, Interpreter.Executed, CountExact, BodyOk;
    var params := s.proposals[key].params;
    var t := ExecuteBranch(env, s, s.intents[key.intent].def, params, declared, remaining).value.0;
    match s.intents[key.intent].def.intentType {
      case AddIntent =>
        var b := env.intentAddress(t.intentIndex);
        NoneUnder(env, s, b);
        WrittenCount(env, s, t, b, AddedBody(env, params), a);
      case RemoveIntent =>
        var b := env.intentAddress(params[0]);
        NoneUnder(env, s, b);
        WrittenCount(env, s, t, b, s.intents[b].(approved := 0), a);
        IdleIsBody(env, s.intents[b]);
      case UpdateIntent =>
        var b := env.intentAddress(params[0]);
        NoneUnder(env, s, b);
        WrittenCount(env, s, t, b, env.decodeIntent(params[1..]), a);
      case Custom =>
    }
  }

  lemma IdleIsBody(env: Env, intent: Intent)
    requires intent.activeProposalCount == 0
    ensures BodyOk(env, intent.(approved := 0))
  {}

  /**
   An instruction keeps the count at an address exact exactly when the raw body it installs there, if any, claims no
   open proposals: the program copies that body unchecked.
   */
  lemma CountKeptIff(env: Env, s: State, ins: Instruction, a: Address)
    requires Inv(env, s) && CountExact(env, s, a) && Apply(env, s, ins).Ok?
    ensures CountExact(env, Next(env, s, ins), a) <==> InstallsAt(env, s, ins, a)
  {
    hide Inv, CountExact, BodyOk, ApplyPropose, ApplyApprove, ApplyCancel, ApplyExecute, ApplyCleanup;
    var t := Next(env, s, ins);
    match ins {
      case Tick(_) => SameCount(env, s, t, a);
      case Claim(_) => SameCount(env, s, t, a);
      case Elsewhere(b, body) =>
        NoneUnder(env, s, b);
        WrittenCount(env, s, t, b, body, a);
      case Propose(_, _, _, _, _, _) => ProposeCount(env, s, ins, t, a);
      case Approve(_, _, _, _) => ApproveCount(env, s, ins, t, a);
      case Cancel(_, _, _, _) => CancelCount(env, s, ins, t, a);
      case Execute(_, _, _) => ExecuteCount(env, s, ins, t, a);
      case Cleanup(_, _) => CleanupCount(env, s, ins, t, a);
    }
  }

  lemma SameCount(env: Env, s: State, t: State, a: Address)
    requires t.intents == s.intents && t.proposals == s.proposals
    ensures CountExact(env, t, a) <==> CountExact(env, s, a)
  {
    hide OpenKeys;
  }

  // ---- Runs ----

  /** Nothing installed at `a`, by this wallet or elsewhere, claims open proposals. */
  predicate InstallsWell(run: Run, a: Address)
  {
    forall n :: 0 <= n < |run.steps| && Succeeds(run, n) ==> InstallsAt(run.env, At(run, n), run.steps[n], a)
  }

  /** The count at an address is exact throughout a run exactly when nothing installed there claims open proposals. */
  lemma CountConservedIff(run: Run, a: Address)
    requires Started(run) && CountExact(run.env, run.start, a)
    ensures AlwaysExact(run, a) <==> InstallsWell(run, a)
  {
    hide Started, CountExact, At, Inv, InstallsWell;
    if InstallsWell(run, a) {
      forall n | 0 <= n <= |run.steps|
        ensures CountExact(run.env, At(run, n), a)
      {
        CountConserved(run, a, n);
      }
    }
    if AlwaysExact(run, a) {
      ExactInstallsWell(run, a);
    }
  }

  predicate AlwaysExact(run: Run, a: Address)
  {
    forall n :: 0 <= n <= |run.steps| ==> CountExact(run.env, At(run, n), a)
  }

  lemma ExactInstallsWell(run: Run, a: Address)
    requires Started(run) && AlwaysExact(run, a)
    ensures InstallsWell(run, a)
  {
    hide Started, CountExact, Inv, InstallsAt, Apply;
    forall n | 0 <= n < |run.steps| && Succeeds(run, n)
      ensures InstallsAt(run.env, At(run, n), run.steps[n], a)
    {
      Reachable(run, n);
      assert CountExact(run.env, At(run, n), a) && CountExact(run.env, At(run, n + 1), a);
      CountKeptIff(run.env, At(run, n), run.steps[n], a);
    }
  }

  lemma {:induction false} CountConserved(run: Run, a: Address, n: nat)
    requires Started(run) && CountExact(run.env, run.start, a) && InstallsWell(run, a) && n <= |run.steps|
    ensures CountExact(run.env, At(run, n), a)
  {
    hide Started, CountExact, InstallsAt, Apply, Inv;
    if n > 0 {
      CountConserved(run, a, n - 1);
      Reachable(run, n - 1);
      if Succeeds(run, n - 1) {
        CountKeptIff(run.env, At(run, n - 1), run.steps[n - 1], a);
      } else {
        FailedKeeps(run, n - 1);
      }
    }
  }

  lemma FailedKeeps(run: Run, n: nat)
    requires n < |run.steps| && !Succeeds(run, n)
    ensures At(run, n + 1) == At(run, n)
  {
    hide Apply;
  }
}
