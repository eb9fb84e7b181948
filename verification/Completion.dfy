/** A quorum suffices: what enough signers agree on can be carried out, under whatever intent names the wallet. */
module Completion {
  import opened Acceptance
  import opened Bytes
  import opened Ballots
  import opened Definition
  import opened Governance
  import opened Invariant
  import opened Neighbours
  import opened Steps
  import Interpreter
  import MessageText
  import Params

  /** A proposal to be carried through: `sign` gives the signature of a key on a message. */
  datatype Plan = Plan(intent: Address, payer: Address, proposer: Address, expiry: i64, params: Bytes,
                       sign: (Address, Bytes) -> Bytes)

  function PlanContext(s: State, plan: Plan, action: MessageText.Action): (ctx: MessageText.Context)
  {
    MessageText.Context(plan.expiry, action, s.name, s.proposalIndex)
  }

  function Signature(env: Env, s: State, plan: Plan, action: MessageText.Action, signer: Address): (r: Bytes)
    requires plan.intent in s.intents
  {
    match MessageText.Message(env, PlanContext(s, plan, action), s.intents[plan.intent].def, plan.params)
    case Ok(m) => plan.sign(signer, m)
    case Err(_) => []
  }

  /** The message of `action` can be built, and `signer` signs it. */
  predicate CanSign(env: Env, s: State, plan: Plan, action: MessageText.Action, signer: Address)
    requires plan.intent in s.intents
  {
    var m := MessageText.Message(env, PlanContext(s, plan, action), s.intents[plan.intent].def, plan.params);
    m.Ok? && env.verifies(signer, plan.sign(signer, m.value), m.value)
  }

  /** How many approvals approve a proposal; a threshold of zero still takes one. */
  function Quorum(def: Definition): (q: byte)
  {
    if def.approvalThreshold == 0 then 1 else def.approvalThreshold
  }

  /** A listed proposer and the first approvers up to the quorum sign, and there is room and time left. */
  predicate Feasible(env: Env, s: State, plan: Plan)
  {
    && plan.intent in s.intents && Names(env, s.intents[plan.intent])
    && var intent := s.intents[plan.intent];
    && intent.approved != 0 && intent.activeProposalCount < 0xffff && s.proposalIndex < 0xffff_ffff_ffff_ffff
    && Key(plan.intent, s.proposalIndex) !in s.taken
    && s.clock < plan.expiry && s.clock + intent.def.timelockSeconds < 0x8000_0000_0000_0000
    && (intent.def.intentType == Custom ==> Params.Validated(intent.def.params, plan.params, env.utf8).Ok?)
    && |plan.params| <= env.paramsCap
    && plan.proposer in intent.def.proposers && CanSign(env, s, plan, MessageText.Propose, plan.proposer)
    && Quorum(intent.def) <= |intent.def.approvers| && Quorum(intent.def) <= 16
    && forall i :: 0 <= i < Quorum(intent.def) ==>
         CanSign(env, s, plan, MessageText.Approve, intent.def.approvers[i])
  }

  function PlanKey(s: State, plan: Plan): (key: Key)
  {
    Key(plan.intent, s.proposalIndex)
  }

  /** The proposal after the first `k` approvers have approved. */
  predicate Collected(env: Env, s: State, plan: Plan, k: nat, t: State)
    requires Feasible(env, s, plan)
  {
    var (u, key, def) := (Proposed(s, plan.intent, plan.payer, plan.proposer, plan.params), PlanKey(s, plan),
                          s.intents[plan.intent].def);
    && key in t.proposals && t == u.(proposals := u.proposals[key := t.proposals[key]])
    && var p := t.proposals[key];
    && p == u.proposals[key].(status := p.status, approvedAt := p.approvedAt, ballot := p.ballot)
    && p.ballot.Proper(|def.approvers|) && Count(p.ballot.approvals) == k
    && (forall i :: k <= i < 16 ==> !Has(p.ballot.approvals, i))
    && if k < Quorum(def) then p.status == Active else p.status == Approved && p.approvedAt == s.clock
  }

  function ProposeStep(env: Env, s: State, plan: Plan): (ins: Instruction)
    requires plan.intent in s.intents
  {
    Instruction.Propose(plan.intent, plan.payer, plan.expiry, plan.proposer,
                        Signature(env, s, plan, MessageText.Propose, plan.proposer), plan.params)
  }

  function ApproveStep(env: Env, s: State, plan: Plan, k: byte): (ins: Instruction)
    requires plan.intent in s.intents && k < |s.intents[plan.intent].def.approvers|
  {
    Instruction.Approve(PlanKey(s, plan), plan.expiry, k,
                        Signature(env, s, plan, MessageText.Approve, s.intents[plan.intent].def.approvers[k]))
  }

  lemma ProposeSucceeds(env: Env, s: State, plan: Plan)
    requires Inv(env, s) && Feasible(env, s, plan)
    ensures plan.intent in s.intents
    ensures Collected(env, s, plan, 0, Next(env, s, ProposeStep(env, s, plan)))
  {
    hide Inv, Feasible, Collected, Proposed, Next, Apply, ProposeStep;
    FeasibleIntent(env, s, plan);
    ProposePasses(env, s, plan);
    NextIs(env, s, ProposeStep(env, s, plan));
    ProposedCollects(env, s, plan);
  }

  lemma NextIs(env: Env, s: State, ins: Instruction)
    requires Apply(env, s, ins).Ok?
    ensures Next(env, s, ins) == Apply(env, s, ins).value
  {
    hide Apply;
  }

  lemma ProposedCollects(env: Env, s: State, plan: Plan)
    requires Feasible(env, s, plan)
    ensures Collected(env, s, plan, 0, Proposed(s, plan.intent, plan.payer, plan.proposer, plan.params))
  {
    hide CanSign, Params.Validated, Count, Has, Ballot.Proper;
    EmptyBallot(|s.intents[plan.intent].def.approvers|);
    EmptyBits();
  }

  lemma ProposePasses(env: Env, s: State, plan: Plan)
    requires Inv(env, s) && Feasible(env, s, plan)
    ensures plan.intent in s.intents
    ensures Apply(env, s, ProposeStep(env, s, plan))
            == Ok(Proposed(s, plan.intent, plan.payer, plan.proposer, plan.params))
  {
    hide Inv, Feasible, Proposed, ProposeCheck, Signature, ApplyTick, ApplyApprove, ApplyCancel, ApplyExecute,
      ApplyCleanup, ApplyElsewhere, ApplyClaim;
    ProposeChecked(env, s, plan);
  }

  lemma ProposeChecked(env: Env, s: State, plan: Plan)
    requires Inv(env, s) && Feasible(env, s, plan)
    ensures plan.intent in s.intents
    ensures ProposeCheck(env, s, plan.intent, plan.expiry, plan.proposer,
                         Signature(env, s, plan, MessageText.Propose, plan.proposer), plan.params)
            == Ok(s.intents[plan.intent])
  {
    KeysBelow(env, s);
    hide Inv, MessageText.Message, MessageText.BuildError, Params.Validated;
  }

  lemma EmptyBits()
    ensures forall i :: 0 <= i < 16 ==> !Has(0, i)
  {
    EmptyBallot(0);
    hide Has;
  }

  /** One more approval. */
  lemma ApproveSucceeds(env: Env, s: State, plan: Plan, k: byte, t: State)
    requires Feasible(env, s, plan) && k < Quorum(s.intents[plan.intent].def)
    requires Collected(env, s, plan, k, t)
    ensures Collected(env, s, plan, k + 1, Next(env, t, ApproveStep(env, s, plan, k)))
  {
    hide Feasible, Collected, Approving, Next, Apply, ApproveStep;
    FeasibleIntent(env, s, plan);
    ApprovePasses(env, s, plan, k, t);
    NextIs(env, t, ApproveStep(env, s, plan, k));
    ApproveCollects(env, s, plan, k, t);
  }

  lemma ApproveCollects(env: Env, s: State, plan: Plan, k: byte, t: State)
    requires Feasible(env, s, plan)
             && k < Quorum(s.intents[plan.intent].def) <= |s.intents[plan.intent].def.approvers|
    requires Quorum(s.intents[plan.intent].def) <= 16 && Collected(env, s, plan, k, t)
    requires PlanKey(s, plan) in t.proposals && plan.intent in t.intents
    ensures Collected(env, s, plan, k + 1, Approving(t, PlanKey(s, plan), k))
  {
    hide Feasible, Count, Has, Ballot.Proper, Ballot.Approve;
    FeasibleIntent(env, s, plan);
    ApproveEffect(t.proposals[PlanKey(s, plan)].ballot, k, |s.intents[plan.intent].def.approvers|);
    forall j | 0 <= j < 16
      ensures Has(t.proposals[PlanKey(s, plan)].ballot.Approve(k).approvals, j)
              <==> j == k || Has(t.proposals[PlanKey(s, plan)].ballot.approvals, j)
    {
      ApproveBits(t.proposals[PlanKey(s, plan)].ballot, k, j);
    }
  }

  lemma ApprovePasses(env: Env, s: State, plan: Plan, k: byte, t: State)
    requires Feasible(env, s, plan) && k < Quorum(s.intents[plan.intent].def)
    requires Collected(env, s, plan, k, t)
    ensures PlanKey(s, plan) in t.proposals && plan.intent in t.intents
    ensures Apply(env, t, ApproveStep(env, s, plan, k)) == Ok(Approving(t, PlanKey(s, plan), k))
  {
    hide Count, Has, Ballot.Proper, Approving, MessageText.Message, MessageText.BuildError, Params.Validated,
      ApplyTick, ApplyPropose, ApplyCancel, ApplyExecute, ApplyCleanup, ApplyElsewhere, ApplyClaim;
    assert CanSign(env, s, plan, MessageText.Approve, s.intents[plan.intent].def.approvers[k]);
  }

  /** Only instructions on this wallet and the passing of time, and nothing is executed. */
  predicate Quiet(steps: seq<Instruction>)
  {
    forall i :: 0 <= i < |steps| ==> (OfProgram(steps[i]) || steps[i].Tick?) && !steps[i].Execute?
  }

  /** Proposing, then approving slot by slot. */
  lemma {:induction false} Collect(env: Env, s: State, plan: Plan, k: nat) returns (steps: seq<Instruction>)
    requires Inv(env, s) && Feasible(env, s, plan) && k <= Quorum(s.intents[plan.intent].def)
    ensures Quiet(steps) && Collected(env, s, plan, k, After(env, s, steps))
  {
    hide Inv, Feasible, Collected, Next;
    if k == 0 {
      ProposeSucceeds(env, s, plan);
      steps := [ProposeStep(env, s, plan)];
      AfterOne(env, s, [], ProposeStep(env, s, plan));
      assert [] + steps == steps;
    } else {
      var fewer := Collect(env, s, plan, k - 1);
      FeasibleIntent(env, s, plan);
      ApproveSucceeds(env, s, plan, k - 1, After(env, s, fewer));
      steps := fewer + [ApproveStep(env, s, plan, k - 1)];
      AfterOne(env, s, fewer, ApproveStep(env, s, plan, k - 1));
    }
  }

  lemma FeasibleIntent(env: Env, s: State, plan: Plan)
    requires Feasible(env, s, plan)
    ensures plan.intent in s.intents && Names(env, s.intents[plan.intent])
    ensures var def := s.intents[plan.intent].def; Quorum(def) <= |def.approvers| && Quorum(def) <= 16
  {
    hide CanSign, Params.Validated;
  }

  /** The state in which a plan can be executed. */
  predicate Unlocked(env: Env, s: State, plan: Plan, t: State)
    requires Feasible(env, s, plan)
  {
    var (u, key) := (Proposed(s, plan.intent, plan.payer, plan.proposer, plan.params), PlanKey(s, plan));
    && key in t.proposals && t == u.(proposals := u.proposals[key := t.proposals[key]], clock := t.clock)
    && t.proposals[key].status == Approved && t.proposals[key].params == plan.params
    && t.proposals[key].approvedAt == s.clock && t.clock == s.clock + s.intents[plan.intent].def.timelockSeconds
  }

  /** A quorum of signers and the passing of the timelock bring a proposal to where it can be executed. */
  lemma QuorumUnlocks(env: Env, s: State, plan: Plan) returns (steps: seq<Instruction>)
    requires Inv(env, s) && Feasible(env, s, plan)
    ensures Quiet(steps) && Unlocked(env, s, plan, After(env, s, steps))
  {
    hide Inv, Feasible, Next;
    FeasibleIntent(env, s, plan);
    FeasibleClock(env, s, plan);
    var def := s.intents[plan.intent].def;
    var collected := Collect(env, s, plan, Quorum(def));
    var to := s.clock + def.timelockSeconds;
    steps := collected + [Tick(to)];
    AfterOne(env, s, collected, Tick(to));
    TickStep(env, After(env, s, collected), to);
    hide Count, Has, Ballot.Proper;
  }

  lemma FeasibleClock(env: Env, s: State, plan: Plan)
    requires Feasible(env, s, plan)
    ensures s.clock + s.intents[plan.intent].def.timelockSeconds < 0x8000_0000_0000_0000
  {
    hide CanSign, Params.Validated;
  }

  lemma TickStep(env: Env, s: State, to: i64)
    requires s.clock <= to
    ensures Next(env, s, Tick(to)) == s.(clock := to)
  {}

  /** The execution of an unlocked plan passes all checks and runs its branch. */
  lemma UnlockedRuns(env: Env, s: State, plan: Plan, t: State, declared: Interpreter.Declared,
                     remaining: seq<Interpreter.AccountView>)
    requires Feasible(env, s, plan) && Unlocked(env, s, plan, t)
    requires declared.vault.address == env.vaultAddress && declared.wallet.address == env.walletAddress
    requires declared.system.address == env.systemAddress
    ensures var key := PlanKey(s, plan);
            && key in t.proposals && plan.intent in t.intents
               && t.intents[plan.intent].def == s.intents[plan.intent].def
            && Apply(env, t, Execute(key, declared, remaining)) == Executing(env, t, key, declared, remaining)
            && Apply(env, t, Execute(key, declared, remaining)) == ApplyExecute(env, t, key, declared, remaining)
  {
    hide CanSign, Params.Validated, Executing, ApplyTick, ApplyPropose, ApplyApprove, ApplyCancel, ApplyCleanup,
      ApplyElsewhere, ApplyClaim;
  }

  // ---- Removals ----

  /**
   Any removing intent that names the wallet can switch off any other idle intent at the wallet's seeds, given its
   quorum; whether that intent is itself at the wallet's seeds makes no difference.
   */
  lemma QuorumRemoves(env: Env, s: State, plan: Plan, target: byte, declared: Interpreter.Declared)
    returns (unlock: seq<Instruction>, ins: Instruction)
    requires Inv(env, s) && Feasible(env, s, plan) && s.intents[plan.intent].def.intentType == RemoveIntent
    requires plan.params == [target] && env.intentAddress(target) in s.intents
             && env.intentAddress(target) != plan.intent
    requires s.intents[env.intentAddress(target)].activeProposalCount == 0
    requires declared.vault.address == env.vaultAddress && declared.wallet.address == env.walletAddress
    requires declared.system.address == env.systemAddress
    ensures Quiet(unlock) && Unlocked(env, s, plan, After(env, s, unlock))
    ensures ins.Execute? && ins.key == PlanKey(s, plan)
    ensures Apply(env, After(env, s, unlock), ins).Ok?
    ensures var (t, j) := (Next(env, After(env, s, unlock), ins), env.intentAddress(target));
            j in t.intents && t.intents[j] == s.intents[j].(approved := 0)
  {
    hide Inv, Feasible, Next, After, Unlocked;
    unlock := QuorumUnlocks(env, s, plan);
    var t := After(env, s, unlock);
    var remaining := [Interpreter.AccountView(env.intentAddress(target), [], false, true)];
    UnlockedRuns(env, s, plan, t, declared, remaining);
    ins := Execute(PlanKey(s, plan), declared, remaining);
    RemoveRuns(env, s, plan, t, target, declared, remaining);
  }

  lemma RemoveRuns(env: Env, s: State, plan: Plan, t: State, target: byte, declared: Interpreter.Declared,
                   remaining: seq<Interpreter.AccountView>)
    requires Feasible(env, s, plan) && Unlocked(env, s, plan, t)
    requires s.intents[plan.intent].def.intentType == RemoveIntent && plan.params == [target]
    requires env.intentAddress(target) in s.intents && env.intentAddress(target) != plan.intent
    requires s.intents[env.intentAddress(target)].activeProposalCount == 0
    requires remaining == [Interpreter.AccountView(env.intentAddress(target), [], false, true)]
    requires PlanKey(s, plan) in t.proposals && plan.intent in t.intents
    requires Apply(env, t, Execute(PlanKey(s, plan), declared, remaining))
             == Executing(env, t, PlanKey(s, plan), declared, remaining)
    ensures Apply(env, t, Execute(PlanKey(s, plan), declared, remaining)).Ok?
    ensures var (u, j) := (Next(env, t, Execute(PlanKey(s, plan), declared, remaining)), env.intentAddress(target));
            j in u.intents && u.intents[j] == s.intents[j].(approved := 0)
  {
    hide Feasible, Apply;
    FeasibleIntent(env, s, plan);
  }

  // ---- Additions ----

  /** Any adding intent that names the wallet can install any body that fits the parameters, given its quorum. */
  lemma QuorumAdds(env: Env, s: State, plan: Plan, declared: Interpreter.Declared)
    returns (unlock: seq<Instruction>, ins: Instruction)
    requires Inv(env, s) && Feasible(env, s, plan) && s.intents[plan.intent].def.intentType == AddIntent
    requires s.intentIndex < 255
    requires declared.vault.address == env.vaultAddress && declared.wallet.address == env.walletAddress
    requires declared.system.address == env.systemAddress
    ensures Quiet(unlock) && Unlocked(env, s, plan, After(env, s, unlock))
    ensures ins.Execute? && ins.key == PlanKey(s, plan)
    ensures Apply(env, After(env, s, unlock), ins).Ok?
    ensures var (t, a) := (Next(env, After(env, s, unlock), ins), env.intentAddress(s.intentIndex + 1));
            && t.intents.Keys == s.intents.Keys + {a} && t.intents[a] == AddedBody(env, plan.params)
            && (forall b :: b in s.intents && b != plan.intent ==> b != a && t.intents[b] == s.intents[b])
            && t.intents[plan.intent].def == s.intents[plan.intent].def
            && t.proposals.Keys == s.proposals.Keys + {PlanKey(s, plan)}
            && t.clock == s.clock + s.intents[plan.intent].def.timelockSeconds
  {
    hide Inv, Feasible, Next, After, Unlocked;
    unlock := QuorumUnlocks(env, s, plan);
    var t := After(env, s, unlock);
    var (payer, account) := (Interpreter.AccountView(plan.payer, [], true, true),
                             Interpreter.AccountView(env.intentAddress(s.intentIndex + 1), [], false, true));
    UnlockedRuns(env, s, plan, t, declared, [payer, account]);
    ins := Execute(PlanKey(s, plan), declared, [payer, account]);
    NextSeedFree(env, s);
    AddRuns(env, s, plan, t, declared, [payer, account]);
  }

  lemma NextSeedFree(env: Env, s: State)
    requires Inv(env, s) && s.intentIndex < 255
    ensures env.intentAddress(s.intentIndex + 1) !in s.intents
  {
    hide NamedOk, ProposalsOk, EffectsOk;
    var next: byte := s.intentIndex + 1;
    assert env.intentAddress(next) in s.intents <==> next <= s.intentIndex;
  }

  lemma AddRuns(env: Env, s: State, plan: Plan, t: State, declared: Interpreter.Declared,
                remaining: seq<Interpreter.AccountView>)
    requires Feasible(env, s, plan) && Unlocked(env, s, plan, t) && s.intentIndex < 255
    requires s.intents[plan.intent].def.intentType == AddIntent && env.intentAddress(s.intentIndex + 1) !in s.intents
    requires |remaining| == 2 && remaining[0].isSigner && remaining[1].address == env.intentAddress(s.intentIndex + 1)
    requires PlanKey(s, plan) in t.proposals && plan.intent in t.intents
    requires Apply(env, t, Execute(PlanKey(s, plan), declared, remaining))
             == Executing(env, t, PlanKey(s, plan), declared, remaining)
    ensures Apply(env, t, Execute(PlanKey(s, plan), declared, remaining)).Ok?
    ensures var (u, a) := (Next(env, t, Execute(PlanKey(s, plan), declared, remaining)),
                           env.intentAddress(s.intentIndex + 1));
            && u.intents.Keys == s.intents.Keys + {a} && u.intents[a] == AddedBody(env, plan.params)
            && (forall b :: b in s.intents && b != plan.intent ==> b != a && u.intents[b] == s.intents[b])
            && u.intents[plan.intent].def == s.intents[plan.intent].def
            && u.proposals.Keys == s.proposals.Keys + {PlanKey(s, plan)}
            && u.clock == s.clock + s.intents[plan.intent].def.timelockSeconds
  {
    hide Feasible, Apply;
    FeasibleIntent(env, s, plan);
  }

  // ---- Cancellations ----

  /** An open proposal to be cancelled by slots that have not cancelled it yet and can sign. */
  datatype Veto = Veto(key: Key, expiry: i64, voters: seq<byte>, sign: (Address, Bytes) -> Bytes)

  function VetoText(env: Env, s: State, veto: Veto): (r: Result<Bytes>)
    requires veto.key in s.proposals && veto.key.intent in s.intents
  {
    var p := s.proposals[veto.key];
    MessageText.Message(env, MessageText.Context(veto.expiry, MessageText.Cancel, s.name, p.proposalIndex),
                        s.intents[veto.key.intent].def, p.params)
  }

  predicate VetoReady(env: Env, s: State, veto: Veto)
  {
    && veto.key in s.proposals && Usable(env, s, veto.key.intent)
    && var (p, approvers) := (s.proposals[veto.key], s.intents[veto.key.intent].def.approvers);
    && (p.status == Active || p.status == Approved) && s.clock < veto.expiry
    && (forall i, j :: 0 <= i < j < |veto.voters| ==> veto.voters[i] != veto.voters[j])
    && VetoText(env, s, veto).Ok?
    && forall i :: 0 <= i < |veto.voters| ==>
         && veto.voters[i] < 16 && veto.voters[i] < |approvers| && !Has(p.ballot.cancellations, veto.voters[i])
         && var (signer, text) := (approvers[veto.voters[i]], VetoText(env, s, veto).value);
         env.verifies(signer, veto.sign(signer, text), text)
  }

  function VetoStep(env: Env, s: State, veto: Veto, i: nat): (ins: Instruction)
    requires VetoReady(env, s, veto) && i < |veto.voters|
  {
    var signer := s.intents[veto.key.intent].def.approvers[veto.voters[i]];
    Instruction.Cancel(veto.key, veto.expiry, veto.voters[i], veto.sign(signer, VetoText(env, s, veto).value))
  }

  /** After the first `k` voters the proposal is cancelled, or still open with `k` cancellations more. */
  predicate Vetoed(s: State, veto: Veto, k: nat, t: State)
    requires veto.key in s.proposals && k <= |veto.voters|
  {
    && veto.key in t.proposals
    && var (p, q) := (s.proposals[veto.key], t.proposals[veto.key]);
    || q.status == Cancelled
    || (&& t == s.(proposals := s.proposals[veto.key := q]) && (q.status == Active || q.status == Approved)
        && q == p.(status := q.status, ballot := q.ballot)
        && Count(q.ballot.cancellations) == Count(p.ballot.cancellations) + k
        && (k > 0 ==> veto.key.intent in s.intents && Count(q.ballot.cancellations)
                                                      < s.intents[veto.key.intent].def.cancellationThreshold)
        && forall i :: k <= i < |veto.voters| && veto.voters[i] < 16 ==> !Has(q.ballot.cancellations, veto.voters[i]))
  }

  lemma VetoOnce(env: Env, s: State, veto: Veto, k: nat, t: State)
    requires VetoReady(env, s, veto) && k < |veto.voters| && Vetoed(s, veto, k, t)
    ensures Vetoed(s, veto, k + 1, Next(env, t, VetoStep(env, s, veto, k)))
  {
    hide Apply, MessageText.Message, Has, Count, CancelledBits;
    var ins := VetoStep(env, s, veto, k);
    CancelIff(env, t, ins);
    if t.proposals[veto.key].status != Cancelled {
      CancelCounts(t.proposals[veto.key].ballot, veto.voters[k]);
      VoteCast(env, t, ins);
      OthersNotYet(t.proposals[veto.key].ballot, veto.voters, k);
    }
  }

  lemma OthersNotYet(b: Ballot, voters: seq<byte>, k: nat)
    requires k < |voters| && voters[k] < 16
    requires forall i, j :: 0 <= i < j < |voters| ==> voters[i] != voters[j]
    requires forall i :: k <= i < |voters| && voters[i] < 16 ==> !Has(b.cancellations, voters[i])
    ensures forall i :: k + 1 <= i < |voters| && voters[i] < 16 ==> !Has(b.Cancel(voters[k]).cancellations, voters[i])
  {
    hide Has, Ballot.Cancel;
    forall i | k + 1 <= i < |voters| && voters[i] < 16
      ensures !Has(b.Cancel(voters[k]).cancellations, voters[i])
    {
      CancelBits(b, voters[k], voters[i]);
    }
  }

  lemma {:induction false} VetoSome(env: Env, s: State, veto: Veto, k: nat) returns (steps: seq<Instruction>)
    requires VetoReady(env, s, veto) && k <= |veto.voters|
    ensures Vetoed(s, veto, k, After(env, s, steps))
    ensures forall i :: 0 <= i < |steps| ==> steps[i].Cancel? && steps[i].key == veto.key
  {
    hide Next, Vetoed, VetoReady;
    if k == 0 {
      steps := [];
      NoVetoYet(env, s, veto);
    } else {
      var fewer := VetoSome(env, s, veto, k - 1);
      VetoOnce(env, s, veto, k - 1, After(env, s, fewer));
      steps := fewer + [VetoStep(env, s, veto, k - 1)];
      AfterOne(env, s, fewer, VetoStep(env, s, veto, k - 1));
    }
  }

  lemma NoVetoYet(env: Env, s: State, veto: Veto)
    requires VetoReady(env, s, veto)
    ensures veto.key in s.proposals && Vetoed(s, veto, 0, s)
  {
    hide Has, Count, MessageText.Message;
    assert s.proposals[veto.key := s.proposals[veto.key]] == s.proposals;
  }

  /**
   Signing approvers who bring the cancellations to the threshold close any open proposal, approved or not, under any
   intent that names the wallet, switched on or not.
   */
  lemma QuorumCancels(env: Env, s: State, veto: Veto) returns (steps: seq<Instruction>)
    requires VetoReady(env, s, veto) && veto.voters != []
    requires Count(s.proposals[veto.key].ballot.cancellations) + |veto.voters|
             >= s.intents[veto.key.intent].def.cancellationThreshold
    ensures forall i :: 0 <= i < |steps| ==> steps[i].Cancel? && steps[i].key == veto.key
    ensures var t := After(env, s, steps);
            veto.key in t.proposals && t.proposals[veto.key].status == Cancelled
  {
    hide After, Has, Count, MessageText.Message;
    steps := VetoSome(env, s, veto, |veto.voters|);
  }
}
