/** Exactly when each instruction succeeds and what it leaves behind, field by field. */
module Acceptance {
  import opened Ballots
  import opened Bytes
  import opened Definition
  import opened Governance
  import opened Invariant
  import opened Steps
  import Interpreter
  import MessageText
  import Params

  /** There is an intent account at `a`, and it names this wallet. */
  predicate Usable(env: Env, s: State, a: Address)
  {
    a in s.intents && s.intents[a].def.wallet == env.walletAddress
  }

  // ---- propose ----

  /**
   A proposal succeeds if and only if its intent names the wallet and is switched on, its address is free, it has not
   expired, its proposer is listed and has signed the message of a proposal under the next index, a custom intent's
   constraints are met, and there is room for the parameters and on both counters.
   */
  lemma ProposeIff(env: Env, s: State, ins: Instruction)
    requires ins.Propose?
    ensures Apply(env, s, ins).Ok? <==>
            && Usable(env, s, ins.intent)
            && var (intent, key) := (s.intents[ins.intent], Key(ins.intent, s.proposalIndex));
            && intent.approved != 0 && key !in s.proposals && key !in s.taken
            && s.clock < ins.expiry && ins.proposer in intent.def.proposers
            && (intent.def.intentType == Custom ==> Params.ReadableFrom(intent.def.params, ins.params, 0, env.utf8))
            && SignedFor(env, MessageText.Context(ins.expiry, MessageText.Propose, s.name, s.proposalIndex), intent.def,
                         ins.params, ins.proposer, ins.signature)
            && |ins.params| <= env.paramsCap
            && intent.activeProposalCount < 0xffff && s.proposalIndex < 0xffff_ffff_ffff_ffff
    ensures Apply(env, s, ins).Ok? ==> Apply(env, s, ins).value == AsProposed(s, ins)
  {
    hide MessageText.Message, MessageText.BuildError, Params.Validated, Params.ReadableFrom;
    if Usable(env, s, ins.intent) {
      Params.ValidatedIff(s.intents[ins.intent].def.params, ins.params, env.utf8);
    }
  }

  /** The new proposal is active, carries what was handed in and no votes; both counters are one up. */
  function AsProposed(s: State, ins: Instruction): (t: State)
    requires ins.Propose? && ins.intent in s.intents
    requires s.intents[ins.intent].activeProposalCount < 0xffff && s.proposalIndex < 0xffff_ffff_ffff_ffff
  {
    var p := Proposal(proposalIndex := s.proposalIndex, proposer := ins.proposer, status := Active,
                      proposedAt := s.clock, approvedAt := 0, ballot := Ballot(approvals := 0, cancellations := 0),
                      rentRefund := ins.payer, params := ins.params);
    var count: u16 := s.intents[ins.intent].activeProposalCount + 1;
    s.(proposals := s.proposals[Key(ins.intent, s.proposalIndex) := p], proposalIndex := s.proposalIndex + 1,
       intents := s.intents[ins.intent := s.intents[ins.intent].(activeProposalCount := count)])
  }

  // ---- approve and cancel ----

  /** What a vote asks of the slot: it is listed and has signed, before expiry, the message of the action. */
  predicate VoteOfSlot(env: Env, s: State, key: Key, action: MessageText.Action, expiry: i64, slot: byte,
                       signature: Bytes)
    requires key in s.proposals && key.intent in s.intents
  {
    var (def, p) := (s.intents[key.intent].def, s.proposals[key]);
    && s.clock < expiry && slot < |def.approvers|
    && SignedFor(env, MessageText.Context(expiry, action, s.name, p.proposalIndex), def, p.params, def.approvers[slot],
                 signature)
  }

  /**
   An approval succeeds if and only if the intent names the wallet and is switched on, the proposal is active, the slot
   is listed and has signed an approval of it that has not expired, and its approval does not stand already.
   */
  lemma ApproveIff(env: Env, s: State, ins: Instruction)
    requires ins.Approve?
    ensures Apply(env, s, ins).Ok? <==>
            && Usable(env, s, ins.key.intent) && s.intents[ins.key.intent].approved != 0
            && ins.key in s.proposals && s.proposals[ins.key].status == Active
            && VoteOfSlot(env, s, ins.key, MessageText.Approve, ins.expiry, ins.slot, ins.signature)
            && !Has(s.proposals[ins.key].ballot.approvals, ins.slot)
    ensures Apply(env, s, ins).Ok? ==> AsApproved(s, Apply(env, s, ins).value, ins)
  {
    hide Has, MessageText.Message, MessageText.BuildError, Approving, AsApproved;
    if ins.key in s.proposals && ins.key.intent in s.intents {
      ApprovingIs(s, ins);
    }
  }

  lemma ApprovingIs(s: State, ins: Instruction)
    requires ins.Approve? && ins.key in s.proposals && ins.key.intent in s.intents
    ensures AsApproved(s, Approving(s, ins.key, ins.slot), ins)
  {
    hide Has, Count, Ballot.Approve, ApprovedBits;
    ApprovedBallot(s.proposals[ins.key].ballot, ins.slot);
  }

  /**
   The slot's approval bit is set, its cancellation bit cleared; once the approvals are as many as the threshold, the
   proposal is approved as of now; nothing else changes.
   */
  predicate AsApproved(s: State, t: State, ins: Instruction)
    requires ins.Approve? && ins.key in s.proposals && ins.key.intent in s.intents
  {
    && t.proposals.Keys == s.proposals.Keys
    && var (p, q) := (s.proposals[ins.key], t.proposals[ins.key]);
    && t == s.(proposals := s.proposals[ins.key := q])
    && q == p.(status := q.status, approvedAt := q.approvedAt, ballot := q.ballot)
    && ApprovedBits(p.ballot, q.ballot, ins.slot)
    && (if Count(q.ballot.approvals) >= s.intents[ins.key.intent].def.approvalThreshold then
          q.status == Approved && q.approvedAt == s.clock
        else q.status == p.status && q.approvedAt == p.approvedAt)
  }

  /**
   A cancellation succeeds if and only if the intent names the wallet, switched on or not, the proposal is active or
   approved, the slot is listed and has signed a cancellation of it that has not expired, and its cancellation does not
   stand already.
   */
  lemma CancelIff(env: Env, s: State, ins: Instruction)
    requires ins.Cancel?
    ensures Apply(env, s, ins).Ok? <==>
            && Usable(env, s, ins.key.intent) && ins.key in s.proposals
            && (s.proposals[ins.key].status == Active || s.proposals[ins.key].status == Approved)
            && VoteOfSlot(env, s, ins.key, MessageText.Cancel, ins.expiry, ins.slot, ins.signature)
            && !Has(s.proposals[ins.key].ballot.cancellations, ins.slot)
    ensures Apply(env, s, ins).Ok? ==> AsCancelled(s, Apply(env, s, ins).value, ins)
  {
    hide Has, MessageText.Message, MessageText.BuildError, Cancelling, AsCancelled;
    if ins.key in s.proposals && ins.key.intent in s.intents && Open(s.proposals[ins.key]) {
      CancellingIs(s, ins);
    }
  }

  lemma CancellingIs(s: State, ins: Instruction)
    requires ins.Cancel? && ins.key in s.proposals && ins.key.intent in s.intents && Open(s.proposals[ins.key])
    ensures AsCancelled(s, Cancelling(s, ins.key, ins.slot), ins)
  {
    hide Has, Count, Ballot.Cancel, CancelledBits;
    assert s.intents[ins.key.intent := s.intents[ins.key.intent]] == s.intents;
    CancelledBallot(s.proposals[ins.key].ballot, ins.slot);
  }

  /** Of two ballots, the second has the slot's cancellation set, its approval cleared, and no other bit changed. */
  predicate CancelledBits(b: Ballot, c: Ballot, slot: nat)
  {
    forall j :: 0 <= j < 16 ==>
      && (Has(c.cancellations, j) <==> j == slot % 16 || Has(b.cancellations, j))
      && (Has(c.approvals, j) <==> j != slot % 16 && Has(b.approvals, j))
  }

  predicate ApprovedBits(b: Ballot, c: Ballot, slot: nat)
  {
    forall j :: 0 <= j < 16 ==>
      && (Has(c.approvals, j) <==> j == slot % 16 || Has(b.approvals, j))
      && (Has(c.cancellations, j) <==> j != slot % 16 && Has(b.cancellations, j))
  }

  lemma CancelledBallot(b: Ballot, slot: nat)
    ensures CancelledBits(b, b.Cancel(slot), slot)
  {
    hide Has, Ballot.Cancel;
    forall j | 0 <= j < 16
      ensures Has(b.Cancel(slot).cancellations, j) <==> j == slot % 16 || Has(b.cancellations, j)
      ensures Has(b.Cancel(slot).approvals, j) <==> j != slot % 16 && Has(b.approvals, j)
    {
      CancelBits(b, slot, j);
    }
  }

  lemma ApprovedBallot(b: Ballot, slot: nat)
    ensures ApprovedBits(b, b.Approve(slot), slot)
  {
    hide Has, Ballot.Approve;
    forall j | 0 <= j < 16
      ensures Has(b.Approve(slot).approvals, j) <==> j == slot % 16 || Has(b.approvals, j)
      ensures Has(b.Approve(slot).cancellations, j) <==> j != slot % 16 && Has(b.cancellations, j)
    {
      ApproveBits(b, slot, j);
    }
  }

  /**
   The slot's cancellation bit is set, its approval bit cleared. Once the cancellations are as many as the threshold the
   proposal is cancelled and its intent counts one fewer; otherwise,
   if it was approved and its approvals no longer reach
   the threshold, it is active again; nothing else changes.
   */
  predicate AsCancelled(s: State, t: State, ins: Instruction)
    requires ins.Cancel? && ins.key in s.proposals && ins.key.intent in s.intents
  {
    var (intent, a) := (s.intents[ins.key.intent], ins.key.intent);
    && t.proposals.Keys == s.proposals.Keys && t.intents.Keys == s.intents.Keys
    && var (p, q) := (s.proposals[ins.key], t.proposals[ins.key]);
    && t == s.(proposals := s.proposals[ins.key := q], intents := s.intents[a := t.intents[a]])
    && q == p.(status := q.status, ballot := q.ballot)
    && CancelledBits(p.ballot, q.ballot, ins.slot)
    && (if Count(q.ballot.cancellations) >= intent.def.cancellationThreshold then
          q.status == Cancelled && t.intents[a] == CountsOneFewer(intent)
        else if p.status == Approved && Count(q.ballot.approvals) < intent.def.approvalThreshold then
          q.status == Active && t.intents[a] == intent
        else q.status == p.status && t.intents[a] == intent)
  }

  function CountsOneFewer(intent: Intent): (r: Intent)
  {
    if intent.activeProposalCount == 0 then intent
    else intent.(activeProposalCount := intent.activeProposalCount - 1)
  }

  /**
   An approved proposal from which a standing approver withdraws becomes active again, unless that vote brings the
   cancellations to their threshold, and then it is cancelled.
   */
  lemma Withdrawal(env: Env, s: State, ins: Instruction, t: State)
    requires Inv(env, s) && ins.Cancel? && Apply(env, s, ins) == Ok(t) && s.proposals[ins.key].status == Approved
    requires Has(s.proposals[ins.key].ballot.approvals, ins.slot)
    requires s.intents[ins.key.intent].def.approvalThreshold > 0
    ensures ins.key in t.proposals
    ensures var cancellations := Count(s.proposals[ins.key].ballot.cancellations) + 1;
            t.proposals[ins.key].status
            == if cancellations >= s.intents[ins.key.intent].def.cancellationThreshold then Cancelled else Active
  {
    hide Inv, Apply, MessageText.Message, Count, Has;
    CancelIff(env, s, ins);
    ApprovedReached(env, s, ins.key);
    VoteCast(env, s, ins);
    CancelCounts(s.proposals[ins.key].ballot, ins.slot);
  }

  lemma ApprovedReached(env: Env, s: State, key: Key)
    requires Inv(env, s) && key in s.proposals && s.proposals[key].status == Approved
    ensures key.intent in s.intents
    ensures Reached(Count(s.proposals[key].ballot.approvals), s.intents[key.intent].def.approvalThreshold)
  {
    hide Inv, Count, Ballot.Proper, ParamsOk;
    RecordsOk(env, s, key);
  }

  // ---- cleanup_proposal ----

  /**
   A cleanup succeeds if and only if the proposal is executed or cancelled and its payer is named; it is gone then.
   */
  lemma CleanupIff(env: Env, s: State, ins: Instruction)
    requires ins.Cleanup?
    ensures Apply(env, s, ins).Ok? <==>
            && ins.key in s.proposals && ins.refund == s.proposals[ins.key].rentRefund
            && (s.proposals[ins.key].status == Executed || s.proposals[ins.key].status == Cancelled)
    ensures Apply(env, s, ins).Ok? ==>
              && var t := Apply(env, s, ins).value;
              && t == s.(proposals := t.proposals) && ins.key !in t.proposals
              && forall k :: k != ins.key ==>
                   (k in t.proposals <==> k in s.proposals)
                   && (k in s.proposals ==> t.proposals[k] == s.proposals[k])
  {}

  // ---- execute ----

  /** The account handed in first is the intent at the target's seeds, may be written, and counts no open proposals. */
  predicate TargetReady(env: Env, s: State, target: byte, remaining: seq<Interpreter.AccountView>)
  {
    && |remaining| >= 1 && remaining[0].address == env.intentAddress(target) && remaining[0].isWritable
    && env.intentAddress(target) in s.intents && s.intents[env.intentAddress(target)].activeProposalCount == 0
  }

  /** What each kind of intent asks of the parameters and the accounts handed in. */
  predicate BranchReady(env: Env, s: State, def: Definition, params: Bytes, declared: Interpreter.Declared,
                        remaining: seq<Interpreter.AccountView>)
  {
    match def.intentType
    case AddIntent =>
      && s.intentIndex < 255 && |remaining| >= 2 && remaining[0].isSigner
      && remaining[1].address == env.intentAddress(s.intentIndex + 1)
      && env.intentAddress(s.intentIndex + 1) !in s.intents
    case RemoveIntent => |params| == 1 && TargetReady(env, s, params[0], remaining)
    case UpdateIntent =>
      && 1 < |params| <= env.paramsCap && |params| == 1 + env.intentBodySize
      && TargetReady(env, s, params[0], remaining)
    case Custom => Interpreter.Executed(env, def, params, declared, remaining).Ok?
  }

  /** The accounts, the wallet's last index and the record of what was done, after the branch. */
  function BranchDone(env: Env, s: State, def: Definition, params: Bytes, declared: Interpreter.Declared,
                      remaining: seq<Interpreter.AccountView>): (r: (map<Address, Intent>, byte, Effect))
    requires BranchReady(env, s, def, params, declared, remaining)
  {
    match def.intentType
    case AddIntent =>
      var body := env.decodeIntent(if |params| <= env.intentBodySize then params else params[..env.intentBodySize]);
      (s.intents[env.intentAddress(s.intentIndex + 1) := body], s.intentIndex + 1, Added(s.intentIndex + 1))
    case RemoveIntent =>
      var (a, target) := (env.intentAddress(params[0]), params[0]);
      var off := Intent(def := s.intents[a].def, approved := 0, activeProposalCount := 0);
      (s.intents[a := off], s.intentIndex, Removed(target))
    case UpdateIntent =>
      (s.intents[env.intentAddress(params[0]) := env.decodeIntent(params[1..])], s.intentIndex, Updated(params[0]))
    case Custom =>
      (s.intents, s.intentIndex, Ran(Interpreter.Executed(env, def, params, declared, remaining).value))
  }

  /**
   An execution succeeds if and only if the wallet's own vault and wallet accounts and the system program are handed in,
   the intent names the wallet, the proposal is approved, its timelock has run without overflowing, and the branch's own
   conditions are met.
   */
  lemma ExecuteIff(env: Env, s: State, ins: Instruction)
    requires ins.Execute?
    ensures Apply(env, s, ins).Ok? <==>
            && ins.declared.vault.address == env.vaultAddress && ins.declared.wallet.address == env.walletAddress
            && ins.declared.system.address == env.systemAddress
            && Usable(env, s, ins.key.intent) && ins.key in s.proposals
            && var (def, p) := (s.intents[ins.key.intent].def, s.proposals[ins.key]);
            && p.status == Approved && p.approvedAt + def.timelockSeconds < 0x8000_0000_0000_0000
            && p.approvedAt + def.timelockSeconds <= s.clock
            && BranchReady(env, s, def, p.params, ins.declared, ins.remaining)
    ensures Apply(env, s, ins).Ok? ==> AsExecuted(env, s, Apply(env, s, ins).value, ins)
  {
    hide Interpreter.Executed;
    if Usable(env, s, ins.key.intent) && ins.key in s.proposals {
      BranchIff(env, s, s.intents[ins.key.intent].def, s.proposals[ins.key].params, ins.declared, ins.remaining);
    }
    hide ExecuteBranch, BranchReady, BranchDone;
  }

  /** The proposal is executed, its intent counts one fewer, the branch is done and recorded; nothing else changes. */
  predicate AsExecuted(env: Env, s: State, t: State, ins: Instruction)
    requires ins.Execute? && ins.key in s.proposals && ins.key.intent in s.intents
  {
    var (a, p) := (ins.key.intent, s.proposals[ins.key]);
    && BranchReady(env, s, s.intents[a].def, p.params, ins.declared, ins.remaining)
    && var (written, last, effect) := BranchDone(env, s, s.intents[a].def, p.params, ins.declared, ins.remaining);
    && a in written
    && t == s.(proposals := s.proposals[ins.key := p.(status := Executed)], intentIndex := last,
               intents := written[a := CountsOneFewer(written[a])],
               effects := s.effects + [Done(key := ins.key, effect := effect)])
  }

  lemma BranchIff(env: Env, s: State, def: Definition, params: Bytes, declared: Interpreter.Declared,
                  remaining: seq<Interpreter.AccountView>)
    ensures ExecuteBranch(env, s, def, params, declared, remaining).Ok?
            <==> BranchReady(env, s, def, params, declared, remaining)
    ensures BranchReady(env, s, def, params, declared, remaining) ==>
              var (written, last, effect) := BranchDone(env, s, def, params, declared, remaining);
              ExecuteBranch(env, s, def, params, declared, remaining).value
              == (s.(intents := written, intentIndex := last), effect)
  {
    hide Interpreter.Executed;
    assert params[..|params|] == params;
  }
}
