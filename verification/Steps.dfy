/** What one instruction does to a proposal, to its intent and to the wallet. */
module Steps {
  import opened Bytes
  import opened Ballots
  import opened Definition
  import opened Governance
  import opened Invariant
  import Interpreter
  import MessageText
  import Params

  /** The fields of a proposal that never change. */
  predicate SameRecord(p: Proposal, q: Proposal)
  {
    q == p.(status := q.status, approvedAt := q.approvedAt, ballot := q.ballot)
  }

  /** What may become of the proposal under `key`. */
  predicate ProposalStep(s: State, t: State, key: Key)
  {
    && (key in s.proposals && key in t.proposals ==>
          && SameRecord(s.proposals[key], t.proposals[key])
          && (!Open(s.proposals[key]) ==> t.proposals[key] == s.proposals[key]))
    && (key in s.proposals && key !in t.proposals ==> !Open(s.proposals[key]))
    && (key !in s.proposals && key in t.proposals ==>
          && key.index == s.proposalIndex < t.proposalIndex
          && t.proposals[key].status == Active && t.proposals[key].ballot == Ballot(0, 0))
  }

  /** While a proposal is open its intent's definition and switch stay as they are. */
  predicate IntentFrozen(s: State, t: State, key: Key)
  {
    key in s.proposals && Open(s.proposals[key]) ==>
      && key.intent in s.intents && key.intent in t.intents
      && t.intents[key.intent].def == s.intents[key.intent].def
      && t.intents[key.intent].approved == s.intents[key.intent].approved
  }

  predicate WalletStep(s: State, t: State)
  {
    && s.proposalIndex <= t.proposalIndex && s.intentIndex <= t.intentIndex && s.clock <= t.clock
    && t.name == s.name
    && (forall i :: i in s.intents ==> i in t.intents)
  }

  ghost predicate Progress(s: State, t: State)
  {
    && WalletStep(s, t)
    && (forall key :: ProposalStep(s, t, key))
    && (forall key :: IntentFrozen(s, t, key))
  }

  lemma ProgressFor(s: State, t: State, key: Key)
    requires Progress(s, t)
    ensures WalletStep(s, t) && ProposalStep(s, t, key) && IntentFrozen(s, t, key)
  {
    hide WalletStep, ProposalStep, IntentFrozen;
  }

  lemma ExecuteProgress(env: Env, s: State, key: Key, declared: Interpreter.Declared,
                        remaining: seq<Interpreter.AccountView>)
    requires Inv(env, s) && ApplyExecute(env, s, key, declared, remaining).Ok?
    ensures Progress(s, ApplyExecute(env, s, key, declared, remaining).value)
  {
    hide ExecuteBranch, IntentsOk, ProposalsOk, EffectsOk;
    BranchKeeps(env, s, key, declared, remaining);
    var mid := ExecuteBranch(env, s, s.intents[key.intent].def, s.proposals[key].params, declared, remaining).value.0;
    BranchIndex(env, s, key, declared, remaining);
  }

  lemma BranchIndex(env: Env, s: State, key: Key, declared: Interpreter.Declared,
                    remaining: seq<Interpreter.AccountView>)
    requires key in s.proposals && key.intent in s.intents
    requires ExecuteBranch(env, s, s.intents[key.intent].def, s.proposals[key].params, declared, remaining).Ok?
    ensures ExecuteBranch(env, s, s.intents[key.intent].def, s.proposals[key].params, declared,
                          remaining).value.0.intentIndex
            >= s.intentIndex
  {
    hide Interpreter.Executed, TargetCheck;
  }

  predicate IntentsInUse(s: State)
  {
    forall k :: k in s.proposals ==> k.intent in s.intents
  }

  lemma InUse(env: Env, s: State)
    requires Inv(env, s)
    ensures IntentsInUse(s)
  {
    hide ProposalOk, IntentsOk, EffectsOk;
  }

  lemma ProposeProgress(env: Env, s: State, i: Address, payer: Address, expiry: i64, proposer: Address,
                        signature: Bytes,
                        params: Bytes)
    requires IntentsInUse(s) && ApplyPropose(env, s, i, payer, expiry, proposer, signature, params).Ok?
    ensures Progress(s, ApplyPropose(env, s, i, payer, expiry, proposer, signature, params).value)
  {
    hide Signed, Params.Validated;
  }

  lemma ApproveProgress(env: Env, s: State, key: Key, expiry: i64, slot: byte, signature: Bytes)
    requires IntentsInUse(s) && ApplyApprove(env, s, key, expiry, slot, signature).Ok?
    ensures Progress(s, ApplyApprove(env, s, key, expiry, slot, signature).value)
  {
    hide Signed, Has, Count;
  }

  lemma CancelProgress(env: Env, s: State, key: Key, expiry: i64, slot: byte, signature: Bytes)
    requires IntentsInUse(s) && ApplyCancel(env, s, key, expiry, slot, signature).Ok?
    ensures Progress(s, ApplyCancel(env, s, key, expiry, slot, signature).value)
  {
    hide Signed, Has, Count;
  }

  lemma CleanupProgress(s: State, key: Key, refund: Address)
    requires IntentsInUse(s) && ApplyCleanup(s, key, refund).Ok?
    ensures Progress(s, ApplyCleanup(s, key, refund).value)
  {}

  /** Every instruction, failed or not, moves the wallet forward and leaves proposals and used intents as promised. */
  lemma Progresses(env: Env, s: State, ins: Instruction)
    requires Inv(env, s)
    ensures Progress(s, Next(env, s, ins))
  {
    InUse(env, s);
    if Apply(env, s, ins).Ok? {
      hide ApplyElsewhere, ApplyPropose, ApplyApprove, ApplyCancel, ApplyExecute, ApplyCleanup, Inv, Progress;
      match ins {
        case Tick(to) => NoChange(s, Next(env, s, ins));
        case Elsewhere(a, body) => ElsewhereProgress(env, s, a, body);
        case Claim(keys) => NoChange(s, Next(env, s, ins));
        case Propose(i, payer, expiry, proposer, signature, params) =>
          ProposeProgress(env, s, i, payer, expiry, proposer, signature, params);
        case Approve(key, expiry, slot, signature) => ApproveProgress(env, s, key, expiry, slot, signature);
        case Cancel(key, expiry, slot, signature) => CancelProgress(env, s, key, expiry, slot, signature);
        case Execute(key, declared, remaining) => ExecuteProgress(env, s, key, declared, remaining);
        case Cleanup(key, refund) => CleanupProgress(s, key, refund);
      }
    } else {
      NoChange(s, s);
    }
  }

  lemma NoChange(s: State, t: State)
    requires IntentsInUse(s) && t == s.(clock := t.clock, taken := t.taken) && s.clock <= t.clock
    ensures Progress(s, t)
  {}

  lemma ElsewhereProgress(env: Env, s: State, a: Address, body: Intent)
    requires Inv(env, s) && ApplyElsewhere(env, s, a, body).Ok?
    ensures Progress(s, ApplyElsewhere(env, s, a, body).value)
  {
    InUse(env, s);
    hide Inv, OwnSeed;
    forall k | k in s.proposals && Open(s.proposals[k])
      ensures k.intent != a
    {
      TargetIsIdle(env, s, a, k);
    }
  }

  // ---- Votes ----

  predicate IsVote(ins: Instruction)
  {
    ins.Approve? || ins.Cancel?
  }

  /** A successful vote is by a listed slot, on an open proposal that does not show it yet. */
  lemma VoteLegal(env: Env, s: State, ins: Instruction)
    requires Inv(env, s) && IsVote(ins) && Apply(env, s, ins).Ok?
    ensures ins.key in s.proposals && Open(s.proposals[ins.key]) && ins.key.intent in s.intents
    ensures var (def, b) := (s.intents[ins.key.intent].def, s.proposals[ins.key].ballot);
            && ins.slot < |def.approvers| && b.Proper(|def.approvers|)
            && !Has(if ins.Approve? then b.approvals else b.cancellations, ins.slot)
  {
    hide Signed, Has, AfterApprove, AfterCancel, OpenKeys, EffectsOk, ParamsOk, Count, Ballot.Proper;
  }

  lemma VoteCast(env: Env, s: State, ins: Instruction)
    requires IsVote(ins) && Apply(env, s, ins).Ok? && ins.key in s.proposals
    ensures var (b, t) := (s.proposals[ins.key].ballot, Next(env, s, ins));
            && ins.key in t.proposals
            && t.proposals[ins.key].ballot == (if ins.Approve? then b.Approve(ins.slot) else b.Cancel(ins.slot))
            && forall k :: k in s.proposals && k != ins.key ==> k in t.proposals && t.proposals[k] == s.proposals[k]
  {
    hide Signed, Has, Count, Ballot.Approve, Ballot.Cancel;
  }

  lemma ProposeProposals(env: Env, s: State, i: Address, payer: Address, expiry: i64, proposer: Address,
                         signature: Bytes,
                         params: Bytes)
    requires ApplyPropose(env, s, i, payer, expiry, proposer, signature, params).Ok?
    ensures var (t, k) := (ApplyPropose(env, s, i, payer, expiry, proposer, signature, params).value,
                           Key(i, s.proposalIndex));
            k !in s.proposals && k in t.proposals && t.proposals == s.proposals[k := t.proposals[k]]
  {
    hide Signed, Params.Validated, LoadIntent;
  }

  lemma ExecuteIsApply(env: Env, s: State, ins: Instruction)
    requires ins.Execute?
    ensures Apply(env, s, ins) == ApplyExecute(env, s, ins.key, ins.declared, ins.remaining)
  {
    hide ApplyExecute;
  }

  lemma ExecuteProposals(env: Env, s: State, key: Key, declared: Interpreter.Declared,
                         remaining: seq<Interpreter.AccountView>)
    requires Inv(env, s) && ApplyExecute(env, s, key, declared, remaining).Ok?
    ensures key in s.proposals && s.proposals[key].status == Approved
    ensures ApplyExecute(env, s, key, declared, remaining).value.proposals
            == s.proposals[key := s.proposals[key].(status := Executed)]
  {
    hide ExecuteBranch, Inv, IntentsOk;
    BranchKeeps(env, s, key, declared, remaining);
  }

  /** Only votes change a ballot; no other instruction makes a proposal approved or touches an approval time. */
  lemma NoVote(env: Env, s: State, ins: Instruction, t: State, key: Key)
    requires Inv(env, s) && !IsVote(ins) && t == Next(env, s, ins) && key in s.proposals && key in t.proposals
    ensures var (p, q) := (s.proposals[key], t.proposals[key]);
            q.ballot == p.ballot && q.approvedAt == p.approvedAt && (q.status == p.status || q.status == Executed)
  {
    hide Inv, MayChange, ApplyPropose, ApplyExecute, ApplyApprove, ApplyCancel;
    if Apply(env, s, ins).Ok? {
      match ins {
        case Propose(i, payer, expiry, proposer, signature, params) =>
          ProposeProposals(env, s, i, payer, expiry, proposer, signature, params);
        case Execute(k, declared, remaining) =>
          ExecuteProposals(env, s, k, declared, remaining);
        case Cleanup(_, _) =>
        case _ =>
      }
    }
  }

  /** How one instruction changes what a proposal's bitmaps say about a slot; slots are told apart modulo 16. */
  lemma VoteStep(env: Env, s: State, ins: Instruction, t: State, key: Key, slot: nat)
    requires Inv(env, s) && slot < 16 && t == Next(env, s, ins) && key in s.proposals && key in t.proposals
    ensures var (b, c) := (s.proposals[key].ballot, t.proposals[key].ballot);
            if IsVote(ins) && ins.key == key && ins.slot % 16 == slot && Apply(env, s, ins).Ok? then
              (Has(c.approvals, slot) <==> ins.Approve?) && (Has(c.cancellations, slot) <==> ins.Cancel?)
            else
              && (Has(c.approvals, slot) <==> Has(b.approvals, slot))
              && (Has(c.cancellations, slot) <==> Has(b.cancellations, slot))
  {
    hide Has, Inv, Ballot.Approve, Ballot.Cancel, Ballot.Proper, Apply;
    if IsVote(ins) {
      if Apply(env, s, ins).Ok? {
        VoteLegal(env, s, ins);
        VoteCast(env, s, ins);
        hide Next;
        if ins.Approve? {
          ApproveBits(s.proposals[ins.key].ballot, ins.slot, slot);
        } else {
          CancelBits(s.proposals[ins.key].ballot, ins.slot, slot);
        }
      }
    } else {
      NoVote(env, s, ins, t, key);
    }
  }

  // ---- Approval ----

  /** A proposal is approved after an instruction because it was before, or because that instruction approved it now. */
  lemma BecomesApproved(env: Env, s: State, ins: Instruction, t: State, key: Key)
    requires Inv(env, s) && t == Next(env, s, ins)
    requires key in s.proposals && key in t.proposals && t.proposals[key].status == Approved
    ensures var (p, q) := (s.proposals[key], t.proposals[key]);
            if p.status == Approved then q.approvedAt == p.approvedAt
            else ins.Approve? && ins.key == key && Apply(env, s, ins).Ok? && q.approvedAt == s.clock
  {
    hide Inv, ApplyPropose, ApplyExecute, ApplyCleanup, Has, Count, Signed, LoadIntent, Ballot.Approve, Ballot.Cancel;
    if !IsVote(ins) {
      NoVote(env, s, ins, t, key);
    }
  }

  // ---- Where a proposal and its final status come from ----

  /** A proposal appears only by a successful `propose` under the next index. */
  lemma Appears(env: Env, s: State, ins: Instruction, t: State, key: Key)
    requires Inv(env, s) && t == Next(env, s, ins) && key !in s.proposals && key in t.proposals
    ensures ins.Propose? && Apply(env, s, ins).Ok? && key == Key(ins.intent, s.proposalIndex)
  {
    hide Inv, ApplyPropose, ApplyExecute, Has, Count, Signed, LoadIntent, AfterApprove, AfterCancel;
    if Apply(env, s, ins).Ok? {
      match ins {
        case Propose(i, payer, expiry, proposer, signature, params) =>
          ProposeProposals(env, s, i, payer, expiry, proposer, signature, params);
        case Execute(k, declared, remaining) =>
          ExecuteProposals(env, s, k, declared, remaining);
        case _ =>
      }
    }
  }

  /** A proposal disappears only by a cleanup of a closed proposal, in favour of whoever paid for it. */
  lemma Disappears(env: Env, s: State, ins: Instruction, t: State, key: Key)
    requires Inv(env, s) && t == Next(env, s, ins) && key in s.proposals && key !in t.proposals
    ensures ins == Cleanup(key, s.proposals[key].rentRefund) && !Open(s.proposals[key])
  {
    hide Inv, ApplyPropose, ApplyExecute, Has, Count, Signed, LoadIntent, AfterApprove, AfterCancel;
    if Apply(env, s, ins).Ok? {
      match ins {
        case Propose(i, payer, expiry, proposer, signature, params) =>
          ProposeProposals(env, s, i, payer, expiry, proposer, signature, params);
        case Execute(k, declared, remaining) =>
          ExecuteProposals(env, s, k, declared, remaining);
        case _ =>
      }
    }
  }

  /** A proposal becomes cancelled only by the cancellation that reaches the threshold, a positive one exactly. */
  lemma BecomesCancelled(env: Env, s: State, ins: Instruction, t: State, key: Key)
    requires Inv(env, s) && t == Next(env, s, ins) && key in s.proposals && key in t.proposals
    requires s.proposals[key].status != Cancelled && t.proposals[key].status == Cancelled
    ensures ins.Cancel? && ins.key == key && Apply(env, s, ins).Ok? && Open(s.proposals[key]) && key.intent in s.intents
    ensures Reached(Count(t.proposals[key].ballot.cancellations), s.intents[key.intent].def.cancellationThreshold)
  {
    hide ApplyPropose, ApplyApprove, ApplyExecute, ApplyCleanup, Has, Count, Signed, AfterCancel, Inv;
    if IsVote(ins) {
      if ins.Approve? {
        ApproveOutcome(env, s, ins, t, key);
      } else {
        CancelOutcome(env, s, ins, t, key);
      }
    } else {
      NoVote(env, s, ins, t, key);
    }
  }

  lemma ApproveOutcome(env: Env, s: State, ins: Instruction, t: State, key: Key)
    requires Inv(env, s) && t == Next(env, s, ins) && ins.Approve? && key in s.proposals && key in t.proposals
    ensures t.proposals[key].status == Cancelled ==> s.proposals[key].status == Cancelled
  {
    hide Inv, Has, Count, Signed, LoadIntent, Ballot.Approve;
  }

  lemma CancelOutcome(env: Env, s: State, ins: Instruction, t: State, key: Key)
    requires Inv(env, s) && t == Next(env, s, ins) && ins.Cancel? && key in s.proposals && key in t.proposals
    requires s.proposals[key].status != Cancelled && t.proposals[key].status == Cancelled
    ensures ins.key == key && Apply(env, s, ins).Ok? && Open(s.proposals[key]) && key.intent in s.intents
    ensures Reached(Count(t.proposals[key].ballot.cancellations), s.intents[key.intent].def.cancellationThreshold)
  {
    hide Inv, Has, Count, Signed, ProposalOk, AfterCancel;
    if ins.key == key && Apply(env, s, ins).Ok? {
      RecordsOk(env, s, key);
      AfterCancelOk(env, s.intents[key.intent].def, key, s.proposals[key], ins.slot, s.clock, s.proposalIndex);
    }
  }

  lemma RecordsOk(env: Env, s: State, key: Key)
    requires Inv(env, s) && key in s.proposals
    ensures key.intent in s.intents
    ensures ProposalOk(env, s.intents[key.intent].def, key, s.proposals[key], s.clock, s.proposalIndex)
  {
    hide ProposalOk, EffectsOk, OpenKeys;
  }

  // ---- Signatures ----

  /** `signer` has signed the message of `action` on the proposal with this index, definition and parameters. */
  predicate SignedFor(env: Env, ctx: MessageText.Context, def: Definition, params: Bytes, signer: Address,
                      signature: Bytes)
  {
    var message := MessageText.Message(env, ctx, def, params);
    message.Ok? && env.verifies(signer, signature, message.value)
  }

  /** A successful vote carries its approver's signature, not yet expired, on the proposal as it is stored. */
  lemma VoteIsSigned(env: Env, s: State, ins: Instruction)
    requires Inv(env, s) && IsVote(ins) && Apply(env, s, ins).Ok?
    ensures ins.key in s.proposals && ins.key.intent in s.intents && s.clock < ins.expiry
    ensures var (def, params) := (s.intents[ins.key.intent].def, s.proposals[ins.key].params);
            && ins.slot < |def.approvers| && def.wallet == env.walletAddress
            && (ins.Approve? ==>
                  SignedFor(env, MessageText.Context(ins.expiry, MessageText.Approve, s.name, ins.key.index), def,
                            params,
                            def.approvers[ins.slot], ins.signature))
            && (ins.Cancel? ==>
                  SignedFor(env, MessageText.Context(ins.expiry, MessageText.Cancel, s.name, ins.key.index), def,
                            params,
                            def.approvers[ins.slot], ins.signature))
  {
    hide Inv, Has, AfterApprove, AfterCancel, MessageText.Message, ProposalOk;
    if ins.key in s.proposals {
      RecordsOk(env, s, ins.key);
      OwnIndex(env, s.intents[ins.key.intent].def, ins.key, s.proposals[ins.key], s.clock, s.proposalIndex);
    }
  }

  lemma OwnIndex(env: Env, def: Definition, key: Key, p: Proposal, clock: i64, bound: u64)
    requires ProposalOk(env, def, key, p, clock, bound)
    ensures p.proposalIndex == key.index
  {
    hide VotesOk, ParamsOk, Ballot.Proper;
  }

  /** A successful `propose` carries the signature of one of the intent's proposers, and its intent is switched on. */
  lemma ProposeIsSigned(env: Env, s: State, ins: Instruction, t: State)
    requires ins.Propose? && Apply(env, s, ins) == Ok(t)
    ensures ins.intent in s.intents && s.intents[ins.intent].approved != 0 && s.clock < ins.expiry
    ensures t.intents.Keys == s.intents.Keys && t.intents[ins.intent].def == s.intents[ins.intent].def
    ensures var (def, key) := (s.intents[ins.intent].def, Key(ins.intent, s.proposalIndex));
            && ins.proposer in def.proposers && def.wallet == env.walletAddress
            && SignedFor(env, MessageText.Context(ins.expiry, MessageText.Propose, s.name, s.proposalIndex), def,
                         ins.params,
                         ins.proposer, ins.signature)
            && key in t.proposals && t.proposals[key].params == ins.params && t.proposals[key].status == Active
            && t.proposals[key].rentRefund == ins.payer
  {
    hide Params.Validated, MessageText.Message;
  }
}
