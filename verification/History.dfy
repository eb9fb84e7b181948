/** What the record of a run says about the proposals in its states: who signed them, and how they were closed. */
module History {
  import opened Bytes
  import opened Ballots
  import opened Definition
  import opened Governance
  import opened Invariant
  import opened Runs
  import opened Steps
  import Interpreter
  import MessageText
  import Params

  // ---- Runs start at a created wallet ----

  /** Every run from a freshly created wallet is covered by the theorems about runs. */
  lemma StartedFromCreation(env: Env, wallets: set<Address>, existing: map<Address, Intent>, taken: set<Key>,
                            clock: i64, nameHash: Address, args: CreateArgs, run: Run)
    requires Surroundings(env, existing)
    requires Created(env, wallets, existing, taken, clock, nameHash, args) == Ok(run.start) && run.env == env
    ensures Started(run)
  {
    hide Inv, CreateCheck, Surroundings;
    CreatedOk(env, wallets, existing, taken, clock, nameHash, args);
  }

  // ---- Proposals come from signed proposals ----

  /** Instruction `m` proposed `key`, with the signature of a proposer of its intent. */
  predicate ProposedAt(run: Run, key: Key, m: nat)
    requires m < |run.steps|
  {
    var (s, ins) := (At(run, m), run.steps[m]);
    && ins.Propose? && Succeeds(run, m) && key == Key(ins.intent, s.proposalIndex) && key.intent in s.intents
    && s.intents[key.intent].approved != 0 && s.clock < ins.expiry
    && ins.proposer in s.intents[key.intent].def.proposers
    && s.intents[key.intent].def.wallet == run.env.walletAddress
    && SignedFor(run.env, MessageText.Context(ins.expiry, MessageText.Propose, s.name, key.index),
                 s.intents[key.intent].def,
                 ins.params, ins.proposer, ins.signature)
  }

  /** Every proposal in a state was proposed earlier in the run, and still carries the parameters that were signed. */
  lemma {:induction false} Origin(run: Run, key: Key, n: nat) returns (m: nat)
    requires Started(run) && n <= |run.steps| && key in At(run, n).proposals
    ensures m < n && ProposedAt(run, key, m)
    ensures key in At(run, m + 1).proposals && At(run, m + 1).proposals[key].status == Active
    ensures At(run, n).proposals[key].params == run.steps[m].params
    ensures At(run, n).proposals[key].rentRefund == run.steps[m].payer
    ensures At(run, m + 1).intents.Keys == At(run, m).intents.Keys
    ensures At(run, m + 1).intents[key.intent].def == At(run, m).intents[key.intent].def
  {
    hide Started, At, Inv, Next, Apply, IntentFrozen, WalletStep, Open, SignedFor;
    StartsEmpty(run);
    var (s, t) := (At(run, n - 1), At(run, n));
    StepOf(run, n - 1, key);
    if key in s.proposals {
      m := Origin(run, key, n - 1);
    } else {
      m := n - 1;
      Appears(run.env, s, run.steps[m], t, key);
      SucceedsTo(run, m);
      ProposeIsSigned(run.env, s, run.steps[m], t);
    }
  }

  lemma SucceedsTo(run: Run, n: nat)
    requires n < |run.steps| && Succeeds(run, n)
    ensures Apply(run.env, At(run, n), run.steps[n]) == Ok(At(run, n + 1))
  {
    hide Apply;
  }

  // ---- Standing approvals are signed approvals ----

  /** The instruction that cast a slot's standing approval; no later vote of the slot took it back. */
  lemma {:induction false} LatestApproval(run: Run, key: Key, slot: nat, n: nat) returns (m: nat)
    requires n <= |run.steps| && LatestVote(run, key, slot, n) == Some(true)
    ensures m < n && run.steps[m].Approve? && run.steps[m].key == key && Succeeds(run, m)
    ensures run.steps[m].slot % 16 == slot
    ensures forall k :: m < k <= n ==> LatestVote(run, key, slot, k) == Some(true)
  {
    hide Succeeds, At;
    var ins := run.steps[n - 1];
    if ins.Approve? && ins.key == key && ins.slot % 16 == slot && Succeeds(run, n - 1) {
      m := n - 1;
    } else {
      m := LatestApproval(run, key, slot, n - 1);
    }
  }

  /**
   Instruction `m` is an approval of `key` by `slot`, signed over this definition and these parameters by the approver
   it names; in a list of at most 16 that is the one at `slot` itself.
   */
  predicate ApprovedAt(run: Run, key: Key, slot: nat, def: Definition, params: Bytes, m: nat)
    requires m < |run.steps|
  {
    var (s, ins) := (At(run, m), run.steps[m]);
    && ins.Approve? && ins.key == key && ins.slot % 16 == slot && Succeeds(run, m) && s.clock < ins.expiry
    && ins.slot < |def.approvers| && def.wallet == run.env.walletAddress
    && SignedFor(run.env, MessageText.Context(ins.expiry, MessageText.Approve, s.name, key.index), def, params,
                 def.approvers[ins.slot], ins.signature)
  }

  lemma ApprovalIsSigned(run: Run, key: Key, slot: nat, m: nat)
    requires Started(run) && m < |run.steps| && Succeeds(run, m)
    requires run.steps[m].Approve? && run.steps[m].key == key && run.steps[m].slot % 16 == slot
    ensures key in At(run, m).proposals && key.intent in At(run, m).intents
    ensures ApprovedAt(run, key, slot, At(run, m).intents[key.intent].def, At(run, m).proposals[key].params, m)
  {
    hide Started, At, Inv, Apply, SignedFor;
    Reachable(run, m);
    VoteIsSigned(run.env, At(run, m), run.steps[m]);
  }

  /**
   What executes is what was signed: when a proposal executes, exactly the (positive) threshold of approver slots stand
   by an approval, and each of these approvals was signed, before it expired, over the message of the very definition,
   parameters, wallet name and index that are executed.
   */
  lemma ExecutedMeansSigned(run: Run, n: nat, slot: nat) returns (m: nat)
    requires Started(run) && n < |run.steps| && run.steps[n].Execute? && Succeeds(run, n)
    requires slot in Approvers(run, run.steps[n].key, n)
    ensures var key := run.steps[n].key;
            && key in At(run, n).proposals && key.intent in At(run, n).intents
            && m < n && At(run, m).name == At(run, n).name
            && ApprovedAt(run, key, slot, At(run, n).intents[key.intent].def, At(run, n).proposals[key].params, m)
            && Reached(|Approvers(run, key, n)|, At(run, n).intents[key.intent].def.approvalThreshold)
  {
    var key := run.steps[n].key;
    ExecuteNeedsApproved(run, n);
    hide Started, At, Inv, Succeeds, SignedFor, LatestVote;
    ApprovedHasQuorum(run, key, n);
    m := LatestApproval(run, key, slot, n);
    ApprovalIsSigned(run, key, slot, m);
    Frozen(run, key, m, n);
  }

  // ---- How many people sign ----

  predicate AllDifferent(list: seq<Address>, slots: set<nat>)
    requires forall i :: i in slots ==> i < |list|
  {
    forall i, j :: i in slots && j in slots && list[i] == list[j] ==> i == j
  }

  function AddressesAt(list: seq<Address>, slots: set<nat>): (r: set<Address>)
    requires forall i :: i in slots ==> i < |list|
  {
    set i | i in slots :: list[i]
  }

  /** Slots hold as many addresses as there are slots exactly when no two hold the same. */
  lemma {:induction false} AddressesCount(list: seq<Address>, slots: set<nat>)
    requires forall i :: i in slots ==> i < |list|
    ensures |AddressesAt(list, slots)| <= |slots|
    ensures |AddressesAt(list, slots)| == |slots| <==> AllDifferent(list, slots)
  {
    if slots != {} {
      var i :| i in slots;
      var rest := slots - {i};
      AddressesCount(list, rest);
      if list[i] in AddressesAt(list, rest) {
        assert AddressesAt(list, slots) == AddressesAt(list, rest);
        assert !AllDifferent(list, slots);
      } else {
        assert AddressesAt(list, slots) == AddressesAt(list, rest) + {list[i]};
        assert AllDifferent(list, rest) ==> AllDifferent(list, slots);
      }
    }
  }

  /** The keys that signed the standing approvals of a proposal. */
  function Signers(run: Run, key: Key, list: seq<Address>, n: nat): (r: set<Address>)
    requires n <= |run.steps|
  {
    set i | i in Approvers(run, key, n) && i < |list| :: list[i]
  }

  /** The slot's own approver has approved, with a signature over this definition and these parameters. */
  ghost predicate SlotSigned(run: Run, key: Key, slot: nat, def: Definition, params: Bytes, n: nat)
    requires n <= |run.steps|
  {
    exists m :: 0 <= m < n && ApprovedAt(run, key, slot, def, params, m) && run.steps[m].slot == slot
  }

  lemma StandingIsSigned(run: Run, n: nat, slot: nat)
    requires Started(run) && n < |run.steps| && run.steps[n].Execute? && Succeeds(run, n)
    requires run.steps[n].key.intent in At(run, n).intents && slot in Approvers(run, run.steps[n].key, n)
    requires |At(run, n).intents[run.steps[n].key.intent].def.approvers| <= 16
    ensures var (key, def) := (run.steps[n].key, At(run, n).intents[run.steps[n].key.intent].def);
            && key in At(run, n).proposals && slot < |def.approvers|
            && SlotSigned(run, key, slot, def, At(run, n).proposals[key].params, n)
  {
    hide Started, At, Inv, Succeeds, Approvers, ApprovedAt;
    var (key, def) := (run.steps[n].key, At(run, n).intents[run.steps[n].key.intent].def);
    var m := ExecutedMeansSigned(run, n, slot);
    ApprovedSlot(run, key, slot, def, At(run, n).proposals[key].params, m);
  }

  /**
   When a proposal executes, the keys behind its standing approvals are threshold many different ones exactly when the
   standing slots hold different addresses. The program accepts a list with repetitions, and the message names no slot,
   so one key can fill several; a list without repetitions rules that out.
   */
  lemma DifferentSignersIff(run: Run, n: nat)
    requires Started(run) && n < |run.steps| && run.steps[n].Execute? && Succeeds(run, n)
    requires run.steps[n].key.intent in At(run, n).intents
    requires |At(run, n).intents[run.steps[n].key.intent].def.approvers| <= 16
    ensures var (key, def) := (run.steps[n].key, At(run, n).intents[run.steps[n].key.intent].def);
            var slots := Approvers(run, key, n);
            && key in At(run, n).proposals
            && (forall i :: i in slots ==>
                  i < |def.approvers| && SlotSigned(run, key, i, def, At(run, n).proposals[key].params, n))
            && (def.approvalThreshold > 0 ==>
                  (|Signers(run, key, def.approvers, n)| == def.approvalThreshold
                   <==> AllDifferent(def.approvers, slots)))
            && ((forall i, j :: 0 <= i < j < |def.approvers| ==> def.approvers[i] != def.approvers[j]) ==>
                  AllDifferent(def.approvers, slots))
  {
    ExecuteNeedsApproved(run, n);
    hide Started, At, Inv, Succeeds, Approvers, SlotSigned, Signers, AllDifferent;
    var (key, def) := (run.steps[n].key, At(run, n).intents[run.steps[n].key.intent].def);
    var slots := Approvers(run, key, n);
    forall i | i in slots
      ensures i < |def.approvers| && SlotSigned(run, key, i, def, At(run, n).proposals[key].params, n)
    {
      StandingIsSigned(run, n, i);
    }
    ApprovedHasQuorum(run, key, n);
    SignersCount(run, key, def.approvers, n);
  }

  lemma SignersCount(run: Run, key: Key, list: seq<Address>, n: nat)
    requires n <= |run.steps| && forall i :: i in Approvers(run, key, n) ==> i < |list|
    ensures |Signers(run, key, list, n)| == |Approvers(run, key, n)| <==> AllDifferent(list, Approvers(run, key, n))
    ensures (forall i, j :: 0 <= i < j < |list| ==> list[i] != list[j]) ==> AllDifferent(list, Approvers(run, key, n))
  {
    hide Approvers;
    var slots := Approvers(run, key, n);
    assert Signers(run, key, list, n) == AddressesAt(list, slots);
    AddressesCount(list, slots);
  }

  lemma ApprovedSlot(run: Run, key: Key, slot: nat, def: Definition, params: Bytes, m: nat)
    requires m < |run.steps| && ApprovedAt(run, key, slot, def, params, m) && |def.approvers| <= 16
    ensures run.steps[m].Approve? && run.steps[m].slot == slot < |def.approvers|
  {
    hide At, Succeeds, SignedFor;
  }

  // ---- Closing ----

  /** The slots whose latest verified vote on a proposal is a cancellation. */
  function Cancellers(run: Run, key: Key, n: nat): (s: set<nat>)
    requires n <= |run.steps|
  {
    set i | 0 <= i < 16 && LatestVote(run, key, i, n) == Some(false)
  }

  lemma CancellersCount(run: Run, key: Key, n: nat)
    requires Started(run) && n <= |run.steps| && key in At(run, n).proposals
    ensures |Cancellers(run, key, n)| == Count(At(run, n).proposals[key].ballot.cancellations)
  {
    hide At, Started, Inv, Has, LatestVote;
    var b := At(run, n).proposals[key].ballot;
    forall i | 0 <= i < 16
      ensures Has(b.cancellations, i) <==> LatestVote(run, key, i, n) == Some(false)
    {
      VotesTracked(run, key, i, n);
    }
    SlotsCount(b.cancellations, 16);
    assert Slots(b.cancellations, 16) == Cancellers(run, key, n);
  }

  /**
   A cancelled proposal was closed by the cancellation vote that brought its standing cancellations to the threshold,
   exactly if that is positive, and has not changed since.
   */
  lemma {:induction false} CancelledInstant(run: Run, key: Key, n: nat) returns (a: nat)
    requires Started(run) && n <= |run.steps|
    requires key in At(run, n).proposals && At(run, n).proposals[key].status == Cancelled
    ensures a < n && run.steps[a].Cancel? && run.steps[a].key == key && Succeeds(run, a)
    ensures key in At(run, a).proposals && Open(At(run, a).proposals[key]) && key.intent in At(run, a).intents
    ensures Reached(|Cancellers(run, key, a + 1)|, At(run, a).intents[key.intent].def.cancellationThreshold)
    ensures forall m :: a < m <= n ==>
              key in At(run, m).proposals && At(run, m).proposals[key] == At(run, n).proposals[key]
  {
    hide Started, At, Inv, Next, Apply, IntentFrozen, WalletStep, Cancellers;
    StartsEmpty(run);
    var (s, t) := (At(run, n - 1), At(run, n));
    StepOf(run, n - 1, key);
    if s.proposals[key].status == Cancelled {
      a := CancelledInstant(run, key, n - 1);
    } else {
      a := n - 1;
      BecomesCancelled(run.env, s, run.steps[a], t, key);
      CancellersCount(run, key, n);
    }
  }

  /** The keys of the successful executions among the first `n` instructions, in order. */
  function Executions(run: Run, n: nat): (r: seq<Key>)
    requires n <= |run.steps|
  {
    if n == 0 then []
    else if run.steps[n - 1].Execute? && Succeeds(run, n - 1) then Executions(run, n - 1) + [run.steps[n - 1].key]
    else Executions(run, n - 1)
  }

  function EffectKeys(effects: seq<Done>): (r: seq<Key>)
  {
    if effects == [] then [] else EffectKeys(effects[..|effects| - 1]) + [effects[|effects| - 1].key]
  }

  lemma EffectStep(env: Env, s: State, ins: Instruction, t: State)
    requires Inv(env, s) && t == Next(env, s, ins)
    ensures if ins.Execute? && Apply(env, s, ins).Ok? then
              |t.effects| == |s.effects| + 1 && t.effects[..|s.effects|] == s.effects
              && t.effects[|s.effects|].key == ins.key
            else t.effects == s.effects
  {
    hide Inv, Has, Count, Signed, LoadIntent, AfterApprove, AfterCancel, Params.Validated, ExecuteBranch, IntentsOk;
    if Apply(env, s, ins).Ok? && ins.Execute? {
      hide ExecuteCheck;
      ExecuteProposals(env, s, ins.key, ins.declared, ins.remaining);
      ExecuteEffects(env, s, ins.key, ins.declared, ins.remaining);
    }
  }

  lemma ExecuteEffects(env: Env, s: State, key: Key, declared: Interpreter.Declared,
                       remaining: seq<Interpreter.AccountView>)
    requires Inv(env, s) && ApplyExecute(env, s, key, declared, remaining).Ok?
    ensures key in s.proposals && key.intent in s.intents
    ensures var branch := ExecuteBranch(env, s, s.intents[key.intent].def, s.proposals[key].params, declared,
                                        remaining);
            && branch.Ok?
            && ApplyExecute(env, s, key, declared, remaining).value.effects == s.effects + [Done(key, branch.value.1)]
  {
    hide ExecuteBranch, Inv, IntentsOk;
    BranchKeeps(env, s, key, declared, remaining);
  }

  /** The recorded effects are those of the successful executions, in order, and no two are of the same proposal. */
  lemma {:induction false} EffectsAreExecutions(run: Run, n: nat)
    requires Started(run) && n <= |run.steps|
    ensures EffectKeys(At(run, n).effects) == Executions(run, n)
    ensures forall i, j :: 0 <= i < j < |At(run, n).effects| ==> At(run, n).effects[i].key != At(run, n).effects[j].key
  {
    hide Started, At, Inv, Next, Apply, IntentFrozen, WalletStep, ProposalStep;
    Reachable(run, n);
    EffectsDiffer(run.env, At(run, n));
    if n == 0 {
      StartsEmpty(run);
    } else {
      EffectsAreExecutions(run, n - 1);
      StepOf(run, n - 1, AnyKey());
      EffectStep(run.env, At(run, n - 1), run.steps[n - 1], At(run, n));
    }
  }

  lemma EffectsDiffer(env: Env, s: State)
    requires Inv(env, s)
    ensures forall i, j :: 0 <= i < j < |s.effects| ==> s.effects[i].key != s.effects[j].key
  {
    hide IntentsOk, ProposalsOk;
  }

  /**
   A proposal that is gone was removed by a cleanup once closed, in favour of the payer of the proposing instruction.
   */
  lemma CleanedUp(run: Run, key: Key, n: nat) returns (m: nat)
    requires Started(run) && n < |run.steps|
    requires key in At(run, n).proposals && key !in At(run, n + 1).proposals
    ensures !Open(At(run, n).proposals[key])
    ensures m < n && ProposedAt(run, key, m) && run.steps[n] == Cleanup(key, run.steps[m].payer)
  {
    hide At, Started, Inv, Next, ProposedAt, Open, WalletStep, ProposalStep, IntentFrozen;
    StepOf(run, n, key);
    Disappears(run.env, At(run, n), run.steps[n], At(run, n + 1), key);
    m := Origin(run, key, n);
    ProposedByPropose(run, key, m);
  }

  lemma ProposedByPropose(run: Run, key: Key, m: nat)
    requires m < |run.steps| && ProposedAt(run, key, m)
    ensures run.steps[m].Propose?
  {
    hide At, Succeeds, SignedFor;
  }

  // ---- The timelock restarts ----

  /**
   Whenever a proposal that executes was not approved, the timelock has run since: dropping back to active and being
   approved again starts it afresh.
   */
  lemma TimelockRestarts(run: Run, m: nat, n: nat)
    requires Started(run) && m < n < |run.steps| && run.steps[n].Execute? && Succeeds(run, n)
    requires var key := run.steps[n].key;
             key !in At(run, m).proposals || At(run, m).proposals[key].status != Approved
    ensures var key := run.steps[n].key;
            && key.intent in At(run, n).intents
            && At(run, m).clock + At(run, n).intents[key.intent].def.timelockSeconds <= At(run, n).clock
  {
    var key := run.steps[n].key;
    ExecuteNeedsApproved(run, n);
    hide Started, At, Inv, Succeeds;
    var a := ApprovalInstant(run, key, n);
    WalletGrows(run, m, a);
  }

  // ---- Every reachable state ----

  /**
   In every reachable state votes and status agree: no slot votes twice, only listed approvers vote, and an open
   proposal is approved exactly when its approvals have reached the threshold, which they never pass.
   */
  lemma VotesAgree(run: Run, n: nat, key: Key)
    requires Started(run) && n <= |run.steps| && key in At(run, n).proposals
    ensures At(run, n).proposals[key].ballot.Proper(16)
    ensures key.intent in At(run, n).intents
    ensures var (def, p) := (At(run, n).intents[key.intent].def, At(run, n).proposals[key]);
            Open(p) ==>
              && p.ballot.Proper(|def.approvers|)
              && Below(Count(p.ballot.cancellations), def.cancellationThreshold)
              && (def.approvalThreshold > 0 ==>
                    && Count(p.ballot.approvals) <= def.approvalThreshold
                    && (p.status == Approved <==> Count(p.ballot.approvals) == def.approvalThreshold))
  {
    hide At, Started, Inv, ParamsOk, Count, Ballot.Proper;
    Reachable(run, n);
    RecordsOk(run.env, At(run, n), key);
  }

  /**
   In every reachable state the wallet's own seeds are in use exactly up to the last index, and every intent that names
   the wallet, wherever it is, counts at least its open proposals, of which it has none when it is switched off.
   */
  lemma CountCovers(run: Run, n: nat, i: byte, a: Address)
    requires Started(run) && n <= |run.steps|
    ensures run.env.intentAddress(i) in At(run, n).intents <==> i <= At(run, n).intentIndex
    ensures a in At(run, n).intents && Names(run.env, At(run, n).intents[a]) ==>
              && At(run, n).intents[a].activeProposalCount >= |OpenKeys(At(run, n).proposals, a)|
              && (At(run, n).intents[a].approved == 0 ==> OpenKeys(At(run, n).proposals, a) == {})
  {
    hide At, Started, ProposalsOk, EffectsOk, OpenKeys;
    Reachable(run, n);
  }

  lemma OpenNamedAt(run: Run, n: nat, key: Key)
    requires Started(run) && n <= |run.steps| && key in At(run, n).proposals && Open(At(run, n).proposals[key])
    ensures key.intent in At(run, n).intents && Names(run.env, At(run, n).intents[key.intent])
  {
    hide At, Started, IntentsOk, ProposalsOk, EffectsOk;
    Reachable(run, n);
    OpenNamed(run.env, At(run, n), key);
  }

  /** Whenever an instruction closes a proposal its intent's count is positive: the subtraction never saturates. */
  lemma NeverSaturates(run: Run, n: nat, key: Key)
    requires Started(run) && n < |run.steps|
    requires key in At(run, n).proposals && Open(At(run, n).proposals[key])
    requires key !in At(run, n + 1).proposals || !Open(At(run, n + 1).proposals[key])
    ensures key.intent in At(run, n).intents && At(run, n).intents[key.intent].activeProposalCount >= 1
  {
    hide At, Started, Inv;
    VotesAgree(run, n, key);
    CountCovers(run, n, 0, key.intent);
    OpenNamedAt(run, n, key);
    assert key in OpenKeys(At(run, n).proposals, key.intent);
  }

  // ---- Identity over time ----

  /** Later proposals have larger indices, so an index names at most one proposal, ever. */
  lemma IndicesIncrease(run: Run, m: nat, n: nat)
    requires Started(run) && m < n < |run.steps| && run.steps[m].Propose? && Succeeds(run, m)
    ensures At(run, m).proposalIndex < At(run, n).proposalIndex
  {
    hide At, Started, Apply, Succeeds, Inv;
    SucceedsTo(run, m);
    ProposeAdvances(run.env, At(run, m), run.steps[m], At(run, m + 1));
    WalletGrows(run, m + 1, n);
  }

  lemma ProposeAdvances(env: Env, s: State, ins: Instruction, t: State)
    requires ins.Propose? && Apply(env, s, ins) == Ok(t)
    ensures t.proposalIndex == s.proposalIndex + 1
  {
    hide ProposeCheck, ApplyTick, ApplyApprove, ApplyCancel, ApplyExecute, ApplyCleanup;
  }

  /** Any two votes on one proposal are about the same content, wallet name and index. */
  lemma VotesShareContent(run: Run, m: nat, n: nat)
    requires Started(run) && m <= n < |run.steps|
    requires IsVote(run.steps[m]) && Succeeds(run, m) && IsVote(run.steps[n]) && Succeeds(run, n)
    requires run.steps[m].key == run.steps[n].key
    ensures var (key, s, t) := (run.steps[n].key, At(run, m), At(run, n));
            && key in s.proposals && key.intent in s.intents && key in t.proposals && key.intent in t.intents
            && s.name == t.name && s.proposals[key].proposalIndex == t.proposals[key].proposalIndex == key.index
            && MessageText.Content(run.env, s.intents[key.intent].def, s.proposals[key].params)
               == MessageText.Content(run.env, t.intents[key.intent].def, t.proposals[key].params)
  {
    var key := run.steps[n].key;
    hide Started, At, Inv, Apply, MessageText.Content;
    Reachable(run, m);
    Reachable(run, n);
    VoteLegal(run.env, At(run, m), run.steps[m]);
    VoteLegal(run.env, At(run, n), run.steps[n]);
    Frozen(run, key, m, n);
  }

  // ---- The same approval again ----

  /** The state still has the proposal, as it was, under its intent, as it was. */
  predicate SameBallotPaper(s: State, t: State, key: Key)
  {
    && key in s.proposals && key in t.proposals && key.intent in s.intents && key.intent in t.intents
    && t.intents[key.intent].def == s.intents[key.intent].def
    && t.intents[key.intent].approved == s.intents[key.intent].approved
    && t.proposals[key].params == s.proposals[key].params
    && t.proposals[key].proposalIndex == s.proposals[key].proposalIndex && t.name == s.name
  }

  lemma ApproveAgain(env: Env, s: State, t: State, ins: Instruction)
    requires ins.Approve? && Apply(env, s, ins).Ok? && SameBallotPaper(s, t, ins.key)
    ensures Apply(env, t, ins).Ok? <==>
            && t.proposals[ins.key].status == Active && !Has(t.proposals[ins.key].ballot.approvals, ins.slot)
            && t.clock < ins.expiry
  {
    hide Has, MessageText.Built, Approving, ApplyTick, ApplyPropose, ApplyCancel, ApplyExecute, ApplyCleanup,
      ApplyElsewhere, ApplyClaim;
  }

  lemma ApproveNeeds(env: Env, s: State, ins: Instruction)
    requires ins.Approve? && Apply(env, s, ins).Ok?
    ensures ins.key in s.proposals && s.proposals[ins.key].status == Active && s.clock < ins.expiry
    ensures !Has(s.proposals[ins.key].ballot.approvals, ins.slot)
  {
    hide Has, Signed, Approving, ApplyTick, ApplyPropose, ApplyCancel, ApplyExecute, ApplyCleanup, ApplyElsewhere,
         ApplyClaim;
  }

  /**
   An approval that once succeeded succeeds again, submitted unchanged, exactly while the proposal is active, the slot's
   approval does not stand and the expiry lies ahead: a withdrawn approval can be put back by the same signed message
   until it expires.
   */
  lemma ReplayIff(run: Run, k: nat, n: nat)
    requires Started(run) && k < n < |run.steps| && run.steps[n] == run.steps[k]
    requires run.steps[k].Approve? && Succeeds(run, k)
    ensures var (key, t) := (run.steps[k].key, At(run, n));
            Succeeds(run, n) <==>
              && key in t.proposals && t.proposals[key].status == Active
              && !Has(t.proposals[key].ballot.approvals, run.steps[k].slot) && t.clock < run.steps[k].expiry
  {
    hide Started, At, Inv, Apply, Has;
    var (ins, s, t) := (run.steps[k], At(run, k), At(run, n));
    ApproveNeeds(run.env, s, ins);
    if Succeeds(run, n) {
      ApproveNeeds(run.env, t, ins);
    }
    if ins.key in t.proposals && t.proposals[ins.key].status == Active {
      Frozen(run, ins.key, k, n);
      ApproveAgain(run.env, s, t, ins);
    }
  }
}
