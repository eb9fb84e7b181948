/** Whole runs: what holds from the creation of a wallet through any sequence of instructions. */
module Runs {
  import opened Bytes
  import opened Ballots
  import opened Definition
  import opened Governance
  import opened Invariant
  import opened Steps

  datatype Run = Run(env: Env, start: State, steps: seq<Instruction>)

  /** The state after the first `n` instructions. */
  function At(run: Run, n: nat): (s: State)
    requires n <= |run.steps|
  {
    if n == 0 then run.start else Next(run.env, At(run, n - 1), run.steps[n - 1])
  }

  /** Instruction `n` takes effect. */
  predicate Succeeds(run: Run, n: nat)
    requires n < |run.steps|
  {
    Apply(run.env, At(run, n), run.steps[n]).Ok?
  }

  /** A run from a wallet without proposals, among any accounts; nothing is asked of what anyone installs. */
  predicate Started(run: Run)
  {
    Inv(run.env, run.start) && run.start.proposals == map[] && run.start.effects == []
  }

  lemma StartsEmpty(run: Run)
    requires Started(run)
    ensures At(run, 0).proposals == map[] && At(run, 0).effects == []
  {
    hide Inv, Apply;
  }

  lemma {:induction false} Reachable(run: Run, n: nat)
    requires Started(run) && n <= |run.steps|
    ensures Inv(run.env, At(run, n))
  {
    hide Inv, Apply;
    if n > 0 {
      Reachable(run, n - 1);
      StepKeeps(run.env, At(run, n - 1), run.steps[n - 1]);
    }
  }

  lemma StepOf(run: Run, n: nat, key: Key)
    requires Started(run) && n < |run.steps|
    ensures Inv(run.env, At(run, n)) && Inv(run.env, At(run, n + 1))
    ensures At(run, n + 1) == Next(run.env, At(run, n), run.steps[n])
    ensures WalletStep(At(run, n), At(run, n + 1))
    ensures ProposalStep(At(run, n), At(run, n + 1), key)
    ensures IntentFrozen(At(run, n), At(run, n + 1), key)
  {
    hide Next, Inv, Progress, WalletStep, ProposalStep, IntentFrozen, Started;
    Reachable(run, n);
    Reachable(run, n + 1);
    Progresses(run.env, At(run, n), run.steps[n]);
    ProgressFor(At(run, n), At(run, n + 1), key);
  }

  /** A key for facts about the wallet alone. */
  ghost function AnyKey(): (key: Key)
  {
    Key(seq(32, _ => 0), 0)
  }

  // ---- Identity of proposals ----

  lemma {:induction false} WalletGrows(run: Run, a: nat, b: nat)
    requires Started(run) && a <= b <= |run.steps|
    ensures WalletStep(At(run, a), At(run, b))
    decreases b
  {
    hide Started, At, Inv, Next, ProposalStep, IntentFrozen;
    if a < b {
      WalletGrows(run, a, b - 1);
      StepOf(run, b - 1, AnyKey());
    }
  }

  /** A key that is absent although its index has been handed out never appears again. */
  lemma {:induction false} NoReuse(run: Run, key: Key, a: nat, b: nat)
    requires Started(run) && a <= b <= |run.steps|
    requires key !in At(run, a).proposals && key.index < At(run, a).proposalIndex
    ensures key !in At(run, b).proposals
    decreases b
  {
    hide Started, At, Inv, Next, IntentFrozen, SameRecord;
    if a < b {
      NoReuse(run, key, a, b - 1);
      WalletGrows(run, a, b - 1);
      StepOf(run, b - 1, key);
    }
  }

  lemma IndexHandedOut(run: Run, key: Key, n: nat)
    requires Started(run) && n <= |run.steps| && key in At(run, n).proposals
    ensures key.index < At(run, n).proposalIndex
  {
    Reachable(run, n);
    KeysBelow(run.env, At(run, n));
    hide At, Started;
  }

  /** A proposal present at two moments is present in between, with the same record; closed proposals never change. */
  lemma {:induction false} Persists(run: Run, key: Key, a: nat, m: nat, b: nat)
    requires Started(run) && a <= m <= b <= |run.steps|
    requires key in At(run, a).proposals && key in At(run, b).proposals
    ensures key in At(run, m).proposals
    ensures SameRecord(At(run, a).proposals[key], At(run, m).proposals[key])
    ensures !Open(At(run, a).proposals[key]) ==> At(run, m).proposals[key] == At(run, a).proposals[key]
    decreases m
  {
    hide Started, At, Inv, Next, IntentFrozen;
    if key !in At(run, m).proposals {
      IndexHandedOut(run, key, a);
      WalletGrows(run, a, m);
      NoReuse(run, key, m, b);
    }
    if a < m {
      Persists(run, key, a, m - 1, m);
      StepOf(run, m - 1, key);
    }
  }

  /** From proposing until closing, the intent's definition and switch are those of any earlier or later moment. */
  lemma {:induction false} Frozen(run: Run, key: Key, a: nat, b: nat)
    requires Started(run) && a <= b <= |run.steps|
    requires key in At(run, a).proposals && key in At(run, b).proposals && Open(At(run, b).proposals[key])
    ensures Open(At(run, a).proposals[key])
    ensures key.intent in At(run, a).intents && key.intent in At(run, b).intents
    ensures At(run, b).intents[key.intent].def == At(run, a).intents[key.intent].def
    ensures At(run, b).intents[key.intent].approved == At(run, a).intents[key.intent].approved
    ensures At(run, b).proposals[key].params == At(run, a).proposals[key].params
    ensures At(run, b).proposals[key].proposalIndex == At(run, a).proposals[key].proposalIndex == key.index
    ensures At(run, b).name == At(run, a).name
    decreases b
  {
    hide Started, At, Inv, Next;
    RecordAt(run, key, a);
    if a < b {
      Persists(run, key, a, b - 1, b);
      Persists(run, key, a, b, b);
      StepOf(run, b - 1, key);
      Frozen(run, key, a, b - 1);
    }
  }

  lemma RecordAt(run: Run, key: Key, n: nat)
    requires Started(run) && n <= |run.steps| && key in At(run, n).proposals
    ensures key.intent in At(run, n).intents && At(run, n).proposals[key].proposalIndex == key.index
  {
    Reachable(run, n);
    hide At, Started, IntentsOk, EffectsOk, VotesOk, ParamsOk;
  }

  /** No two successful executions of the same proposal, whatever happens in between. */
  lemma ExecutesOnce(run: Run, key: Key, m: nat, n: nat)
    requires Started(run) && m < n < |run.steps|
    requires run.steps[m].Execute? && run.steps[m].key == key && Succeeds(run, m)
    requires run.steps[n].Execute? && run.steps[n].key == key
    ensures !Succeeds(run, n)
  {
    hide At, Started, Succeeds, SameRecord;
    if Succeeds(run, n) {
      ExecuteCloses(run, m);
      ExecuteNeedsApproved(run, n);
      Persists(run, key, m + 1, n, n);
    }
  }

  lemma ExecuteNeedsApproved(run: Run, n: nat)
    requires n < |run.steps| && run.steps[n].Execute? && Succeeds(run, n)
    ensures run.steps[n].key in At(run, n).proposals
    ensures At(run, n).proposals[run.steps[n].key].status == Approved
    ensures run.steps[n].key.intent in At(run, n).intents
    ensures var (s, key) := (At(run, n), run.steps[n].key);
            && s.proposals[key].approvedAt + s.intents[key.intent].def.timelockSeconds <= s.clock
            && s.intents[key.intent].def.wallet == run.env.walletAddress
    ensures var declared := run.steps[n].declared;
            && declared.vault.address == run.env.vaultAddress && declared.wallet.address == run.env.walletAddress
            && declared.system.address == run.env.systemAddress
  {
    hide At, ExecuteBranch, Close;
  }

  lemma ExecuteCloses(run: Run, n: nat)
    requires Started(run) && n < |run.steps| && run.steps[n].Execute? && Succeeds(run, n)
    ensures run.steps[n].key in At(run, n + 1).proposals
    ensures At(run, n + 1).proposals[run.steps[n].key].status == Executed
  {
    ExecuteNeedsApproved(run, n);
    assert At(run, n + 1) == Apply(run.env, At(run, n), run.steps[n]).value;
    hide At, Started, ExecuteBranch, Inv;
  }

  // ---- Votes as a history ----

  /**
   The latest verified vote of a slot on a proposal among the first `n` instructions; `true` is an approval. A list has
   at most 16 approvers unless a raw body says otherwise, and then slots that agree modulo 16 share a vote.
   */
  function LatestVote(run: Run, key: Key, slot: nat, n: nat): (r: Option<bool>)
    requires n <= |run.steps|
  {
    if n == 0 then None
    else
      match run.steps[n - 1]
      case Approve(k, _, i, _) =>
        if k == key && i % 16 == slot && Succeeds(run, n - 1) then Some(true) else LatestVote(run, key, slot, n - 1)
      case Cancel(k, _, i, _) =>
        if k == key && i % 16 == slot && Succeeds(run, n - 1) then Some(false) else LatestVote(run, key, slot, n - 1)
      case _ => LatestVote(run, key, slot, n - 1)
  }

  predicate BallotShows(b: Ballot, slot: nat, vote: Option<bool>)
  {
    (Has(b.approvals, slot) <==> vote == Some(true)) && (Has(b.cancellations, slot) <==> vote == Some(false))
  }

  lemma VoteNeedsProposal(run: Run, n: nat)
    requires n < |run.steps| && Succeeds(run, n) && (run.steps[n].Approve? || run.steps[n].Cancel?)
    ensures run.steps[n].key in At(run, n).proposals
  {
    hide At, Signed, Has, AfterApprove, AfterCancel;
  }

  /** Before its index is handed out a proposal has no votes. */
  lemma {:induction false} NoEarlyVotes(run: Run, key: Key, slot: nat, n: nat)
    requires Started(run) && n <= |run.steps| && At(run, n).proposalIndex <= key.index
    ensures LatestVote(run, key, slot, n) == None
  {
    hide Started, At, Inv, Succeeds, IntentFrozen, ProposalStep;
    if n > 0 {
      WalletGrows(run, n - 1, n);
      NoEarlyVotes(run, key, slot, n - 1);
      if (run.steps[n - 1].Approve? || run.steps[n - 1].Cancel?) && Succeeds(run, n - 1) {
        VoteNeedsProposal(run, n - 1);
        IndexHandedOut(run, run.steps[n - 1].key, n - 1);
      }
    }
  }

  /** In every state the bitmaps of a proposal are exactly the latest verified votes. */
  lemma {:induction false} VotesTracked(run: Run, key: Key, slot: nat, n: nat)
    requires Started(run) && n <= |run.steps| && slot < 16 && key in At(run, n).proposals
    ensures BallotShows(At(run, n).proposals[key].ballot, slot, LatestVote(run, key, slot, n))
  {
    hide Started, Inv, Has, At, Next, Apply, IntentFrozen, SameRecord;
    if n == 0 {
      StartsEmpty(run);
    } else {
      var (s, t) := (At(run, n - 1), At(run, n));
      StepOf(run, n - 1, key);
      if key in s.proposals {
        VotesTracked(run, key, slot, n - 1);
        VoteStep(run.env, s, run.steps[n - 1], t, key, slot);
      } else {
        NoEarlyVotes(run, key, slot, n - 1);
        NewHasNoVotes(run, key, slot, n - 1);
        EmptyShows(slot);
      }
    }
  }

  lemma EmptyShows(slot: nat)
    requires slot < 16
    ensures BallotShows(Ballot(0, 0), slot, None)
  {
    EmptyBallot(0);
    hide Has;
  }

  /** The instruction that creates a proposal is no vote on it. */
  lemma NewHasNoVotes(run: Run, key: Key, slot: nat, n: nat)
    requires Started(run) && n < |run.steps| && key !in At(run, n).proposals
    requires LatestVote(run, key, slot, n) == None
    ensures LatestVote(run, key, slot, n + 1) == None
  {
    hide Started, At, Inv, Succeeds;
    if IsVote(run.steps[n]) && Succeeds(run, n) {
      VoteNeedsProposal(run, n);
    }
  }

  // ---- Quorum and timelock ----

  /** The instruction that approved a proposal, if it is approved now; the proposal stays approved from then on. */
  lemma {:induction false} ApprovalInstant(run: Run, key: Key, n: nat) returns (a: nat)
    requires Started(run) && n <= |run.steps|
    requires key in At(run, n).proposals && At(run, n).proposals[key].status == Approved
    ensures a < n && run.steps[a].Approve? && run.steps[a].key == key && Succeeds(run, a)
    ensures At(run, a).clock == At(run, n).proposals[key].approvedAt
    ensures forall m :: a < m <= n ==>
              && key in At(run, m).proposals
              && At(run, m).proposals[key].status == Approved
              && At(run, m).proposals[key].approvedAt == At(run, n).proposals[key].approvedAt
  {
    hide Started, Inv, At, Next, Apply, IntentFrozen, WalletStep, SameRecord;
    StartsEmpty(run);
    var (s, t) := (At(run, n - 1), At(run, n));
    StepOf(run, n - 1, key);
    BecomesApproved(run.env, s, run.steps[n - 1], t, key);
    if s.proposals[key].status == Approved {
      a := ApprovalInstant(run, key, n - 1);
    } else {
      a := n - 1;
    }
  }

  /** The slots whose latest verified vote on a proposal is an approval. */
  function Approvers(run: Run, key: Key, n: nat): (s: set<nat>)
    requires n <= |run.steps|
  {
    set i | 0 <= i < 16 && LatestVote(run, key, i, n) == Some(true)
  }

  /**
   An approved proposal has exactly the threshold of standing approvals; a raw body may set it to zero, and then a
   single approval was enough.
   */
  lemma ApprovedHasQuorum(run: Run, key: Key, n: nat)
    requires Started(run) && n <= |run.steps|
    requires key in At(run, n).proposals && At(run, n).proposals[key].status == Approved
    ensures key.intent in At(run, n).intents
    ensures Reached(|Approvers(run, key, n)|, At(run, n).intents[key.intent].def.approvalThreshold)
  {
    Reachable(run, n);
    ApprovedCount(run.env, At(run, n), key);
    hide At, Started, Inv, Has;
    var b := At(run, n).proposals[key].ballot;
    forall i | 0 <= i < 16
      ensures Has(b.approvals, i) <==> LatestVote(run, key, i, n) == Some(true)
    {
      VotesTracked(run, key, i, n);
    }
    SlotsCount(b.approvals, 16);
    assert Slots(b.approvals, 16) == Approvers(run, key, n);
  }

  lemma ApprovedCount(env: Env, s: State, key: Key)
    requires Inv(env, s) && key in s.proposals && s.proposals[key].status == Approved
    ensures key.intent in s.intents
            && Reached(Count(s.proposals[key].ballot.approvals), s.intents[key.intent].def.approvalThreshold)
  {
    hide IntentsOk, EffectsOk, ParamsOk, Ballot.Proper, Count;
  }

  /**
   Quorum and timelock: when a proposal executes there is an approval at least the timelock ago, and at every moment
   since, exactly the threshold (if it is positive) of approver slots had an approval as their latest verified vote.
   */
  lemma QuorumAndTimelock(run: Run, n: nat) returns (a: nat)
    requires Started(run) && n < |run.steps| && run.steps[n].Execute? && Succeeds(run, n)
    ensures var key := run.steps[n].key;
            && key.intent in At(run, n).intents
            && var def := At(run, n).intents[key.intent].def;
            && a < n && run.steps[a].Approve? && run.steps[a].key == key && Succeeds(run, a)
            && At(run, a).clock + def.timelockSeconds <= At(run, n).clock
            && forall m :: a < m <= n ==> Reached(|Approvers(run, key, m)|, def.approvalThreshold)
  {
    var key := run.steps[n].key;
    ExecuteNeedsApproved(run, n);
    hide At, Started, Succeeds, Approvers;
    a := ApprovalInstant(run, key, n);
    forall m | a < m <= n
      ensures Reached(|Approvers(run, key, m)|, At(run, n).intents[key.intent].def.approvalThreshold)
    {
      ApprovedHasQuorum(run, key, m);
      Frozen(run, key, m, n);
    }
  }
}
