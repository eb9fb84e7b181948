/** What every instruction of the governance state machine keeps. */
module Invariant {
  import opened Bytes
  import opened Ballots
  import opened Definition
  import opened Governance
  import Interpreter
  import Params

  // ---- The invariant ----

  /** The open proposals of an intent. */
  function OpenKeys(proposals: map<Key, Proposal>, i: Address): (r: set<Key>)
  {
    set k | k in proposals && k.intent == i && Open(proposals[k])
  }

  /** Distinct seeds give distinct addresses. */
  predicate SeedsDiffer(env: Env)
  {
    forall i: byte, j: byte :: env.intentAddress(i) == env.intentAddress(j) ==> i == j
  }

  /** An intent counts at least its open proposals, and has none when it is switched off. */
  predicate IntentOk(intent: Intent, open: nat)
  {
    intent.activeProposalCount >= open && (intent.approved == 0 ==> open == 0)
  }

  /** Votes and status agree: positive thresholds are reached exactly, never passed. */
  predicate VotesOk(def: Definition, p: Proposal)
  {
    && p.ballot.Proper(|def.approvers|)
    && Below(Count(p.ballot.cancellations), def.cancellationThreshold)
    && (p.status == Active ==> Below(Count(p.ballot.approvals), def.approvalThreshold))
    && (p.status == Approved ==> Reached(Count(p.ballot.approvals), def.approvalThreshold) && def.approvers != [])
  }

  /** A raw body may bring a threshold of zero, which the first vote meets and no number of votes is below. */
  predicate Below(votes: nat, threshold: byte)
  {
    votes == 0 || votes < threshold
  }

  predicate Reached(votes: nat, threshold: byte)
  {
    threshold == 0 || votes == threshold
  }

  predicate ParamsOk(env: Env, def: Definition, params: Bytes)
  {
    && |params| <= env.paramsCap
    && (def.intentType == Custom ==> Params.Validated(def.params, params, env.utf8).Ok?)
  }

  predicate ProposalOk(env: Env, def: Definition, key: Key, p: Proposal, clock: i64, bound: u64)
  {
    && key.index < bound && p.proposalIndex == key.index
    && p.ballot.Proper(16)
    && (Open(p) ==> def.wallet == env.walletAddress && VotesOk(def, p) && ParamsOk(env, def, p.params))
    && (p.status == Approved ==> p.approvedAt <= clock)
  }

  /** This wallet's own seeds are in use up to the last index, and intents that name it cover their open proposals. */
  predicate IntentsOk(env: Env, s: State)
  {
    && SeedsDiffer(env) && 2 <= s.intentIndex
    && (forall i: byte :: env.intentAddress(i) in s.intents <==> i <= s.intentIndex)
    && NamedOk(env, s)
  }

  predicate NamedOk(env: Env, s: State)
  {
    forall a :: a in s.intents && Names(env, s.intents[a]) ==> IntentOk(s.intents[a], |OpenKeys(s.proposals, a)|)
  }

  predicate ProposalsOk(env: Env, s: State)
  {
    && (forall k :: k in s.proposals ==>
          k.intent in s.intents
          && ProposalOk(env, s.intents[k.intent].def, k, s.proposals[k], s.clock, s.proposalIndex))
    && (forall k, l :: k in s.proposals && l in s.proposals && k.index == l.index ==> k == l)
  }

  /** Every recorded effect belongs to a different proposal, and that proposal is executed or gone. */
  predicate EffectsOk(s: State)
  {
    && (forall j :: 0 <= j < |s.effects| ==> s.effects[j].key.index < s.proposalIndex)
    && (forall j :: 0 <= j < |s.effects| && s.effects[j].key in s.proposals ==>
          s.proposals[s.effects[j].key].status == Executed)
    && (forall i, j :: 0 <= i < j < |s.effects| ==> s.effects[i].key != s.effects[j].key)
  }

  /** What every instruction keeps, whatever raw bodies this wallet or any other installs. */
  predicate Inv(env: Env, s: State)
  {
    IntentsOk(env, s) && ProposalsOk(env, s) && EffectsOk(s)
  }

  function AddedBody(env: Env, params: Bytes): (body: Intent)
  {
    env.decodeIntent(params[..if |params| < env.intentBodySize then |params| else env.intentBodySize])
  }

  // ---- Open proposals, counted ----

  lemma OpenKeysNew(proposals: map<Key, Proposal>, key: Key, p: Proposal, i: Address)
    requires key !in proposals && Open(p)
    ensures |OpenKeys(proposals[key := p], i)| == |OpenKeys(proposals, i)| + if i == key.intent then 1 else 0
  {
    var after := OpenKeys(proposals[key := p], i);
    if i == key.intent {
      assert after == OpenKeys(proposals, i) + {key};
    } else {
      assert after == OpenKeys(proposals, i);
    }
  }

  lemma OpenKeysStay(proposals: map<Key, Proposal>, key: Key, p: Proposal, i: Address)
    requires key in proposals && (Open(p) <==> Open(proposals[key]))
    ensures OpenKeys(proposals[key := p], i) == OpenKeys(proposals, i)
  {}

  lemma OpenKeysClose(proposals: map<Key, Proposal>, key: Key, p: Proposal, i: Address)
    requires key in proposals && Open(proposals[key]) && !Open(p)
    ensures |OpenKeys(proposals, key.intent)| >= 1
    ensures |OpenKeys(proposals[key := p], i)| == |OpenKeys(proposals, i)| - if i == key.intent then 1 else 0
  {
    var before, after := OpenKeys(proposals, i), OpenKeys(proposals[key := p], i);
    assert key in OpenKeys(proposals, key.intent);
    if i == key.intent {
      assert before == after + {key};
    } else {
      assert before == after;
    }
  }

  lemma OpenKeysRemove(proposals: map<Key, Proposal>, key: Key, i: Address)
    requires key in proposals && !Open(proposals[key])
    ensures OpenKeys(proposals - {key}, i) == OpenKeys(proposals, i)
  {}

  lemma NoneOpen(proposals: map<Key, Proposal>, i: Address, k: Key)
    requires |OpenKeys(proposals, i)| == 0 && k in proposals && k.intent == i
    ensures !Open(proposals[k])
  {
    assert k !in OpenKeys(proposals, i);
  }

  // ---- One lemma per instruction ----

  lemma TickKeeps(env: Env, s: State, to: i64)
    requires Inv(env, s) && ApplyTick(s, to).Ok?
    ensures Inv(env, ApplyTick(s, to).value)
  {
    hide VotesOk, ParamsOk, IntentOk, OpenKeys;
  }

  /** Running other wallets keeps the invariant, whatever they write. */
  lemma ElsewhereKeeps(env: Env, s: State, a: Address, body: Intent)
    requires Inv(env, s) && ApplyElsewhere(env, s, a, body).Ok?
    ensures Inv(env, ApplyElsewhere(env, s, a, body).value)
  {
    SetTarget(env, s, ApplyElsewhere(env, s, a, body).value, a, body);
    hide IntentsOk, ProposalsOk, EffectsOk, MayChange;
  }

  lemma ClaimKeeps(env: Env, s: State, keys: set<Key>)
    requires Inv(env, s) && ApplyClaim(s, keys).Ok?
    ensures Inv(env, ApplyClaim(s, keys).value)
  {
    hide ProposalOk, IntentOk, OpenKeys;
  }

  lemma CleanupKeeps(env: Env, s: State, key: Key, refund: Address)
    requires Inv(env, s) && ApplyCleanup(s, key, refund).Ok?
    ensures Inv(env, ApplyCleanup(s, key, refund).value)
  {
    hide ProposalOk, IntentOk, OpenKeys;
    forall i: Address
      ensures OpenKeys(s.proposals - {key}, i) == OpenKeys(s.proposals, i)
    {
      OpenKeysRemove(s.proposals, key, i);
    }
  }

  lemma ProposeKeeps(env: Env, s: State, i: Address, payer: Address, expiry: i64, proposer: Address, signature: Bytes,
                     params: Bytes)
    requires Inv(env, s)
    requires ApplyPropose(env, s, i, payer, expiry, proposer, signature, params).Ok?
    ensures Inv(env, ApplyPropose(env, s, i, payer, expiry, proposer, signature, params).value)
  {
    hide Signed, Params.Validated, OpenKeys, ProposalOk, IntentOk;
    var t := ApplyPropose(env, s, i, payer, expiry, proposer, signature, params).value;
    var key := Key(i, s.proposalIndex);
    NewProposalOk(env, s, i, payer, expiry, proposer, signature, params);
    ProposeIntents(env, s, t, key, t.proposals[key]);
    ProposeProposals(env, s, t, key, t.proposals[key]);
  }

  lemma NewProposalOk(env: Env, s: State, i: Address, payer: Address, expiry: i64, proposer: Address,
                      signature: Bytes, params: Bytes)
    requires Inv(env, s)
    requires ApplyPropose(env, s, i, payer, expiry, proposer, signature, params).Ok?
    ensures var t := ApplyPropose(env, s, i, payer, expiry, proposer, signature, params).value;
            var key := Key(i, s.proposalIndex);
            Open(t.proposals[key])
            && ProposalOk(env, s.intents[i].def, key, t.proposals[key], t.clock, t.proposalIndex)
  {
    hide Signed, Params.Validated, OpenKeys, Count, Has;
    EmptyBallot(|s.intents[i].def.approvers|);
    EmptyBallot(16);
  }

  lemma ProposeIntents(env: Env, s: State, t: State, key: Key, p: Proposal)
    requires Inv(env, s) && key !in s.proposals && Open(p) && key.intent in s.intents
    requires s.intents[key.intent].approved != 0 && s.intents[key.intent].activeProposalCount < 0xffff
    requires t.proposals == s.proposals[key := p] && t.intentIndex == s.intentIndex
    requires var intent := s.intents[key.intent];
             t.intents == s.intents[key.intent := intent.(activeProposalCount := intent.activeProposalCount + 1)]
    ensures IntentsOk(env, t)
  {
    hide OpenKeys, ProposalOk;
    forall i: Address
      ensures |OpenKeys(t.proposals, i)| == |OpenKeys(s.proposals, i)| + if i == key.intent then 1 else 0
    {
      OpenKeysNew(s.proposals, key, p, i);
    }
  }

  lemma ProposeProposals(env: Env, s: State, t: State, key: Key, p: Proposal)
    requires Inv(env, s) && key.intent in s.intents && key.index == s.proposalIndex < 0xffff_ffff_ffff_ffff
    requires ProposalOk(env, s.intents[key.intent].def, key, p, t.clock, t.proposalIndex)
    requires t.proposals == s.proposals[key := p] && t.proposalIndex == s.proposalIndex + 1
    requires t.clock == s.clock && t.effects == s.effects
    requires forall i :: i in s.intents ==> i in t.intents && t.intents[i].def == s.intents[i].def
    ensures ProposalsOk(env, t) && EffectsOk(t)
  {
    hide VotesOk, ParamsOk, IntentsOk;
    KeysBelow(env, s);
    ProposeEffects(s, t, key, p);
    hide EffectsOk;
  }

  lemma KeysBelow(env: Env, s: State)
    requires ProposalsOk(env, s)
    ensures forall k :: k in s.proposals ==> k.index < s.proposalIndex
  {
    hide VotesOk, ParamsOk;
  }

  lemma ProposeEffects(s: State, t: State, key: Key, p: Proposal)
    requires EffectsOk(s) && key.index == s.proposalIndex && t.proposals == s.proposals[key := p]
    requires t.proposalIndex >= s.proposalIndex && t.effects == s.effects
    ensures EffectsOk(t)
  {}

  /** One open proposal is replaced; everything an open proposal depends on stays. */
  lemma SwapProposal(env: Env, s: State, t: State, key: Key, q: Proposal)
    requires Inv(env, s) && key in s.proposals && Open(s.proposals[key])
    requires t.proposals == s.proposals[key := q] && t.proposalIndex == s.proposalIndex && t.clock == s.clock
    requires forall i :: i in s.intents ==> i in t.intents
    requires forall k :: k in s.proposals && k != key && Open(s.proposals[k]) ==>
               k.intent in s.intents && k.intent in t.intents && t.intents[k.intent].def == s.intents[k.intent].def
    requires key.intent in t.intents && ProposalOk(env, t.intents[key.intent].def, key, q, t.clock, t.proposalIndex)
    ensures ProposalsOk(env, t)
  {
    hide VotesOk, ParamsOk, IntentsOk, EffectsOk;
  }

  /** A proposal that is still open has had no effect. */
  lemma OpenHasNoEffect(s: State, key: Key)
    requires EffectsOk(s) && key in s.proposals && Open(s.proposals[key])
    ensures forall j :: 0 <= j < |s.effects| ==> s.effects[j].key != key
  {}

  lemma SwapEffects(s: State, t: State, key: Key, q: Proposal)
    requires EffectsOk(s) && key in s.proposals && Open(s.proposals[key])
    requires t.proposals == s.proposals[key := q] && t.proposalIndex == s.proposalIndex && t.effects == s.effects
    ensures EffectsOk(t)
  {
    OpenHasNoEffect(s, key);
  }

  lemma ProperAll(b: Ballot, n: nat)
    requires b.Proper(n)
    ensures b.Proper(16)
  {}

  /** An approval reaches a positive threshold exactly or stays below it. */
  lemma AfterApproveOk(env: Env, def: Definition, key: Key, p: Proposal, slot: byte, clock: i64, bound: u64)
    requires ProposalOk(env, def, key, p, clock, bound)
    requires p.status == Active && slot < |def.approvers| && !Has(p.ballot.approvals, slot)
    ensures var q := AfterApprove(def, p, slot, clock);
            Open(q) && ProposalOk(env, def, key, q, clock, bound)
  {
    hide Count, Has, ParamsOk, Ballot.Proper, Ballot.Approve;
    ApproveEffect(p.ballot, slot, |def.approvers|);
    ProperAll(p.ballot.Approve(slot), |def.approvers|);
  }

  /** A cancellation reaches a positive threshold exactly, or drops an approved proposal back, or changes only votes. */
  lemma AfterCancelOk(env: Env, def: Definition, key: Key, p: Proposal, slot: byte, clock: i64, bound: u64)
    requires ProposalOk(env, def, key, p, clock, bound)
    requires Open(p) && slot < |def.approvers| && !Has(p.ballot.cancellations, slot)
    ensures var q := AfterCancel(def, p, slot);
            && ProposalOk(env, def, key, q, clock, bound)
            && (q.status == Cancelled ==> Reached(Count(q.ballot.cancellations), def.cancellationThreshold))
            && (q.status != Cancelled ==> Open(q))
  {
    CancelVotes(def, p, slot);
    hide VotesOk, Count, Has, ParamsOk, Ballot.Proper, Ballot.Cancel;
  }

  lemma CancelVotes(def: Definition, p: Proposal, slot: byte)
    requires Open(p) && VotesOk(def, p) && slot < |def.approvers| && !Has(p.ballot.cancellations, slot)
    ensures var q := AfterCancel(def, p, slot);
            && q.ballot.Proper(16)
            && (if q.status == Cancelled then Reached(Count(q.ballot.cancellations), def.cancellationThreshold)
                else Open(q) && VotesOk(def, q))
  {
    hide Count, Has, Ballot.Proper, Ballot.Cancel, Below, Reached;
    CancelEffect(p.ballot, slot, |def.approvers|);
    ProperAll(p.ballot.Cancel(slot), |def.approvers|);
    var c := p.ballot.Cancel(slot);
    OneMore(Count(p.ballot.cancellations), def.cancellationThreshold);
    NoMore(Count(p.ballot.approvals), Count(c.approvals), def.approvalThreshold);
  }

  lemma OneMore(votes: nat, threshold: byte)
    requires Below(votes, threshold)
    ensures if votes + 1 >= threshold then Reached(votes + 1, threshold) else Below(votes + 1, threshold)
  {}

  lemma NoMore(before: nat, after: nat, threshold: byte)
    requires after <= before
    ensures Below(before, threshold) ==> Below(after, threshold)
    ensures after < threshold ==> Below(after, threshold)
    ensures Reached(before, threshold) && after >= threshold ==> Reached(after, threshold)
  {}

  lemma ApproveKeeps(env: Env, s: State, key: Key, expiry: i64, slot: byte, signature: Bytes)
    requires Inv(env, s) && ApplyApprove(env, s, key, expiry, slot, signature).Ok?
    ensures Inv(env, ApplyApprove(env, s, key, expiry, slot, signature).value)
  {
    hide Signed, Has, OpenKeys, AfterApprove, ProposalOk;
    var t := ApplyApprove(env, s, key, expiry, slot, signature).value;
    var q := t.proposals[key];
    AfterApproveOk(env, s.intents[key.intent].def, key, s.proposals[key], slot, s.clock, s.proposalIndex);
    SwapProposal(env, s, t, key, q);
    SwapEffects(s, t, key, q);
    forall i: Address
      ensures OpenKeys(t.proposals, i) == OpenKeys(s.proposals, i)
    {
      OpenKeysStay(s.proposals, key, q, i);
    }
  }

  lemma CancelKeeps(env: Env, s: State, key: Key, expiry: i64, slot: byte, signature: Bytes)
    requires Inv(env, s) && ApplyCancel(env, s, key, expiry, slot, signature).Ok?
    ensures Inv(env, ApplyCancel(env, s, key, expiry, slot, signature).value)
  {
    hide Signed, Has, OpenKeys, AfterCancel, ProposalOk, Count;
    var t := ApplyCancel(env, s, key, expiry, slot, signature).value;
    var q := t.proposals[key];
    AfterCancelOk(env, s.intents[key.intent].def, key, s.proposals[key], slot, s.clock, s.proposalIndex);
    SwapProposal(env, s, t, key, q);
    SwapEffects(s, t, key, q);
    if q.status == Cancelled {
      ReleaseIntents(env, s, t, key, q);
    } else {
      forall i: Address
        ensures OpenKeys(t.proposals, i) == OpenKeys(s.proposals, i)
      {
        OpenKeysStay(s.proposals, key, q, i);
      }
    }
  }

  /** Closing a proposal and releasing its intent keeps the counts; the subtraction does not saturate. */
  lemma ReleaseIntents(env: Env, s: State, t: State, key: Key, q: Proposal)
    requires IntentsOk(env, s) && key in s.proposals && Open(s.proposals[key]) && !Open(q) && key.intent in s.intents
    requires t.proposals == s.proposals[key := q] && t.intentIndex == s.intentIndex
    requires t.intents == Release(s.intents, key.intent) && Names(env, s.intents[key.intent])
    ensures IntentsOk(env, t)
    ensures s.intents[key.intent].activeProposalCount >= 1
  {
    hide OpenKeys;
    forall i: Address
      ensures |OpenKeys(s.proposals, key.intent)| >= 1
      ensures |OpenKeys(t.proposals, i)| == |OpenKeys(s.proposals, i)| - if i == key.intent then 1 else 0
    {
      OpenKeysClose(s.proposals, key, q, i);
    }
  }

  /** An open proposal runs under an intent that names this wallet. */
  lemma OpenNamed(env: Env, s: State, key: Key)
    requires ProposalsOk(env, s) && key in s.proposals && Open(s.proposals[key])
    ensures key.intent in s.intents && Names(env, s.intents[key.intent])
  {
    hide VotesOk, ParamsOk;
  }

  // ---- Executions ----

  /** A branch of `execute` touches intents only, and no intent that has an open proposal: not its own either. */
  predicate BranchFrame(s: State, t: State, key: Key)
  {
    && t == s.(intents := t.intents, intentIndex := t.intentIndex)
    && (forall i :: i in s.intents ==> i in t.intents)
    && key.intent in s.intents && key.intent in t.intents && t.intents[key.intent] == s.intents[key.intent]
    && (forall k :: k in s.proposals && Open(s.proposals[k]) ==>
          k.intent in s.intents && k.intent in t.intents && t.intents[k.intent] == s.intents[k.intent])
  }

  /** No proposal is open under an account that does not name this wallet or counts none: it is idle. */
  lemma TargetIsIdle(env: Env, s: State, a: Address, k: Key)
    requires Inv(env, s) && (a in s.intents && Names(env, s.intents[a]) ==> s.intents[a].activeProposalCount == 0)
    requires k in s.proposals && Open(s.proposals[k])
    ensures k.intent != a
  {
    hide EffectsOk, VotesOk, ParamsOk, OpenKeys;
    if k.intent == a {
      NoneOpen(s.proposals, a, k);
    }
  }

  lemma AddKeeps(env: Env, s: State, key: Key, remaining: seq<Interpreter.AccountView>)
    requires Inv(env, s) && key in s.proposals && Open(s.proposals[key])
    requires ExecuteAdd(env, s, s.proposals[key].params, remaining).Ok?
    ensures var t := ExecuteAdd(env, s, s.proposals[key].params, remaining).value.0;
            && BranchFrame(s, t, key)
            && IntentsOk(env, t)
  {
    var t := ExecuteAdd(env, s, s.proposals[key].params, remaining).value.0;
    var body := AddedBody(env, s.proposals[key].params);
    AddFrame(env, s, t, key, t.intentIndex, body);
    AddIntents(env, s, t, t.intentIndex, body);
    hide IntentsOk, BranchFrame;
  }

  lemma AddFrame(env: Env, s: State, t: State, key: Key, index: byte, body: Intent)
    requires Inv(env, s) && key in s.proposals && env.intentAddress(index) !in s.intents
    requires t == s.(intents := s.intents[env.intentAddress(index) := body], intentIndex := index)
    ensures BranchFrame(s, t, key)
  {
    hide IntentsOk, ProposalOk, EffectsOk;
  }

  lemma AddIntents(env: Env, s: State, t: State, index: byte, body: Intent)
    requires Inv(env, s) && env.intentAddress(index) !in s.intents && index == s.intentIndex + 1
    requires t == s.(intents := s.intents[env.intentAddress(index) := body], intentIndex := index)
    ensures IntentsOk(env, t)
  {
    var a := env.intentAddress(index);
    NoneUnder(env, s, a);
    SeedsAfterAdd(env, s, t, index, body);
    NamedAfter(env, s, t, a, body);
    hide OpenKeys, ProposalsOk, EffectsOk, NamedOk;
  }

  lemma SeedsAfterAdd(env: Env, s: State, t: State, index: byte, body: Intent)
    requires IntentsOk(env, s) && index == s.intentIndex + 1
    requires t.intents == s.intents[env.intentAddress(index) := body] && t.intentIndex == index
    ensures forall i: byte :: env.intentAddress(i) in t.intents <==> i <= t.intentIndex
  {
    hide NamedOk;
    forall i: byte
      ensures env.intentAddress(i) in t.intents <==> i <= t.intentIndex
    {
      assert env.intentAddress(i) in s.intents <==> i <= s.intentIndex;
      assert env.intentAddress(i) == env.intentAddress(index) ==> i == index;
    }
  }

  lemma NoneUnder(env: Env, s: State, a: Address)
    requires Inv(env, s) && (a in s.intents && Names(env, s.intents[a]) ==> s.intents[a].activeProposalCount == 0)
    ensures OpenKeys(s.proposals, a) == {}
  {
    hide Inv;
    forall k | k in s.proposals && Open(s.proposals[k])
      ensures k.intent != a
    {
      TargetIsIdle(env, s, a, k);
    }
  }

  /** Writing an idle account keeps the named intents in order: every count covers no proposals. */
  lemma NamedAfter(env: Env, s: State, t: State, a: Address, body: Intent)
    requires NamedOk(env, s) && OpenKeys(s.proposals, a) == {}
    requires t.intents == s.intents[a := body] && t.proposals == s.proposals
    ensures NamedOk(env, t)
  {
    hide OpenKeys;
  }

  /** An idle account may be rewritten: nothing that is open depends on it. */
  lemma SetTarget(env: Env, s: State, t: State, a: Address, body: Intent)
    requires Inv(env, s) && (a in s.intents && Names(env, s.intents[a]) ==> s.intents[a].activeProposalCount == 0)
    requires t == s.(intents := s.intents[a := body]) && (OwnSeed(env, a) ==> a in s.intents)
    ensures ProposalsOk(env, t) && EffectsOk(t)
    ensures IntentsOk(env, t)
  {
    NoneUnder(env, s, a);
    SeedsAfterSet(env, s, t, a, body);
    NamedAfter(env, s, t, a, body);
    SetProposals(env, s, t, a, body);
    hide OpenKeys, ProposalsOk, EffectsOk, NamedOk, OwnSeed;
  }

  lemma SeedsAfterSet(env: Env, s: State, t: State, a: Address, body: Intent)
    requires IntentsOk(env, s) && (OwnSeed(env, a) ==> a in s.intents)
    requires t.intents == s.intents[a := body] && t.intentIndex == s.intentIndex
    ensures forall i: byte :: env.intentAddress(i) in t.intents <==> i <= t.intentIndex
  {
    hide NamedOk;
    forall i: byte
      ensures env.intentAddress(i) in t.intents <==> i <= t.intentIndex
    {
      assert env.intentAddress(i) in s.intents <==> i <= s.intentIndex;
    }
  }

  lemma SetProposals(env: Env, s: State, t: State, a: Address, body: Intent)
    requires Inv(env, s) && (a in s.intents && Names(env, s.intents[a]) ==> s.intents[a].activeProposalCount == 0)
    requires t == s.(intents := s.intents[a := body])
    ensures ProposalsOk(env, t)
  {
    hide IntentsOk, EffectsOk, ProposalOk;
    forall k | k in s.proposals
      ensures k.intent in t.intents
      ensures ProposalOk(env, t.intents[k.intent].def, k, s.proposals[k], s.clock, s.proposalIndex)
    {
      if Open(s.proposals[k]) {
        TargetIsIdle(env, s, a, k);
      } else {
        ClosedAnywhere(env, s.intents[k.intent].def, t.intents[k.intent].def, k, s.proposals[k], s.clock,
                       s.proposalIndex);
      }
    }
  }

  /** What is known of a closed proposal does not depend on its intent. */
  lemma ClosedAnywhere(env: Env, def: Definition, def': Definition, key: Key, p: Proposal, clock: i64, bound: u64)
    requires ProposalOk(env, def, key, p, clock, bound) && !Open(p)
    ensures ProposalOk(env, def', key, p, clock, bound)
  {
    hide VotesOk, ParamsOk, Ballot.Proper;
  }

  lemma SetTargetFrame(env: Env, s: State, t: State, key: Key, a: Address, body: Intent)
    requires Inv(env, s) && key in s.proposals && Open(s.proposals[key])
    requires a in s.intents && s.intents[a].activeProposalCount == 0
    requires t == s.(intents := s.intents[a := body])
    ensures BranchFrame(s, t, key)
  {
    hide IntentsOk, ProposalOk, EffectsOk;
    forall k | k in s.proposals && Open(s.proposals[k])
      ensures k.intent != a
    {
      TargetIsIdle(env, s, a, k);
    }
  }

  lemma BranchKeeps(env: Env, s: State, key: Key, declared: Interpreter.Declared,
                    remaining: seq<Interpreter.AccountView>)
    requires Inv(env, s) && key in s.proposals && Open(s.proposals[key]) && key.intent in s.intents
    requires ExecuteBranch(env, s, s.intents[key.intent].def, s.proposals[key].params, declared, remaining).Ok?
    ensures var t := ExecuteBranch(env, s, s.intents[key.intent].def, s.proposals[key].params, declared,
                                   remaining).value.0;
            && BranchFrame(s, t, key)
            && IntentsOk(env, t)
  {
    hide Interpreter.Executed, BranchFrame, IntentsOk, ProposalsOk, EffectsOk;
    var params := s.proposals[key].params;
    var t := ExecuteBranch(env, s, s.intents[key.intent].def, params, declared, remaining).value.0;
    match s.intents[key.intent].def.intentType {
      case AddIntent =>
        AddKeeps(env, s, key, remaining);
      case RemoveIntent =>
        var a := env.intentAddress(params[0]);
        SetTarget(env, s, t, a, s.intents[a].(approved := 0));
        SetTargetFrame(env, s, t, key, a, s.intents[a].(approved := 0));
      case UpdateIntent =>
        var a := env.intentAddress(params[0]);
        SetTarget(env, s, t, a, env.decodeIntent(params[1..]));
        SetTargetFrame(env, s, t, key, a, env.decodeIntent(params[1..]));
      case Custom =>
        NoBranch(env, s, key);
    }
  }

  lemma NoBranch(env: Env, s: State, key: Key)
    requires Inv(env, s) && key in s.proposals
    ensures BranchFrame(s, s, key) && IntentsOk(env, s)
  {
    hide IntentsOk, ProposalOk, EffectsOk;
  }

  /** Closing after a branch keeps everything. */
  lemma CloseKeeps(env: Env, s: State, mid: State, key: Key, effect: Effect)
    requires Inv(env, s) && key in s.proposals && Open(s.proposals[key]) && BranchFrame(s, mid, key)
    requires IntentsOk(env, mid)
    ensures var t := Close(mid, key, effect);
            && ProposalsOk(env, t) && EffectsOk(t)
            && IntentsOk(env, t) && mid.intents[key.intent].activeProposalCount >= 1
  {
    hide OpenKeys, IntentOk, ProposalOk;
    var t := Close(mid, key, effect);
    var q := s.proposals[key].(status := Executed);
    ClosedOk(env, s, key, t.intents[key.intent].def);
    SwapProposal(env, s, t, key, q);
    KeyBelow(env, s, key);
    CloseEffects(s, t, key, q, effect);
    OpenNamed(env, s, key);
    ReleaseIntents(env, mid, t, key, q);
  }

  lemma ClosedOk(env: Env, s: State, key: Key, def: Definition)
    requires Inv(env, s) && key in s.proposals
    ensures ProposalOk(env, def, key, s.proposals[key].(status := Executed), s.clock, s.proposalIndex)
  {
    hide VotesOk, ParamsOk, IntentsOk, EffectsOk, Ballot.Proper;
  }

  lemma KeyBelow(env: Env, s: State, key: Key)
    requires ProposalsOk(env, s) && key in s.proposals
    ensures key.index < s.proposalIndex
  {}

  lemma CloseEffects(s: State, t: State, key: Key, q: Proposal, effect: Effect)
    requires EffectsOk(s) && key in s.proposals && Open(s.proposals[key]) && key.index < s.proposalIndex
    requires q.status == Executed
    requires t.proposals == s.proposals[key := q] && t.proposalIndex == s.proposalIndex
    requires t.effects == s.effects + [Done(key, effect)]
    ensures EffectsOk(t)
  {
    OpenHasNoEffect(s, key);
  }

  /** An execution keeps the invariant, whatever raw body it installs. */
  lemma ExecuteKeeps(env: Env, s: State, key: Key, declared: Interpreter.Declared,
                     remaining: seq<Interpreter.AccountView>)
    requires Inv(env, s) && ApplyExecute(env, s, key, declared, remaining).Ok?
    ensures Inv(env, ApplyExecute(env, s, key, declared, remaining).value)
  {
    hide ExecuteBranch, IntentsOk, ProposalsOk, EffectsOk, BranchFrame, Close;
    BranchKeeps(env, s, key, declared, remaining);
    var branch := ExecuteBranch(env, s, s.intents[key.intent].def, s.proposals[key].params, declared, remaining).value;
    CloseKeeps(env, s, branch.0, key, branch.1);
  }

  /** Every instruction keeps the invariant, failed or not, and so does everything other wallets do. */
  lemma StepKeeps(env: Env, s: State, ins: Instruction)
    requires Inv(env, s)
    ensures Inv(env, Next(env, s, ins))
  {
    hide Inv, ApplyElsewhere, ApplyClaim, ApplyTick, ApplyPropose, ApplyApprove, ApplyCancel, ApplyExecute,
         ApplyCleanup;
    if Apply(env, s, ins).Ok? {
      match ins {
        case Tick(to) => TickKeeps(env, s, to);
        case Elsewhere(a, body) => ElsewhereKeeps(env, s, a, body);
        case Claim(keys) => ClaimKeeps(env, s, keys);
        case Propose(i, payer, expiry, proposer, signature, params) =>
          ProposeKeeps(env, s, i, payer, expiry, proposer, signature, params);
        case Approve(key, expiry, slot, signature) => ApproveKeeps(env, s, key, expiry, slot, signature);
        case Cancel(key, expiry, slot, signature) => CancelKeeps(env, s, key, expiry, slot, signature);
        case Execute(key, declared, remaining) => ExecuteKeeps(env, s, key, declared, remaining);
        case Cleanup(key, refund) => CleanupKeeps(env, s, key, refund);
      }
    }
  }

  /**
   Creation succeeds exactly for fresh addresses, the right name account, a name of at most 64 bytes, lists of at most
   16 and thresholds from 1 to the number of approvers; cutting the counts to a byte lets nothing else through.
   */
  lemma CreatedIff(env: Env, wallets: set<Address>, existing: map<Address, Intent>, taken: set<Key>, clock: i64,
                   nameHash: Address, args: CreateArgs)
    ensures Created(env, wallets, existing, taken, clock, nameHash, args).Ok? <==>
            && env.walletAddress !in wallets
            && env.intentAddress(0) !in existing && env.intentAddress(1) !in existing
               && env.intentAddress(2) !in existing
            && nameHash == env.sha256(args.name) && |args.name| <= 64 && |args.proposers| <= 16
            && 0 < args.approvalThreshold <= |args.approvers| <= 16
               && 0 < args.cancellationThreshold <= |args.approvers|
  {
    hide Initial;
  }

  lemma CreatedIsInitial(env: Env, wallets: set<Address>, existing: map<Address, Intent>, taken: set<Key>, clock: i64,
                         nameHash: Address, args: CreateArgs)
    requires Created(env, wallets, existing, taken, clock, nameHash, args).Ok?
    ensures Created(env, wallets, existing, taken, clock, nameHash,
                    args) == Ok(Initial(env, existing, taken, clock, args))
  {
    hide CreateCheck, Initial;
  }

  /** The accounts a wallet is created among: none at its own seeds, which only it can sign for. */
  predicate Surroundings(env: Env, existing: map<Address, Intent>)
  {
    && SeedsDiffer(env)
    && (forall i: byte :: env.intentAddress(i) !in existing)
  }

  /** A freshly created wallet satisfies the invariant. */
  lemma CreatedOk(env: Env, wallets: set<Address>, existing: map<Address, Intent>, taken: set<Key>, clock: i64,
                  nameHash: Address, args: CreateArgs)
    requires Surroundings(env, existing) && Created(env, wallets, existing, taken, clock, nameHash, args).Ok?
    ensures Inv(env, Created(env, wallets, existing, taken, clock, nameHash, args).value)
  {
    var s := Created(env, wallets, existing, taken, clock, nameHash, args).value;
    forall a: Address
      ensures |OpenKeys(s.proposals, a)| == 0
    {
      assert OpenKeys(s.proposals, a) == {};
    }
    hide OpenKeys, Created;
    CreatedSeeds(env, existing, s, args);
  }

  lemma CreatedSeeds(env: Env, existing: map<Address, Intent>, s: State, args: CreateArgs)
    requires Surroundings(env, existing)
    requires s.intents == Initial(env, existing, s.taken, s.clock, args).intents && s.intentIndex == 2
    ensures forall i: byte :: env.intentAddress(i) in s.intents <==> i <= s.intentIndex
  {
    hide MetaIntent;
    forall i: byte
      ensures env.intentAddress(i) in s.intents <==> i <= 2
    {
      assert env.intentAddress(i) == env.intentAddress(0) ==> i == 0;
      assert env.intentAddress(i) == env.intentAddress(1) ==> i == 1;
      assert env.intentAddress(i) == env.intentAddress(2) ==> i == 2;
    }
  }

  /** With the program's own sizes no update can execute: a body has to fit the parameters behind the target byte. */
  lemma UpdateNeedsRoom(env: Env, s: State, params: Bytes, remaining: seq<Interpreter.AccountView>)
    requires ExecuteUpdate(env, s, params, remaining).Ok?
    ensures env.intentBodySize < env.paramsCap
  {
    hide TargetCheck;
  }
}
