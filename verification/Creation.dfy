/** What a new wallet holds, and what that means for everything executed under its three intents. */
module Creation {
  import opened Bytes
  import opened Definition
  import opened Governance
  import opened History
  import opened Invariant
  import opened Retirement
  import opened Runs
  import opened Steps

  /** A switched-on intent of the wallet with the thresholds, the timelock and the lists given, and nothing else. */
  predicate HoldsArgs(env: Env, args: CreateArgs, intent: Intent)
  {
    && intent.approved == 1 && intent.activeProposalCount == 0
    && intent.def.wallet == env.walletAddress
    && intent.def.approvalThreshold == args.approvalThreshold
    && intent.def.cancellationThreshold == args.cancellationThreshold
    && intent.def.timelockSeconds == args.timelockSeconds
    && intent.def.proposers == args.proposers && intent.def.approvers == args.approvers
    && intent.def.params == [] && intent.def.accounts == [] && intent.def.instructions == []
    && intent.def.segments == [] && intent.def.seeds == [] && intent.def.pool == []
    && intent.def.templateOffset == 0 && intent.def.templateLen == 0
  }

  /**
   A created wallet has the given name and three intents under its first seeds, which add, remove and update in this
   order, each as the arguments say; it has no proposals, and the accounts there were are as they were.
   */
  lemma CreatedHolds(env: Env, wallets: set<Address>, existing: map<Address, Intent>, taken: set<Key>, clock: i64,
                     nameHash: Address, args: CreateArgs, s: State)
    requires SeedsDiffer(env) && Created(env, wallets, existing, taken, clock, nameHash, args) == Ok(s)
    ensures s.name == args.name && s.proposalIndex == 0 && s.intentIndex == 2 && s.clock == clock
    ensures s.proposals == map[] && s.effects == [] && s.taken == taken
    ensures var (a, b, c) := (env.intentAddress(0), env.intentAddress(1), env.intentAddress(2));
            && s.intents.Keys == existing.Keys + {a, b, c} && {a, b, c} !! existing.Keys
            && HoldsArgs(env, args, s.intents[a]) && s.intents[a].def.intentType == AddIntent
            && HoldsArgs(env, args, s.intents[b]) && s.intents[b].def.intentType == RemoveIntent
            && HoldsArgs(env, args, s.intents[c]) && s.intents[c].def.intentType == UpdateIntent
            && forall x :: x in existing ==> s.intents[x] == existing[x]
  {
    assert env.intentAddress(0) != env.intentAddress(1) && env.intentAddress(0) != env.intentAddress(2);
    assert env.intentAddress(1) != env.intentAddress(2);
    hide SeedsDiffer;
  }

  /** The run starts with the creation of its wallet. */
  predicate FromCreation(run: Run, existing: map<Address, Intent>, args: CreateArgs)
  {
    && Surroundings(run.env, existing)
    && Created(run.env, {}, existing, run.start.taken, run.start.clock, run.env.sha256(args.name), args)
       == Ok(run.start)
  }

  lemma CreatedAgain(env: Env, wallets: set<Address>, existing: map<Address, Intent>, taken: set<Key>, clock: i64,
                     nameHash: Address, args: CreateArgs, run: Run)
    requires Surroundings(env, existing) && run.env == env
    requires Created(env, wallets, existing, taken, clock, nameHash, args) == Ok(run.start)
    ensures FromCreation(run, existing, args)
  {
    hide Surroundings, MetaIntent;
  }

  lemma FromCreationStarts(run: Run, existing: map<Address, Intent>, args: CreateArgs)
    requires FromCreation(run, existing, args)
    ensures Started(run)
    ensures 0 < args.approvalThreshold <= |args.approvers| <= 16
  {
    hide Created, Surroundings, Inv;
    StartedFromCreation(run.env, {}, existing, run.start.taken, run.start.clock, run.env.sha256(args.name), args, run);
    CreatedIff(run.env, {}, existing, run.start.taken, run.start.clock, run.env.sha256(args.name), args);
  }

  /** The intent at one of the wallet's first three seeds. */
  function MetaAt(env: Env, i: byte): (a: Address)
  {
    env.intentAddress(i)
  }

  lemma StartHolds(run: Run, existing: map<Address, Intent>, args: CreateArgs, i: byte)
    requires FromCreation(run, existing, args) && i <= 2
    ensures MetaAt(run.env, i) in run.start.intents && HoldsArgs(run.env, args, run.start.intents[MetaAt(run.env, i)])
  {
    hide Created, HoldsArgs;
    CreatedHolds(run.env, {}, existing, run.start.taken, run.start.clock, run.env.sha256(args.name), args, run.start);
    assert i == 0 || i == 1 || i == 2;
  }

  /** Until it is replaced, an intent keeps its definition. */
  lemma {:induction false} DefinitionStays(run: Run, j: Address, n: nat)
    requires Started(run) && n <= |run.steps| && Unreplaced(run, j, 0, n) && j in run.start.intents
    ensures j in At(run, n).intents && At(run, n).intents[j].def == run.start.intents[j].def
  {
    hide Started, Inv, Next, Replaces, IntentFrozen, ProposalStep;
    if n > 0 {
      DefinitionStays(run, j, n - 1);
      StepOf(run, n - 1, AnyKey());
      IntentStep(run.env, At(run, n - 1), run.steps[n - 1], At(run, n), j);
    }
  }

  /**
   The creator's word holds: in every run from a creation, an execution under one of the three intents, while it has not
   been replaced, has exactly the given threshold of standing approvals, since an approval at least the given timelock
   ago.
   */
  lemma CreatedQuorum(run: Run, existing: map<Address, Intent>, args: CreateArgs, i: byte, n: nat) returns (a: nat)
    requires FromCreation(run, existing, args) && i <= 2
    requires n < |run.steps| && run.steps[n].Execute? && Succeeds(run, n)
    requires run.steps[n].key.intent == MetaAt(run.env, i) && Unreplaced(run, MetaAt(run.env, i), 0, n)
    ensures var key := run.steps[n].key;
            && a < n && run.steps[a].Approve? && run.steps[a].key == key && Succeeds(run, a)
            && At(run, a).clock + args.timelockSeconds <= At(run, n).clock
            && forall m :: a < m <= n ==> |Approvers(run, key, m)| == args.approvalThreshold
  {
    hide FromCreation, At, Succeeds, Approvers, Started;
    FromCreationStarts(run, existing, args);
    StartHolds(run, existing, args, i);
    DefinitionStays(run, MetaAt(run.env, i), n);
    a := QuorumAndTimelock(run, n);
  }

  /** And each of these approvals is signed by the approver the creator listed at that place. */
  lemma CreatedSigners(run: Run, existing: map<Address, Intent>, args: CreateArgs, i: byte, n: nat, slot: nat)
    returns (m: nat)
    requires FromCreation(run, existing, args) && i <= 2
    requires n < |run.steps| && run.steps[n].Execute? && Succeeds(run, n)
    requires run.steps[n].key.intent == MetaAt(run.env, i) && Unreplaced(run, MetaAt(run.env, i), 0, n)
    requires slot in Approvers(run, run.steps[n].key, n)
    ensures m < n && run.steps[m].Approve? && run.steps[m].slot == slot < |args.approvers|
    ensures var (key, s) := (run.steps[n].key, At(run, n));
            && key in s.proposals && key.intent in s.intents && s.intents[key.intent].def.approvers == args.approvers
            && ApprovedAt(run, key, slot, s.intents[key.intent].def, s.proposals[key].params, m)
  {
    hide FromCreation, At, Succeeds, Approvers, Started, ApprovedAt;
    FromCreationStarts(run, existing, args);
    StartHolds(run, existing, args, i);
    DefinitionStays(run, MetaAt(run.env, i), n);
    m := ExecutedMeansSigned(run, n, slot);
    ApprovedSlot(run, run.steps[n].key, slot, At(run, n).intents[MetaAt(run.env, i)].def,
                 At(run, n).proposals[run.steps[n].key].params, m);
  }
}
