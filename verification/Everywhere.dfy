/** Theorems about runs, carried over to every wallet of every ledger. */
module Everywhere {
  import opened Ballots
  import opened Bytes
  import opened Counts
  import opened Definition
  import opened Governance
  import opened History
  import opened Invariant
  import opened Neighbours
  import opened Retirement
  import opened Runs
  import opened Steps
  import opened Worlds
  import MessageText
  import Params

  /** Event `n` is an instruction that takes effect. */
  predicate Succeeded(c: Chronicle, n: nat)
    requires n < |c.events|
  {
    var (world, e) := (WorldAt(c, n), c.events[n]);
    e.Invoke? && OfProgram(e.ins) && e.wallet in world.wallets
    && Apply(c.envs(e.wallet), View(world, e.wallet), e.ins).Ok?
  }

  /** At every moment every wallet satisfies the invariant, whatever bodies any of them has installed. */
  lemma InvEverywhere(c: Chronicle, n: nat, w: Address)
    requires Separated(c) && n <= |c.events| && w in WorldAt(c, n).wallets
    ensures Inv(c.envs(w), View(WorldAt(c, n), w))
  {
    hide Separated, WorldAt, Inv, View, Started;
    var run, at := Lived(c, w, n);
    assert MomentOk(c, w, run, at, n);
    Reachable(run, |run.steps|);
  }

  /** Later events are later in the run. */
  lemma {:induction false} InOrder(c: Chronicle, w: Address, n: nat, run: Run, at: seq<nat>, i: nat, j: nat)
    requires n <= |c.events| && Lives(c, w, n, run, at) && i <= j <= n && w in WorldAt(c, i).wallets
    ensures at[i] <= at[j]
    decreases j
  {
    hide WorldAt, View;
    if i < j {
      InOrder(c, w, n, run, at, i, j - 1);
      WalletsStay(c, w, i, j - 1);
      assert EventOk(c, w, run, at, j - 1);
    }
  }

  /** The step of the run that is a wallet's own successful event. */
  lemma OwnEvent(c: Chronicle, n: nat) returns (run: Run, at: seq<nat>)
    requires Separated(c) && n < |c.events| && Succeeded(c, n)
    ensures Started(run) && Lives(c, c.events[n].wallet, n + 1, run, at)
    ensures |at| == n + 2 && at[n] < |run.steps| && run.steps[at[n]] == c.events[n].ins && Succeeds(run, at[n])
    ensures At(run, at[n]) == View(WorldAt(c, n), c.events[n].wallet) && run.env == c.envs(c.events[n].wallet)
  {
    hide Separated, WorldAt, View, Started, Apply;
    var w := c.events[n].wallet;
    assert w in WorldAt(c, n).wallets;
    WalletsStay(c, w, n, n + 1);
    run, at := Lived(c, w, n + 1);
    assert EventOk(c, w, run, at, n) && MomentOk(c, w, run, at, n);
  }

  /** The event that is an earlier step of the run. */
  lemma EarlierEvent(c: Chronicle, n: nat, run: Run, at: seq<nat>, k: nat) returns (m: nat)
    requires n < |c.events| && Succeeded(c, n) && Lives(c, c.events[n].wallet, n + 1, run, at)
    requires k < at[n] <= |run.steps| && OfProgram(run.steps[k]) && Succeeds(run, k)
    ensures m < n && Succeeded(c, m) && c.events[m].wallet == c.events[n].wallet && c.events[m].ins == run.steps[k]
    ensures At(run, k) == View(WorldAt(c, m), c.events[n].wallet)
  {
    hide WorldAt, View, Apply;
    var w := c.events[n].wallet;
    assert StepFound(c, w, run, at, k);
    m :| 0 <= m < |at| - 1 && at[m] == k && w in WorldAt(c, m).wallets && IsOwn(c.events[m], w);
    assert EventOk(c, w, run, at, m) && MomentOk(c, w, run, at, m);
  }

  /**
   On every ledger: a proposal executes only after an approval of it, by at least the timelock, on the same wallet.
   */
  lemma TimelockEverywhere(c: Chronicle, n: nat) returns (m: nat)
    requires Separated(c) && n < |c.events| && Succeeded(c, n) && c.events[n].ins.Execute?
    ensures var (w, key) := (c.events[n].wallet, c.events[n].ins.key);
            && m < n && Succeeded(c, m) && c.events[m].wallet == w
            && c.events[m].ins.Approve? && c.events[m].ins.key == key
            && key.intent in WorldAt(c, n).intents
            && WorldAt(c, m).clock + WorldAt(c, n).intents[key.intent].def.timelockSeconds <= WorldAt(c, n).clock
  {
    hide Separated, WorldAt, Started, Lives, Succeeds, Approvers, Apply;
    var run, at := OwnEvent(c, n);
    var a := QuorumAndTimelock(run, at[n]);
    m := EarlierEvent(c, n, run, at, a);
    AtEvent(c, m, c.events[n].wallet);
    AtEvent(c, n, c.events[n].wallet);
  }

  lemma AtEvent(c: Chronicle, n: nat, w: Address)
    requires n < |c.events| && Succeeded(c, n) && c.events[n].wallet == w
    ensures w in WorldAt(c, n).wallets && View(WorldAt(c, n), w).clock == WorldAt(c, n).clock
    ensures View(WorldAt(c, n), w).intents == WorldAt(c, n).intents
  {
    hide WorldAt, Apply, OthersKeys;
  }

  /**
   On every ledger: when a proposal executes, its approvals have reached the threshold, and every approval bit was set
   by an earlier instruction on the same wallet, signed, before it expired, over the definition and parameters that are
   executed.
   */
  lemma SignedEverywhere(c: Chronicle, n: nat, slot: nat) returns (m: nat)
    requires Separated(c) && n < |c.events| && Succeeded(c, n) && c.events[n].ins.Execute? && slot < 16
    requires var (s, key) := (View(WorldAt(c, n), c.events[n].wallet), c.events[n].ins.key);
             key in s.proposals && Has(s.proposals[key].ballot.approvals, slot)
    ensures var (w, key) := (c.events[n].wallet, c.events[n].ins.key);
            && m < n && Succeeded(c, m) && c.events[m].wallet == w
            && var (s, t, e) := (View(WorldAt(c, n), w), View(WorldAt(c, m), w), c.events[m].ins);
            && key.intent in s.intents && e.Approve? && e.key == key && e.slot % 16 == slot && t.clock < e.expiry
            && var (def, p) := (s.intents[key.intent].def, s.proposals[key]);
            && Reached(Count(p.ballot.approvals), def.approvalThreshold) && e.slot < |def.approvers|
            && SignedFor(c.envs(w), MessageText.Context(e.expiry, MessageText.Approve, t.name, key.index), def,
                         p.params,
                         def.approvers[e.slot], e.signature)
  {
    hide Separated, WorldAt, Started, Lives, Succeeds, View, Apply, LatestVote, Has, SignedFor, ApprovedAt, Count;
    var run, at := OwnEvent(c, n);
    var (key, k) := (c.events[n].ins.key, at[n]);
    VotesTracked(run, key, slot, k);
    var a := ExecutedMeansSigned(run, k, slot);
    ExecuteNeedsApproved(run, k);
    ReachedAt(run, k);
    ApprovedParts(run, key, slot, At(run, k).intents[key.intent].def, At(run, k).proposals[key].params, a);
    m := EarlierEvent(c, n, run, at, a);
  }

  lemma ReachedAt(run: Run, n: nat)
    requires Started(run) && n < |run.steps| && run.steps[n].Execute? && Succeeds(run, n)
    ensures var (s, key) := (At(run, n), run.steps[n].key);
            && key in s.proposals && key.intent in s.intents
            && Reached(Count(s.proposals[key].ballot.approvals), s.intents[key.intent].def.approvalThreshold)
  {
    hide Started, Inv, At, Succeeds, Count, Reached;
    ExecuteNeedsApproved(run, n);
    Reachable(run, n);
    ApprovedCount(run.env, At(run, n), run.steps[n].key);
  }

  lemma ApprovedParts(run: Run, key: Key, slot: nat, def: Definition, params: Bytes, m: nat)
    requires m < |run.steps| && ApprovedAt(run, key, slot, def, params, m)
    ensures var (s, ins) := (At(run, m), run.steps[m]);
            && ins.Approve? && ins.key == key && ins.slot % 16 == slot && Succeeds(run, m) && s.clock < ins.expiry
            && ins.slot < |def.approvers|
            && SignedFor(run.env, MessageText.Context(ins.expiry, MessageText.Approve, s.name, key.index), def, params,
                         def.approvers[ins.slot], ins.signature)
  {
    hide At, Succeeds, SignedFor;
  }

  /** On every ledger: no proposal is executed twice. */
  lemma OnceEverywhere(c: Chronicle, m: nat, n: nat)
    requires Separated(c) && m < n < |c.events|
    requires Succeeded(c, m) && c.events[m].ins.Execute? && Succeeded(c, n) && c.events[n].ins.Execute?
    requires c.events[m].wallet == c.events[n].wallet
    ensures c.events[m].ins.key != c.events[n].ins.key
  {
    hide Separated, WorldAt, View, Started, Apply;
    var w := c.events[n].wallet;
    var run, at := OwnEvent(c, n);
    assert w in WorldAt(c, m).wallets;
    assert EventOk(c, w, run, at, m) && MomentOk(c, w, run, at, m);
    InOrder(c, w, n + 1, run, at, m + 1, n) by {
      WalletsStay(c, w, m, m + 1);
    }
    if c.events[m].ins.key == c.events[n].ins.key {
      ExecutesOnce(run, c.events[n].ins.key, at[m], at[n]);
    }
  }

  // ---- Bodies without approvers ----

  /** Every account without approvers, but the meta-intents of the wallets they name. */
  ghost predicate Mute(envs: Address -> Env, intents: map<Address, Intent>)
  {
    forall a :: a in intents ==>
      intents[a].def.approvers == [] || MetaSeed(envs(intents[a].def.wallet), a)
  }

  /** A successful instruction keeps the definitions there are, or writes one without approvers. */
  predicate KeepsOrMutes(before: map<Address, Intent>, after: map<Address, Intent>)
  {
    forall a :: a in after ==>
      (a in before && after[a].def == before[a].def) || after[a].def.approvers == []
  }

  lemma InstructionMutes(env: Env, s: State, ins: Instruction, t: State)
    requires Inv(env, s) && CutShort(env) && OfProgram(ins) && Apply(env, s, ins) == Ok(t)
    ensures KeepsOrMutes(s.intents, t.intents)
  {
    hide Inv, CutShort, Signed, Params.Validated, VoteCheck, AfterApprove, AfterCancel, ApplyExecute;
    if ins.Execute? {
      ExecuteMutes(env, s, ins, t);
    }
  }

  lemma ExecuteMutes(env: Env, s: State, ins: Instruction, t: State)
    requires Inv(env, s) && CutShort(env) && ins.Execute? && Apply(env, s, ins) == Ok(t)
    ensures KeepsOrMutes(s.intents, t.intents)
  {
    hide Inv, ExecuteBranch, Close, CutShort, OwnSeed, ProposalOk;
    ExecuteParts(env, s, ins, t);
    var (def, params) := (s.intents[ins.key.intent].def, s.proposals[ins.key].params);
    if def.intentType.Custom? {
      CustomWritesNothing(env, s, def, params, ins.declared, ins.remaining);
    } else {
      var b := BranchWrites(env, s, def, params, ins.declared, ins.remaining);
      ParamsFit(env, s, ins, t);
      InstalledMute(env, s, def.intentType, params);
    }
  }

  lemma ParamsFit(env: Env, s: State, ins: Instruction, t: State)
    requires Inv(env, s) && ins.Execute? && Apply(env, s, ins) == Ok(t)
    ensures ins.key in s.proposals && |s.proposals[ins.key].params| <= env.paramsCap
  {
    hide Inv, Executing, ProposalOk;
    RecordsOk(env, s, ins.key);
    OpenFits(env, s.intents[ins.key.intent].def, ins.key, s.proposals[ins.key], s.clock, s.proposalIndex);
  }

  lemma OpenFits(env: Env, def: Definition, key: Key, p: Proposal, clock: i64, bound: u64)
    requires ProposalOk(env, def, key, p, clock, bound) && Open(p)
    ensures |p.params| <= env.paramsCap
  {
    hide VotesOk, Params.Validated;
  }

  lemma InstalledMute(env: Env, s: State, intentType: IntentType, params: Bytes)
    requires CutShort(env) && |params| <= env.paramsCap
    ensures var w := InstalledBy(env, s, intentType, params);
            w.Some? ==> w.value.1.def.approvers == []
  {}

  lemma KeepsMute(envs: Address -> Env, before: map<Address, Intent>, after: map<Address, Intent>)
    requires Mute(envs, before) && KeepsOrMutes(before, after)
    ensures Mute(envs, after)
  {
    hide MetaSeed;
  }

  lemma CreateMutes(envs: Address -> Env, world: World, w: Address, nameHash: Address, args: CreateArgs)
    requires envs(w).walletAddress == w && Mute(envs, world.intents)
    requires Created(envs(w), world.wallets.Keys, world.intents, OthersKeys(world, w), world.clock, nameHash, args).Ok?
    ensures Mute(envs, Created(envs(w), world.wallets.Keys, world.intents, OthersKeys(world, w), world.clock, nameHash,
                               args).value.intents)
  {
    hide CreateCheck, OthersKeys;
  }

  lemma {:induction false} AlwaysMute(c: Chronicle, n: nat)
    requires Separated(c) && (forall w :: w in Members(c) ==> CutShort(c.envs(w))) && n <= |c.events|
    ensures Mute(c.envs, WorldAt(c, n).intents)
  {
    hide Separated, Members, CutShort, Created, Apply, View, Put, Mute, Inv;
    if n == 0 {
      NoneMute(c.envs);
    } else {
      AlwaysMute(c, n - 1);
      var (world, e) := (WorldAt(c, n - 1), c.events[n - 1]);
      match e {
        case Pass(_) =>
        case Create(w, nameHash, args) =>
          var r := Created(c.envs(w), world.wallets.Keys, world.intents, OthersKeys(world, w), world.clock, nameHash,
                           args);
          if r.Ok? {
            MemberAddress(c, n - 1, w);
            CreateMutes(c.envs, world, w, nameHash, args);
            PutHas(world, w, r.value);
          }
        case Invoke(w, ins) =>
          if w in world.wallets && OfProgram(ins) {
            MembersOnly(c, n - 1);
            InvokeMutes(c, n - 1, w, ins);
          }
      }
    }
  }

  lemma MemberAddress(c: Chronicle, n: nat, w: Address)
    requires Separated(c) && n < |c.events|
    requires w in WorldAt(c, n).wallets || (c.events[n].Create? && c.events[n].wallet == w)
    ensures w in Members(c) && c.envs(w).walletAddress == w
  {
    hide WorldAt, Members, Separate;
    MembersOnly(c, n);
    ApartFor(c.envs, Members(c), w, w);
  }

  lemma NoneMute(envs: Address -> Env)
    ensures Mute(envs, map[])
  {}

  lemma InvokeMutes(c: Chronicle, n: nat, w: Address, ins: Instruction)
    requires Separated(c) && CutShort(c.envs(w)) && n <= |c.events| && w in WorldAt(c, n).wallets && OfProgram(ins)
    requires Mute(c.envs, WorldAt(c, n).intents)
    ensures Mute(c.envs, Put(WorldAt(c, n), w, Next(c.envs(w), View(WorldAt(c, n), w), ins)).intents)
  {
    hide Separated, CutShort, Apply, View, Put, Mute, Inv, WorldAt, KeepsOrMutes;
    var s := View(WorldAt(c, n), w);
    ViewParts(WorldAt(c, n), w);
    PutHas(WorldAt(c, n), w, Next(c.envs(w), s, ins));
    if Apply(c.envs(w), s, ins).Ok? {
      InvEverywhere(c, n, w);
      InstructionMutes(c.envs(w), s, ins, Next(c.envs(w), s, ins));
      KeepsMute(c.envs, s.intents, Next(c.envs(w), s, ins).intents);
    }
  }

  /**
   When, as with the program's own sizes, no string that fits the parameters decodes to a body with approvers, every
   successful execution on the whole ledger is under one of the three meta-intents its wallet was created with.
   */
  lemma MetaIntentsEverywhere(c: Chronicle, n: nat)
    requires Separated(c) && (forall w :: w in Members(c) ==> CutShort(c.envs(w)))
    requires n < |c.events| && Succeeded(c, n) && c.events[n].ins.Execute?
    ensures MetaSeed(c.envs(c.events[n].wallet), c.events[n].ins.key.intent)
  {
    hide Separated, Members, CutShort, WorldAt, Inv, Succeeds, Started, Apply, Lives, OthersKeys, MetaSeed;
    var w := c.events[n].wallet;
    AlwaysMute(c, n);
    var run, at := OwnEvent(c, n);
    ExecuteNeedsApproved(run, at[n]);
    Reachable(run, at[n]);
    ApprovedHasApprovers(run.env, At(run, at[n]), c.events[n].ins.key);
    AtEvent(c, n, w);
    MemberAddress(c, n, w);
  }
}
