/**
 The whole ledger: any number of wallets, created one by one on an empty ledger. What each wallet sees is a run of the
 one-wallet model, so that every theorem about runs holds of every wallet, whatever the others do.
 */
module Worlds {
  import opened Bytes
  import opened Definition
  import opened Governance
  import opened Invariant
  import opened Neighbours
  import opened Runs

  /** A wallet account with its proposals and the record of its executions. */
  datatype Wallet = Wallet(
    proposalIndex: u64,
    intentIndex: byte,
    name: Bytes,
    proposals: map<Key, Proposal>,
    effects: seq<Done>)

  datatype World = World(intents: map<Address, Intent>, wallets: map<Address, Wallet>, clock: i64)

  datatype Event =
    | Pass(to: i64)
    | Create(wallet: Address, nameHash: Address, args: CreateArgs)
    | Invoke(wallet: Address, ins: Instruction)

  /** What happened on the ledger; `envs` gives the addresses of each wallet. */
  datatype Chronicle = Chronicle(envs: Address -> Env, clock: i64, events: seq<Event>)

  /** The wallets that are ever to be created. */
  function Members(c: Chronicle): (r: set<Address>)
  {
    set i | 0 <= i < |c.events| && c.events[i].Create? :: c.events[i].wallet
  }

  /** These wallets have different addresses and different seeds. */
  predicate Separate(envs: Address -> Env, members: set<Address>)
  {
    && (forall w :: w in members ==> envs(w).walletAddress == w && SeedsDiffer(envs(w)))
    && (forall v, w :: v in members && w in members && v != w ==> Apart(envs(v), envs(w)))
  }

  /** Different wallets have different addresses, throughout the chronicle. */
  predicate Separated(c: Chronicle)
  {
    Separate(c.envs, Members(c))
  }

  /** The proposal addresses of all wallets but one. */
  function OthersKeys(world: World, w: Address): (r: set<Key>)
  {
    set v, k | v in world.wallets && v != w && k in world.wallets[v].proposals :: k
  }

  /** The ledger as seen by one wallet. */
  function View(world: World, w: Address): (s: State)
    requires w in world.wallets
  {
    var wallet := world.wallets[w];
    State(wallet.proposalIndex, wallet.intentIndex, wallet.name, world.intents, wallet.proposals, OthersKeys(world, w),
          world.clock, wallet.effects)
  }

  /** The ledger after one wallet's state has changed. */
  function Put(world: World, w: Address, s: State): (r: World)
  {
    World(s.intents,
          world.wallets[w := Wallet(s.proposalIndex, s.intentIndex, s.name, s.proposals, s.effects)], s.clock)
  }

  function Happens(envs: Address -> Env, world: World, e: Event): (r: World)
  {
    match e
    case Pass(to) => if to < world.clock then world else world.(clock := to)
    case Create(w, nameHash, args) =>
      (match Created(envs(w), world.wallets.Keys, world.intents, OthersKeys(world, w), world.clock, nameHash, args)
       case Ok(s) => Put(world, w, s)
       case Err(_) => world)
    case Invoke(w, ins) =>
      if w in world.wallets && OfProgram(ins) then Put(world, w, Next(envs(w), View(world, w), ins)) else world
  }

  /** The ledger after the first `n` events. */
  function WorldAt(c: Chronicle, n: nat): (world: World)
    requires n <= |c.events|
  {
    if n == 0 then World(map[], map[], c.clock) else Happens(c.envs, WorldAt(c, n - 1), c.events[n - 1])
  }

  // ---- What every ledger keeps ----

  /** Wallets' proposals have different addresses, and every intent account is at the seeds of a wallet there is. */
  predicate Settled(envs: Address -> Env, world: World)
  {
    && (forall v, w, k ::
          v in world.wallets && w in world.wallets && k in world.wallets[v].proposals && k in world.wallets[w].proposals
          ==> v == w)
    && (forall a :: a in world.intents ==> exists w :: w in world.wallets && OwnSeed(envs(w), a))
  }

  lemma OthersApart(envs: Address -> Env, world: World, w: Address)
    requires Settled(envs, world) && w in world.wallets
    ensures View(world, w).taken !! View(world, w).proposals.Keys
  {
    hide OwnSeed;
  }

  lemma OthersKeysPut(world: World, w: Address, s: State)
    ensures OthersKeys(Put(world, w, s), w) == OthersKeys(world, w)
  {
    var put := Put(world, w, s);
    forall k
      ensures k in OthersKeys(put, w) <==> k in OthersKeys(world, w)
    {
      if v :| v in put.wallets && v != w && k in put.wallets[v].proposals {
        assert v in world.wallets && k in world.wallets[v].proposals;
      }
      if v :| v in world.wallets && v != w && k in world.wallets[v].proposals {
        assert v in put.wallets && k in put.wallets[v].proposals;
      }
    }
  }

  lemma ViewPut(world: World, w: Address, s: State)
    requires s.taken == OthersKeys(world, w)
    ensures View(Put(world, w, s), w) == s
  {
    OthersKeysPut(world, w, s);
    hide OthersKeys;
  }

  /** A state whose proposals keep out of the others', and whose new accounts are at the wallet's own seeds. */
  lemma PutSettled(envs: Address -> Env, world: World, w: Address, s: State)
    requires Settled(envs, world) && s.taken == OthersKeys(world, w) && s.taken !! s.proposals.Keys
    requires forall a :: a in s.intents ==> a in world.intents || OwnSeed(envs(w), a)
    ensures Settled(envs, Put(world, w, s))
  {
    hide OwnSeed;
    var put := Put(world, w, s);
    forall a | a in put.intents
      ensures exists v :: v in put.wallets && OwnSeed(envs(v), a)
    {
      if a in world.intents {
        var v :| v in world.wallets && OwnSeed(envs(v), a);
        assert v in put.wallets;
      } else {
        assert w in put.wallets;
      }
    }
  }

  /** A successful instruction adds accounts at the wallet's own seeds only. */
  lemma AddsOwnSeeds(env: Env, s: State, ins: Instruction, t: State)
    requires OfProgram(ins) && Apply(env, s, ins) == Ok(t)
    ensures forall a :: a in t.intents ==> a in s.intents || OwnSeed(env, a)
  {
    hide Signed, VoteCheck, AfterCancel, AfterApprove, ApplyExecute, OwnSeed;
    if ins.Execute? {
      ExecuteAddsOwnSeeds(env, s, ins, t);
    }
  }

  lemma ExecuteAddsOwnSeeds(env: Env, s: State, ins: Instruction, t: State)
    requires ins.Execute? && Apply(env, s, ins) == Ok(t)
    ensures forall a :: a in t.intents ==> a in s.intents || OwnSeed(env, a)
  {
    hide ExecuteBranch, Close, OwnSeed;
    ExecuteParts(env, s, ins, t);
    var def := s.intents[ins.key.intent].def;
    if def.intentType.Custom? {
      CustomWritesNothing(env, s, def, s.proposals[ins.key].params, ins.declared, ins.remaining);
    } else {
      var b := BranchWrites(env, s, def, s.proposals[ins.key].params, ins.declared, ins.remaining);
    }
  }

  lemma CreatedState(envs: Address -> Env, world: World, w: Address, nameHash: Address, args: CreateArgs, s: State)
    requires Created(envs(w), world.wallets.Keys, world.intents, OthersKeys(world, w), world.clock, nameHash, args)
             == Ok(s)
    ensures s.proposals == map[] && s.effects == [] && s.taken == OthersKeys(world, w) && s.clock == world.clock
    ensures envs(w).walletAddress !in world.wallets
    ensures forall a :: a in s.intents ==> a in world.intents || OwnSeed(envs(w), a)
  {
    hide OthersKeys, MetaIntent;
  }

  lemma HappensSettled(envs: Address -> Env, world: World, e: Event)
    requires Settled(envs, world)
    ensures Settled(envs, Happens(envs, world, e))
  {
    hide Settled, Created, Apply, Put, View;
    match e {
      case Pass(to) => SettledLater(envs, world, to);
      case Create(w, nameHash, args) =>
        var r := Created(envs(w), world.wallets.Keys, world.intents, OthersKeys(world, w), world.clock, nameHash, args);
        if r.Ok? {
          CreatedState(envs, world, w, nameHash, args, r.value);
          PutSettled(envs, world, w, r.value);
        }
      case Invoke(w, ins) =>
        if w in world.wallets && OfProgram(ins) {
          var s := View(world, w);
          OthersApart(envs, world, w);
          ViewParts(world, w);
          if Apply(envs(w), s, ins).Ok? {
            var t := Next(envs(w), s, ins);
            KeepsOut(envs(w), s, ins, t);
            AddsOwnSeeds(envs(w), s, ins, t);
            PutSettled(envs, world, w, t);
          } else {
            PutSettled(envs, world, w, s);
          }
        }
    }
  }

  lemma SettledLater(envs: Address -> Env, world: World, to: i64)
    requires Settled(envs, world)
    ensures Settled(envs, world.(clock := to))
  {
    hide OwnSeed;
  }

  lemma ViewParts(world: World, w: Address)
    requires w in world.wallets
    ensures View(world, w).taken == OthersKeys(world, w) && View(world, w).intents == world.intents
    ensures View(world, w).clock == world.clock && View(world, w).proposals == world.wallets[w].proposals
  {
    hide OthersKeys;
  }

  lemma {:induction false} AlwaysSettled(c: Chronicle, n: nat)
    requires n <= |c.events|
    ensures Settled(c.envs, WorldAt(c, n))
  {
    hide Happens;
    if n > 0 {
      AlwaysSettled(c, n - 1);
      HappensSettled(c.envs, WorldAt(c, n - 1), c.events[n - 1]);
    }
  }

  // ---- One event seen by one wallet ----

  /** The event is an instruction on this wallet. */
  predicate IsOwn(e: Event, w: Address)
  {
    e.Invoke? && e.wallet == w && OfProgram(e.ins)
  }

  /** Nothing but the surroundings changes. */
  predicate Outer(steps: seq<Instruction>)
  {
    forall i :: 0 <= i < |steps| ==> !OfProgram(steps[i])
  }

  /** A wallet's own instruction is one step of what it sees. */
  lemma OwnStep(envs: Address -> Env, world: World, e: Event, w: Address)
    requires Settled(envs, world) && w in world.wallets && IsOwn(e, w)
    ensures w in Happens(envs, world, e).wallets
    ensures View(Happens(envs, world, e), w) == Next(envs(w), View(world, w), e.ins)
  {
    hide Settled, Created, Apply, View, Put;
    var s := View(world, w);
    ViewParts(world, w);
    OthersApart(envs, world, w);
    if Apply(envs(w), s, e.ins).Ok? {
      KeepsOut(envs(w), s, e.ins, Next(envs(w), s, e.ins));
    }
    ViewPut(world, w, Next(envs(w), s, e.ins));
    PutHas(world, w, Next(envs(w), s, e.ins));
  }

  lemma PutHas(world: World, w: Address, s: State)
    ensures Put(world, w, s).wallets.Keys == world.wallets.Keys + {w} && Put(world, w, s).intents == s.intents
    ensures Put(world, w, s).clock == s.clock
    ensures forall v :: v in world.wallets && v != w ==> Put(world, w, s).wallets[v] == world.wallets[v]
  {}

  /** After the accounts have been written the other proposals' addresses are claimed. */
  lemma ThenClaim(envs: Address -> Env, world: World, after: World, v: Address, writes: seq<Instruction>)
    requires v in world.wallets && v in after.wallets && after.wallets[v] == world.wallets[v]
    requires after.clock == world.clock && Settled(envs, after) && Outer(writes)
    requires After(envs(v), View(world, v), writes) == View(world, v).(intents := after.intents)
    ensures Outer(writes + [Claim(OthersKeys(after, v))])
    ensures After(envs(v), View(world, v), writes + [Claim(OthersKeys(after, v))]) == View(after, v)
  {
    hide Settled, After, OthersKeys;
    OthersApart(envs, after, v);
    AfterOne(envs(v), View(world, v), writes, Claim(OthersKeys(after, v)));
    ClaimStep(envs(v), View(world, v).(intents := after.intents), OthersKeys(after, v));
  }

  /** All wallets there are or are created now are members. */
  predicate Among(members: set<Address>, world: World, e: Event)
  {
    world.wallets.Keys <= members && (e.Create? ==> e.wallet in members)
  }

  /** What any other event is to a wallet: a few steps of its surroundings. */
  lemma SeenBy(envs: Address -> Env, members: set<Address>, world: World, e: Event, v: Address)
    returns (steps: seq<Instruction>)
    requires Separate(envs, members) && Among(members, world, e) && Settled(envs, world) && v in world.wallets
             && !IsOwn(e, v)
    ensures v in Happens(envs, world, e).wallets && Outer(steps)
    ensures After(envs(v), View(world, v), steps) == View(Happens(envs, world, e), v)
  {
    hide Separate, Settled, Created, Apply, View, Put, Apart;
    match e {
      case Pass(to) =>
        steps := [Tick(to)];
        PassSeen(envs(v), world, v, to);
      case Create(w, nameHash, args) =>
        steps := CreateSeen(envs, members, world, e, v);
      case Invoke(w, ins) =>
        if w in world.wallets && OfProgram(ins) && Apply(envs(w), View(world, w), ins).Ok? {
          steps := InvokeSeen(envs, members, world, e, v);
        } else {
          steps := [];
          if w in world.wallets && OfProgram(ins) {
            PutBack(world, w);
          }
        }
    }
  }

  lemma PutBack(world: World, w: Address)
    requires w in world.wallets
    ensures Put(world, w, View(world, w)) == world
  {
    var s := View(world, w);
    assert Wallet(s.proposalIndex, s.intentIndex, s.name, s.proposals, s.effects) == world.wallets[w];
    assert world.wallets[w := world.wallets[w]] == world.wallets;
  }

  lemma PassSeen(env: Env, world: World, v: Address, to: i64)
    requires v in world.wallets
    ensures After(env, View(world, v), [Tick(to)])
            == View(if to < world.clock then world else world.(clock := to), v)
  {
    AfterOne(env, View(world, v), [], Tick(to));
    assert [] + [Tick(to)] == [Tick(to)];
    assert to >= world.clock ==> OthersKeys(world.(clock := to), v) == OthersKeys(world, v);
  }

  lemma InvokeSeen(envs: Address -> Env, members: set<Address>, world: World, e: Event, v: Address)
    returns (steps: seq<Instruction>)
    requires Separate(envs, members) && Among(members, world, e) && Settled(envs, world) && v in world.wallets
             && e.Invoke? && e.wallet != v
    requires e.wallet in world.wallets && OfProgram(e.ins) && Apply(envs(e.wallet), View(world, e.wallet), e.ins).Ok?
    ensures v in Happens(envs, world, e).wallets && Outer(steps)
    ensures After(envs(v), View(world, v), steps) == View(Happens(envs, world, e), v)
  {
    var (w, s) := (e.wallet, View(world, e.wallet));
    var t := Next(envs(w), s, e.ins);
    HappensSettled(envs, world, e);
    ApartFor(envs, members, w, v);
    hide Separate, Settled, Created, Apply, View, Put, Apart;
    ViewParts(world, w);
    ViewParts(world, v);
    OthersApart(envs, world, w);
    KeepsOut(envs(w), s, e.ins, t);
    var writes := WritesIntents(envs(w), envs(v), s, e.ins, t);
    PutHas(world, w, t);
    AroundIsOuter(writes);
    ThenClaim(envs, world, Put(world, w, t), v, writes);
    steps := writes + [Claim(OthersKeys(Put(world, w, t), v))];
  }

  lemma AroundIsOuter(steps: seq<Instruction>)
    requires Around(steps)
    ensures Outer(steps)
  {}

  lemma ApartFor(envs: Address -> Env, members: set<Address>, v: Address, w: Address)
    requires Separate(envs, members) && v in members && w in members
    ensures envs(w).walletAddress == w && SeedsDiffer(envs(w)) && (v != w ==> Apart(envs(v), envs(w)))
  {
    hide SeedsDiffer, Apart;
  }

  /** The addresses of a new wallet are free for it, and nobody else's. */
  lemma CreateSeen(envs: Address -> Env, members: set<Address>, world: World, e: Event, v: Address)
    returns (steps: seq<Instruction>)
    requires Separate(envs, members) && Among(members, world, e) && Settled(envs, world) && v in world.wallets
             && e.Create?
    ensures v in Happens(envs, world, e).wallets && Outer(steps)
    ensures After(envs(v), View(world, v), steps) == View(Happens(envs, world, e), v)
  {
    hide Separate, Settled, Created, View, Put, Apart, Happens;
    var w := e.wallet;
    var r := Created(envs(w), world.wallets.Keys, world.intents, OthersKeys(world, w), world.clock, e.nameHash, e.args);
    CreateHappens(envs, world, e);
    if r.Err? {
      steps := [];
    } else {
      CreatedState(envs, world, w, e.nameHash, e.args, r.value);
      ApartFor(envs, members, v, w);
      ApartFor(envs, members, w, v);
      HappensSettled(envs, world, e);
      ViewParts(world, v);
      PutHas(world, w, r.value);
      var writes := CreateWrites(envs(w), envs(v), world, View(world, v), e.nameHash, e.args, r.value);
      ThenClaim(envs, world, Put(world, w, r.value), v, writes);
      steps := writes + [Claim(OthersKeys(Put(world, w, r.value), v))];
    }
  }

  lemma CreateHappens(envs: Address -> Env, world: World, e: Event)
    requires e.Create?
    ensures var r := Created(envs(e.wallet), world.wallets.Keys, world.intents, OthersKeys(world, e.wallet),
                             world.clock, e.nameHash, e.args);
            Happens(envs, world, e) == if r.Ok? then Put(world, e.wallet, r.value) else world
  {
    hide Created, Put;
  }

  lemma SeedsElsewhere(env: Env, other: Env)
    requires Apart(env, other) && SeedsDiffer(env)
    ensures env.intentAddress(0) != env.intentAddress(1) && env.intentAddress(0) != env.intentAddress(2)
    ensures env.intentAddress(1) != env.intentAddress(2)
    ensures forall i: byte :: !OwnSeed(other, env.intentAddress(i))
  {}

  lemma CreateWrites(env: Env, other: Env, world: World, u: State, nameHash: Address, args: CreateArgs, s: State)
    returns (writes: seq<Instruction>)
    requires Apart(env, other) && SeedsDiffer(env) && u.intents == world.intents
    requires Created(env, world.wallets.Keys, world.intents, s.taken, world.clock, nameHash, args) == Ok(s)
    ensures Outer(writes) && After(other, u, writes) == u.(intents := s.intents)
  {
    hide Created;
    CreatedIff(env, world.wallets.Keys, world.intents, s.taken, world.clock, nameHash, args);
    CreatedIsInitial(env, world.wallets.Keys, world.intents, s.taken, world.clock, nameHash, args);
    var (a, b, c) := (env.intentAddress(0), env.intentAddress(1), env.intentAddress(2));
    SeedsElsewhere(env, other);
    var (x, y, z) := (MetaIntent(env, args, AddIntent), MetaIntent(env, args, RemoveIntent),
                      MetaIntent(env, args, UpdateIntent));
    hide Apart, OwnSeed, MetaIntent, SeedsDiffer;
    TwoWrites(other, u, a, x, b, y);
    var two := [Elsewhere(a, x)] + [Elsewhere(b, y)];
    AfterOne(other, u, two, Elsewhere(c, z));
    writes := two + [Elsewhere(c, z)];
  }

  // ---- What each wallet sees is a run ----

  /** After `m` events the wallet is where the run is after `at[m]` steps. */
  predicate MomentOk(c: Chronicle, w: Address, run: Run, at: seq<nat>, m: nat)
    requires m <= |c.events| && m < |at|
  {
    w in WorldAt(c, m).wallets ==> at[m] <= |run.steps| && At(run, at[m]) == View(WorldAt(c, m), w)
  }

  /** The next event is one step of the run if it is the wallet's own. */
  predicate EventOk(c: Chronicle, w: Address, run: Run, at: seq<nat>, m: nat)
    requires m < |c.events| && m + 1 < |at|
  {
    w in WorldAt(c, m).wallets ==>
      && at[m] <= at[m + 1]
      && (IsOwn(c.events[m], w) ==>
            at[m] < |run.steps| && at[m + 1] == at[m] + 1 && run.steps[at[m]] == c.events[m].ins)
  }

  /** Every instruction in the run is one of the events. */
  ghost predicate StepFound(c: Chronicle, w: Address, run: Run, at: seq<nat>, k: nat)
    requires k < |run.steps| && |at| <= |c.events| + 1
  {
    OfProgram(run.steps[k]) ==>
      exists m :: 0 <= m < |at| - 1 && at[m] == k && w in WorldAt(c, m).wallets && IsOwn(c.events[m], w)
  }

  /**
   The run is what the wallet sees of the first `n` events: at every moment it exists it is where the run says, its own
   instructions are steps of the run one for one, and all other steps are its surroundings.
   */
  ghost predicate Lives(c: Chronicle, w: Address, n: nat, run: Run, at: seq<nat>)
    requires n <= |c.events|
  {
    && |at| == n + 1 && run.env == c.envs(w) && at[n] == |run.steps|
    && (forall m :: 0 <= m <= n ==> MomentOk(c, w, run, at, m))
    && (forall m :: 0 <= m < n ==> EventOk(c, w, run, at, m))
    && (forall k :: 0 <= k < |run.steps| ==> StepFound(c, w, run, at, k))
  }

  lemma {:induction false} AtPrefix(run: Run, longer: Run, n: nat)
    requires longer.env == run.env && longer.start == run.start && n <= |run.steps| <= |longer.steps|
    requires longer.steps[..|run.steps|] == run.steps
    ensures At(longer, n) == At(run, n)
  {
    hide Next;
    if n > 0 {
      AtPrefix(run, longer, n - 1);
      assert longer.steps[n - 1] == longer.steps[..|run.steps|][n - 1];
    }
  }

  /** Where a run ends is where its steps lead. */
  lemma {:induction false} AtEnd(run: Run)
    ensures At(run, |run.steps|) == After(run.env, run.start, run.steps)
    decreases |run.steps|
  {
    hide Next;
    if run.steps != [] {
      var most := run.(steps := run.steps[..|run.steps| - 1]);
      AtEnd(most);
      AtPrefix(most, run, |most.steps|);
    }
  }

  lemma Longer(run: Run, more: seq<Instruction>)
    ensures var longer := run.(steps := run.steps + more);
            && At(longer, |longer.steps|) == After(run.env, At(run, |run.steps|), more)
            && forall n :: 0 <= n <= |run.steps| ==> At(longer, n) == At(run, n)
  {
    hide Next, At, After;
    var longer := run.(steps := run.steps + more);
    assert longer.steps[..|run.steps|] == run.steps;
    forall n | 0 <= n <= |run.steps|
      ensures At(longer, n) == At(run, n)
    {
      AtPrefix(run, longer, n);
    }
    AtEnd(run);
    AtEnd(longer);
    AfterBoth(run.env, run.start, run.steps, more);
  }

  /** One more event, as one more stretch of the run. */
  lemma LivesOn(c: Chronicle, w: Address, n: nat, run: Run, at: seq<nat>, more: seq<Instruction>)
    requires n < |c.events| && Lives(c, w, n, run, at) && w in WorldAt(c, n).wallets && w in WorldAt(c, n + 1).wallets
    requires After(c.envs(w), View(WorldAt(c, n), w), more) == View(WorldAt(c, n + 1), w)
    requires if IsOwn(c.events[n], w) then more == [c.events[n].ins] else Outer(more)
    ensures var longer := run.(steps := run.steps + more);
            Lives(c, w, n + 1, longer, at + [|longer.steps|])
  {
    hide At, After, WorldAt, View;
    var longer := run.(steps := run.steps + more);
    var at' := at + [|longer.steps|];
    Longer(run, more);
    forall m | 0 <= m <= n + 1
      ensures MomentOk(c, w, longer, at', m)
    {
      assert MomentOk(c, w, run, at, n);
      if m <= n {
        assert MomentOk(c, w, run, at, m);
      }
    }
    forall m | 0 <= m < n + 1
      ensures EventOk(c, w, longer, at', m)
    {
      if m < n {
        assert EventOk(c, w, run, at, m);
      }
    }
    forall k | 0 <= k < |longer.steps|
      ensures StepFound(c, w, longer, at', k)
    {
      StillFound(c, w, n, run, at, more, k);
    }
  }

  lemma StillFound(c: Chronicle, w: Address, n: nat, run: Run, at: seq<nat>, more: seq<Instruction>, k: nat)
    requires n < |c.events| && |at| == n + 1 && at[n] == |run.steps| && k < |run.steps| + |more|
    requires k < |run.steps| ==> StepFound(c, w, run, at, k)
    requires w in WorldAt(c, n).wallets
    requires if IsOwn(c.events[n], w) then more == [c.events[n].ins] else Outer(more)
    ensures var longer := run.(steps := run.steps + more); StepFound(c, w, longer, at + [|longer.steps|], k)
  {
    hide WorldAt;
    var longer := run.(steps := run.steps + more);
    var at' := at + [|longer.steps|];
    if OfProgram(longer.steps[k]) {
      if k < |run.steps| {
        var m :| 0 <= m < |at| - 1 && at[m] == k && w in WorldAt(c, m).wallets && IsOwn(c.events[m], w);
        assert at'[m] == k;
      } else {
        assert longer.steps[k] == more[k - |run.steps|];
        assert at'[n] == k && IsOwn(c.events[n], w);
      }
    }
  }

  lemma {:induction false} MembersOnly(c: Chronicle, n: nat)
    requires n <= |c.events|
    ensures WorldAt(c, n).wallets.Keys <= Members(c)
    ensures n < |c.events| && c.events[n].Create? ==> c.events[n].wallet in Members(c)
  {
    hide Created, Next, View;
    if n > 0 {
      MembersOnly(c, n - 1);
    }
  }

  /** Wallets are never closed. */
  lemma {:induction false} WalletsStay(c: Chronicle, w: Address, m: nat, n: nat)
    requires m <= n <= |c.events| && w in WorldAt(c, m).wallets
    ensures w in WorldAt(c, n).wallets
    decreases n
  {
    hide Created, Next, View;
    if m < n {
      WalletsStay(c, w, m, n - 1);
    }
  }

  /** A wallet that appears has just been created, among accounts that are not at its seeds. */
  lemma Born(c: Chronicle, w: Address, n: nat)
    requires Separated(c) && n < |c.events| && w !in WorldAt(c, n).wallets && w in WorldAt(c, n + 1).wallets
    ensures Started(Run(c.envs(w), View(WorldAt(c, n + 1), w), []))
  {
    var (world, e) := (WorldAt(c, n), c.events[n]);
    AlwaysSettled(c, n);
    MembersOnly(c, n);
    hide WorldAt, Separate, Members, Settled, Created, View, Put, Next;
    CreatesIt(c.envs, world, e, w);
    CreateHappens(c.envs, world, e);
    var s := Created(c.envs(w), world.wallets.Keys, world.intents, OthersKeys(world, w), world.clock, e.nameHash,
                     e.args).value;
    SeedsFree(c.envs, Members(c), world, w);
    CreatedState(c.envs, world, w, e.nameHash, e.args, s);
    ViewPut(world, w, s);
    CreatedOk(c.envs(w), world.wallets.Keys, world.intents, OthersKeys(world, w), world.clock, e.nameHash, e.args);
    hide Inv, Surroundings;
    NextWorld(c, n);
  }

  lemma NextWorld(c: Chronicle, n: nat)
    requires n < |c.events|
    ensures WorldAt(c, n + 1) == Happens(c.envs, WorldAt(c, n), c.events[n])
  {
    hide Happens;
  }

  lemma CreatesIt(envs: Address -> Env, world: World, e: Event, w: Address)
    requires w !in world.wallets && w in Happens(envs, world, e).wallets
    ensures e.Create? && e.wallet == w
    ensures Created(envs(w), world.wallets.Keys, world.intents, OthersKeys(world, w), world.clock, e.nameHash,
                    e.args).Ok?
  {
    hide Created, Next, View;
  }

  lemma SeedsFree(envs: Address -> Env, members: set<Address>, world: World, w: Address)
    requires Separate(envs, members) && Settled(envs, world) && w !in world.wallets
    requires world.wallets.Keys <= members && w in members
    ensures Surroundings(envs(w), world.intents)
  {
    ApartFor(envs, members, w, w);
    forall i: byte
      ensures envs(w).intentAddress(i) !in world.intents
    {
      if envs(w).intentAddress(i) in world.intents {
        var v :| v in world.wallets && OwnSeed(envs(v), envs(w).intentAddress(i));
        ApartFor(envs, members, v, w);
      }
    }
    hide SeedsDiffer, Settled, Separate;
  }

  /**
   What any wallet of any ledger sees is a run of the one-wallet model, from its creation on: its own instructions are
   the run's instructions, and everything else, from other wallets' creations to their executions, is surroundings.
   */
  lemma {:induction false} Lived(c: Chronicle, w: Address, n: nat) returns (run: Run, at: seq<nat>)
    requires Separated(c) && n <= |c.events| && w in WorldAt(c, n).wallets
    ensures Started(run) && Lives(c, w, n, run, at)
  {
    hide Separate, Members, Settled, View, Started, Lives, Happens, After;
    var e := c.events[n - 1];
    MembersOnly(c, n - 1);
    NextWorld(c, n - 1);
    if w in WorldAt(c, n - 1).wallets {
      run, at := Lived(c, w, n - 1);
      AlwaysSettled(c, n - 1);
      var more;
      if IsOwn(e, w) {
        more := [e.ins];
        OwnStep(c.envs, WorldAt(c, n - 1), e, w);
        OneStep(c.envs(w), View(WorldAt(c, n - 1), w), e.ins);
      } else {
        more := SeenBy(c.envs, Members(c), WorldAt(c, n - 1), e, w);
      }
      LivesOn(c, w, n - 1, run, at, more);
      StartedStays(run, more);
      run := run.(steps := run.steps + more);
      at := at + [|run.steps|];
    } else {
      Born(c, w, n - 1);
      run, at := Run(c.envs(w), View(WorldAt(c, n), w), []), seq(n + 1, _ => 0);
      LivesAtBirth(c, w, n, run, at);
    }
  }

  lemma OneStep(env: Env, s: State, ins: Instruction)
    ensures After(env, s, [ins]) == Next(env, s, ins)
  {
    AfterOne(env, s, [], ins);
    assert [] + [ins] == [ins];
    hide Next;
  }

  lemma StartedStays(run: Run, more: seq<Instruction>)
    requires Started(run)
    ensures Started(run.(steps := run.steps + more))
  {
    hide Inv;
  }

  lemma LivesAtBirth(c: Chronicle, w: Address, n: nat, run: Run, at: seq<nat>)
    requires 0 < n <= |c.events| && w !in WorldAt(c, n - 1).wallets && w in WorldAt(c, n).wallets
    requires run == Run(c.envs(w), View(WorldAt(c, n), w), []) && at == seq(n + 1, _ => 0)
    ensures Lives(c, w, n, run, at)
  {
    hide WorldAt, View;
    forall m | 0 <= m < n
      ensures w !in WorldAt(c, m).wallets
    {
      if w in WorldAt(c, m).wallets {
        WalletsStay(c, w, m, n - 1);
      }
    }
  }

  // ---- A wallet that acts alone ----

  function HappenAll(envs: Address -> Env, world: World, events: seq<Event>): (r: World)
  {
    if events == [] then world
    else Happens(envs, HappenAll(envs, world, events[..|events| - 1]), events[|events| - 1])
  }

  lemma HappenOne(envs: Address -> Env, world: World, events: seq<Event>, e: Event)
    ensures HappenAll(envs, world, events + [e]) == Happens(envs, HappenAll(envs, world, events), e)
  {
    assert (events + [e])[..|events|] == events;
    hide Happens;
  }

  lemma {:induction false} HappenBoth(envs: Address -> Env, world: World, first: seq<Event>, second: seq<Event>)
    ensures HappenAll(envs, world, first + second) == HappenAll(envs, HappenAll(envs, world, first), second)
  {
    hide Happens;
    if second == [] {
      assert first + second == first;
    } else {
      var (most, last) := (second[..|second| - 1], second[|second| - 1]);
      HappenBoth(envs, world, first, most);
      assert first + second == (first + most) + [last];
      HappenOne(envs, world, first + most, last);
    }
  }

  lemma {:induction false} WorldAtAll(c: Chronicle, n: nat)
    requires n <= |c.events|
    ensures WorldAt(c, n) == HappenAll(c.envs, World(map[], map[], c.clock), c.events[..n])
  {
    hide Happens;
    if n > 0 {
      WorldAtAll(c, n - 1);
      assert c.events[..n] == c.events[..n - 1] + [c.events[n - 1]];
      HappenOne(c.envs, World(map[], map[], c.clock), c.events[..n - 1], c.events[n - 1]);
    }
  }

  function EventOf(w: Address, ins: Instruction): (e: Event)
  {
    if ins.Tick? then Pass(ins.to) else Invoke(w, ins)
  }

  function EventsOf(w: Address, steps: seq<Instruction>): (r: seq<Event>)
  {
    seq(|steps|, i requires 0 <= i < |steps| => EventOf(w, steps[i]))
  }

  /** What a wallet does alone on the ledger is what it does in its own model. */
  lemma {:induction false} ActsAlone(envs: Address -> Env, world: World, w: Address, steps: seq<Instruction>)
    requires Settled(envs, world) && w in world.wallets
    requires forall i :: 0 <= i < |steps| ==> OfProgram(steps[i]) || steps[i].Tick?
    ensures var after := HappenAll(envs, world, EventsOf(w, steps));
            && Settled(envs, after) && after.wallets.Keys == world.wallets.Keys
            && (forall v :: v in world.wallets && v != w ==> after.wallets[v] == world.wallets[v])
            && View(after, w) == After(envs(w), View(world, w), steps)
  {
    hide Settled, Happens, View, Next;
    if steps == [] {
      assert EventsOf(w, steps) == [];
    } else {
      var (most, last) := (steps[..|steps| - 1], steps[|steps| - 1]);
      ActsAlone(envs, world, w, most);
      assert EventsOf(w, steps) == EventsOf(w, most) + [EventOf(w, last)];
      HappenOne(envs, world, EventsOf(w, most), EventOf(w, last));
      var before := HappenAll(envs, world, EventsOf(w, most));
      HappensSettled(envs, before, EventOf(w, last));
      ActsOnce(envs, before, w, last);
    }
  }

  lemma ActsOnce(envs: Address -> Env, world: World, w: Address, ins: Instruction)
    requires Settled(envs, world) && w in world.wallets && (OfProgram(ins) || ins.Tick?)
    ensures var after := Happens(envs, world, EventOf(w, ins));
            && after.wallets.Keys == world.wallets.Keys
            && (forall v :: v in world.wallets && v != w ==> after.wallets[v] == world.wallets[v])
            && View(after, w) == Next(envs(w), View(world, w), ins)
  {
    hide Settled, View, Put, Apply;
    if ins.Tick? {
      PassSeen(envs(w), world, w, ins.to);
      OneStep(envs(w), View(world, w), ins);
    } else {
      OwnStep(envs, world, EventOf(w, ins), w);
      PutHas(world, w, Next(envs(w), View(world, w), ins));
    }
  }
}
