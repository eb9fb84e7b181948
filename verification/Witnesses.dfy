/** Concrete runs: where the conditions of the general theorems fail, their conclusions do fail. */
module Witnesses {
  import opened Bytes
  import opened Completion
  import opened Counts
  import opened Definition
  import opened Everywhere
  import opened Governance
  import opened Invariant
  import opened MessageMeaning
  import opened Neighbours
  import opened Retirement
  import opened Worlds
  import Interpreter
  import MessageText
  import Params

  // ---- Two small wallets ----

  /** The address with all bytes `b`. */
  function Fill(b: byte): (a: Address)
  {
    seq(32, _ => b)
  }

  /** The address that starts with `b` and `c` and has no other bytes. */
  function Marked(b: byte, c: byte): (a: Address)
  {
    [b, c] + seq(30, _ => 0)
  }

  /** The two wallets; the seeds of the first are of the form `Fill`, those of the second start with 1. */
  const FIRST: Address := Marked(2, 1)
  const SECOND: Address := Marked(2, 2)

  function SmallSeed(w: Address, i: byte): (a: Address)
  {
    if w == FIRST then Fill(i) else Marked(1, i)
  }

  lemma MarksDiffer(i: byte, j: byte, b: byte)
    requires b != 0
    ensures Fill(i) == Fill(j) ==> i == j
    ensures Marked(b, i) == Marked(b, j) ==> i == j
    ensures Fill(i) != Marked(b, j)
  {
    assert Fill(i)[0] == i && Fill(j)[0] == j && Fill(i)[2] == i;
    assert Marked(b, i)[1] == i && Marked(b, j)[0] == b && Marked(b, j)[1] == j && Marked(b, j)[2] == 0;
  }

  /** A body that names the first wallet and removes; its only member is the first wallet's. */
  function Outsider(): (body: Intent)
  {
    Intent(Definition(FIRST, RemoveIntent, 1, 1, 0, 0, 0, [Fill(7)], [Fill(7)], [], [], [], [], [], []), 1, 0)
  }

  /** A body that names the first wallet and claims an open proposal. */
  function BadBody(): (body: Intent)
  {
    Intent(Definition(FIRST, Custom, 1, 1, 0, 0, 0, [], [], [], [], [], [], [], []), 1, 1)
  }

  /** Surroundings in which every signature verifies and every string decodes to one of these bodies. */
  function SmallEnv(w: Address): (env: Env)
  {
    Env(b => if b == [] then Fill(0) else Fill(1), _ => true, (_, _, _) => true, (_, _) => None, i => SmallSeed(w, i),
        b => if b == [0] then BadBody() else Outsider(), w, Marked(2, 3), Marked(2, 4), 512, 6000)
  }

  function SmallName(w: Address): (name: Bytes)
  {
    if w == FIRST then [] else [1]
  }

  /** A wallet with one member who proposes and approves alone, without a timelock. */
  function SmallArgs(w: Address): (args: CreateArgs)
  {
    CreateArgs(SmallName(w), 1, 1, 0, [Fill(7)], [Fill(7)])
  }

  function Meta(w: Address, intentType: IntentType): (r: Intent)
  {
    MetaIntent(SmallEnv(w), SmallArgs(w), intentType)
  }

  function SmallDeclared(w: Address): (d: Interpreter.Declared)
  {
    Interpreter.Declared(Interpreter.AccountView(Marked(2, 3), [], false, true),
                         Interpreter.AccountView(Marked(2, 4), [], false, false),
                         Interpreter.AccountView(w, [], false, true))
  }

  function SmallPlan(intent: Address, params: Bytes): (plan: Plan)
  {
    Plan(intent, Fill(7), Fill(7), 1, params, (_, _) => [])
  }

  lemma SmallSeeds()
    ensures FIRST != SECOND
    ensures SeedsDiffer(SmallEnv(FIRST)) && SeedsDiffer(SmallEnv(SECOND))
    ensures forall i: byte, j: byte :: Fill(i) != Marked(1, j)
    ensures forall i: byte :: !OwnSeed(SmallEnv(FIRST), Marked(1, i))
  {
    MarksDiffer(1, 2, 2);
    forall i: byte, j: byte
      ensures SmallSeed(FIRST, i) == SmallSeed(FIRST, j) ==> i == j
      ensures SmallSeed(SECOND, i) == SmallSeed(SECOND, j) ==> i == j
      ensures Fill(i) != Marked(1, j)
    {
      MarksDiffer(i, j, 1);
    }
    hide Fill, Marked;
  }

  lemma SmallSeparate()
    ensures Separate(SmallEnv, {FIRST, SECOND})
  {
    SmallSeeds();
    hide Fill, Marked, SeedsDiffer;
  }

  /** A small wallet's member can carry a plan of any meta-intent through. */
  lemma SmallFeasible(w: Address, s: State, a: Address, intentType: IntentType, params: Bytes)
    requires a in s.intents && s.intents[a] == Meta(w, intentType) && intentType != Custom
    requires s.clock == 0 && s.proposalIndex == 0 && |s.name| <= 64 && Key(a, 0) !in s.taken
    requires |params| <= 512 && MessageText.Content(SmallEnv(w), Meta(w, intentType).def, params).Ok?
    ensures Feasible(SmallEnv(w), s, SmallPlan(a, params))
  {
    hide MessageText.Message, MessageText.Content, Params.Validated, Fill, Marked, CanSign;
    SmallSigns(w, s, a, intentType, params, MessageText.Propose, Fill(7));
    SmallSigns(w, s, a, intentType, params, MessageText.Approve, Fill(7));
  }

  lemma SmallSigns(w: Address, s: State, a: Address, intentType: IntentType, params: Bytes,
                   action: MessageText.Action, signer: Address)
    requires a in s.intents && s.intents[a] == Meta(w, intentType) && intentType != Custom && |s.name| <= 64
    requires MessageText.Content(SmallEnv(w), Meta(w, intentType).def, params).Ok?
    ensures CanSign(SmallEnv(w), s, SmallPlan(a, params), action, signer)
  {
    hide MessageText.Message, MessageText.Content, Fill, Marked;
    MetaFits(SmallEnv(w), PlanContext(s, SmallPlan(a, params), action), Meta(w, intentType).def, params);
  }

  lemma SmallContent(w: Address)
    ensures MessageText.Content(SmallEnv(w), Meta(w, RemoveIntent).def, [1]).Ok?
    ensures MessageText.Content(SmallEnv(w), Meta(w, AddIntent).def, [0]).Ok?
    ensures MessageText.Content(SmallEnv(w), Meta(w, AddIntent).def, [5]).Ok?
    ensures Meta(w, RemoveIntent).def.intentType == RemoveIntent && Meta(w, AddIntent).def.intentType == AddIntent
  {
    hide MessageText.RemoveContent, MessageText.AddContent;
  }

  lemma SmallParts(w: Address, a: Address, params: Bytes)
    ensures SmallPlan(a, params).intent == a && SmallPlan(a, params).params == params
    ensures SmallDeclared(w).vault.address == SmallEnv(w).vaultAddress
    ensures SmallDeclared(w).wallet.address == SmallEnv(w).walletAddress
    ensures SmallDeclared(w).system.address == SmallEnv(w).systemAddress
    ensures forall i: byte :: SmallEnv(w).intentAddress(i) == SmallSeed(w, i)
  {
    hide SmallSeed;
  }

  // ---- The ledger with both wallets ----

  function Creation(w: Address): (e: Event)
  {
    Create(w, if w == FIRST then Fill(0) else Fill(1), SmallArgs(w))
  }

  /** A wallet as created. */
  function Newborn(w: Address): (wallet: Wallet)
  {
    Wallet(0, 2, SmallName(w), map[], [])
  }

  function Metas(w: Address): (r: map<Address, Intent>)
  {
    map[SmallSeed(w, 0) := Meta(w, AddIntent)][SmallSeed(w, 1) := Meta(w, RemoveIntent)]
       [SmallSeed(w, 2) := Meta(w, UpdateIntent)]
  }

  lemma CreateOne()
    ensures Happens(SmallEnv, World(map[], map[], 0), Creation(FIRST))
            == World(Metas(FIRST), map[FIRST := Newborn(FIRST)], 0)
  {
    hide Fill, Marked, MetaIntent;
  }

  function Both(): (world: World)
  {
    World(Metas(FIRST)[SmallSeed(SECOND, 0) := Meta(SECOND, AddIntent)]
                      [SmallSeed(SECOND, 1) := Meta(SECOND, RemoveIntent)]
                      [SmallSeed(SECOND, 2) := Meta(SECOND, UpdateIntent)],
          map[FIRST := Newborn(FIRST), SECOND := Newborn(SECOND)], 0)
  }

  lemma CreateTwo()
    ensures Happens(SmallEnv, World(Metas(FIRST), map[FIRST := Newborn(FIRST)], 0), Creation(SECOND)) == Both()
  {
    SecondSeeds();
    var world := World(Metas(FIRST), map[FIRST := Newborn(FIRST)], 0);
    var e := Creation(SECOND);
    CreateHappens(SmallEnv, world, e);
    SecondCreated();
    hide Happens, Created, Fill, Marked, Meta, Metas, SmallEnv, FIRST, SECOND, SmallSeed, Creation;
  }

  lemma SecondCreated()
    ensures Creation(SECOND).Create? && Creation(SECOND).wallet == SECOND
    ensures var (world, e) := (World(Metas(FIRST), map[FIRST := Newborn(FIRST)], 0), Creation(SECOND));
            var r := Created(SmallEnv(SECOND), world.wallets.Keys, world.intents, OthersKeys(world, SECOND),
                             world.clock, e.nameHash, e.args);
            && r.Ok? && r.value.(taken := {}) == State(0, 2, SmallName(SECOND), Both().intents, map[], {}, 0, [])
  {
    hide Created, Fill, Marked, MetaIntent, FIRST, SECOND, SmallSeed, OthersKeys;
    SecondSeeds();
    SmallParts(SECOND, FIRST, []);
    SmallWallets();
    var (world, e) := (World(Metas(FIRST), map[FIRST := Newborn(FIRST)], 0), Creation(SECOND));
    CreatedIff(SmallEnv(SECOND), world.wallets.Keys, world.intents, OthersKeys(world, SECOND), world.clock, e.nameHash,
               e.args);
    CreatedIsInitial(SmallEnv(SECOND), world.wallets.Keys, world.intents, OthersKeys(world, SECOND), world.clock,
                     e.nameHash, e.args);
  }

  lemma SmallWallets()
    ensures forall w :: SmallEnv(w).walletAddress == w
  {}

  /** Both wallets are created, and then this happens. */
  function Story(events: seq<Event>): (c: Chronicle)
  {
    Chronicle(SmallEnv, 0, [Creation(FIRST), Creation(SECOND)] + events)
  }

  predicate NoCreation(events: seq<Event>)
  {
    forall i :: 0 <= i < |events| ==> !events[i].Create?
  }

  lemma StorySeparated(events: seq<Event>)
    requires NoCreation(events)
    ensures Separated(Story(events))
  {
    hide Creation, SmallEnv, Separate, Members, NoCreation, FIRST, SECOND;
    SmallSeparate();
    StoryMembers(events);
    SeparateFewer(SmallEnv, Members(Story(events)), {FIRST, SECOND});
  }

  lemma StoryAt(events: seq<Event>, n: nat)
    requires NoCreation(events) && n <= |events|
    ensures Separated(Story(events)) && n + 2 <= |Story(events).events|
    ensures WorldAt(Story(events), n + 2) == HappenAll(SmallEnv, Both(), events[..n])
  {
    hide Happens, WorldAt, Creation, Both, SmallEnv, Separated, NoCreation, HappenAll, FIRST, SECOND;
    StorySeparated(events);
    var (first, empty) := ([Creation(FIRST), Creation(SECOND)], World(map[], map[], 0));
    WorldAtAll(Story(events), n + 2);
    assert (first + events)[..n + 2] == first + events[..n];
    HappenBoth(SmallEnv, empty, first, events[..n]);
    BothCreated();
  }

  lemma BothCreated()
    ensures HappenAll(SmallEnv, World(map[], map[], 0), [Creation(FIRST), Creation(SECOND)]) == Both()
  {
    hide Happens, Creation, Both, SmallEnv, Metas, Newborn;
    var empty := World(map[], map[], 0);
    HappenOne(SmallEnv, empty, [], Creation(FIRST));
    HappenOne(SmallEnv, empty, [Creation(FIRST)], Creation(SECOND));
    assert [] + [Creation(FIRST)] == [Creation(FIRST)];
    assert [Creation(FIRST)] + [Creation(SECOND)] == [Creation(FIRST), Creation(SECOND)];
    CreateOne();
    CreateTwo();
  }

  lemma StoryMembers(events: seq<Event>)
    requires NoCreation(events)
    ensures Members(Story(events)) <= {FIRST, SECOND}
  {
    var c := Story(events);
    forall i | 0 <= i < |c.events|
      ensures c.events[i].Create? ==> c.events[i].wallet in {FIRST, SECOND}
    {
      if i >= 2 {
        assert c.events[i] == events[i - 2];
      }
    }
    hide SmallEnv, SmallArgs;
  }

  lemma SeparateFewer(envs: Address -> Env, few: set<Address>, many: set<Address>)
    requires Separate(envs, many) && few <= many
    ensures Separate(envs, few)
  {
    hide SeedsDiffer, Apart;
  }

  /** At the start both wallets are in order. */
  lemma BothOk()
    ensures Settled(SmallEnv, Both())
    ensures FIRST in Both().wallets && SECOND in Both().wallets
    ensures Inv(SmallEnv(SECOND), View(Both(), SECOND))
  {
    hide Inv, Settled, Separated, SmallEnv, View, WorldAt, Story, HappenAll;
    StoryAt([], 0);
    StoryShape([], 0);
    AlwaysSettled(Story([]), 2);
    BothHasBoth();
    InvEverywhere(Story([]), 2, SECOND);
  }

  lemma BothHasBoth()
    ensures FIRST in Both().wallets && SECOND in Both().wallets
  {
    hide Metas, Newborn;
  }

  lemma StoryShape(events: seq<Event>, n: nat)
    requires n <= |events|
    ensures Story(events).envs == SmallEnv && |Story(events).events| == |events| + 2
    ensures n < |events| ==> Story(events).events[n + 2] == events[n]
    ensures HappenAll(SmallEnv, Both(), []) == Both()
  {
    hide SmallEnv, Both;
  }

  // ---- An account outside the seeds ----

  /** The account the second wallet adds: outside the first wallet's seeds. */
  function Outside(): (a: Address)
  {
    SmallSeed(SECOND, 3)
  }

  /** The accounts once the second wallet has added one that names the first. */
  predicate Extended(intents: map<Address, Intent>)
  {
    && intents.Keys == Both().intents.Keys + {Outside()} && intents[Outside()] == Outsider()
    && (forall b :: b in Both().intents && b != SmallSeed(SECOND, 0) ==> intents[b] == Both().intents[b])
    && (forall b :: b in Both().intents ==> b != Outside() && intents[b].def == Both().intents[b].def)
  }

  /** The ledger then. */
  predicate OutsiderAdded(world: World)
  {
    && Settled(SmallEnv, world) && world.clock == 0 && Extended(world.intents)
    && world.wallets.Keys == {FIRST, SECOND} && world.wallets[FIRST] == Newborn(FIRST)
    && world.wallets[SECOND].proposals.Keys == {Key(SmallSeed(SECOND, 0), 0)}
  }

  /** The second wallet's member adds it. */
  lemma SecondAdds() returns (events: seq<Event>)
    ensures NoCreation(events) && OutsiderAdded(HappenAll(SmallEnv, Both(), events))
  {
    hide *;
    BothOk();
    var (s, plan) := (View(Both(), SECOND), SmallPlan(SmallSeed(SECOND, 0), [5]));
    SecondAdder();
    SmallContent(SECOND);
    SmallFeasible(SECOND, s, SmallSeed(SECOND, 0), AddIntent, [5]);
    SmallParts(SECOND, SmallSeed(SECOND, 0), [5]);
    var unlock, ins := QuorumAdds(SmallEnv(SECOND), s, plan, SmallDeclared(SECOND));
    QuietWith(unlock, ins);
    ActsAlone(SmallEnv, Both(), SECOND, unlock + [ins]);
    AfterOne(SmallEnv(SECOND), s, unlock, ins);
    events := EventsOf(SECOND, unlock + [ins]);
    NoneCreated(SECOND, unlock + [ins]);
    SecondAdded(HappenAll(SmallEnv, Both(), events));
  }

  lemma QuietWith(unlock: seq<Instruction>, ins: Instruction)
    requires Quiet(unlock) && ins.Execute?
    ensures forall i :: 0 <= i < |unlock + [ins]| ==> OfProgram((unlock + [ins])[i]) || (unlock + [ins])[i].Tick?
    ensures forall i :: 0 <= i < |unlock| ==> OfProgram(unlock[i]) || unlock[i].Tick?
  {}

  lemma NoneCreated(w: Address, steps: seq<Instruction>)
    ensures NoCreation(EventsOf(w, steps))
  {}

  lemma SecondAdder()
    ensures SECOND in Both().wallets
    ensures var s := View(Both(), SECOND);
            && SmallSeed(SECOND, 0) in s.intents && s.intents[SmallSeed(SECOND, 0)] == Meta(SECOND, AddIntent)
            && s.clock == 0 && s.proposalIndex == 0 && |s.name| <= 64 && s.intentIndex == 2
            && s.taken == {} && s.proposals == map[] && s.intents == Both().intents
            && PlanKey(s, SmallPlan(SmallSeed(SECOND, 0), [5])) == Key(SmallSeed(SECOND, 0), 0)
            && s.intents[SmallSeed(SECOND, 0)].def.timelockSeconds == 0
            && Key(SmallSeed(SECOND, 0), 0) !in s.taken
    ensures AddedBody(SmallEnv(SECOND), [5]) == Outsider()
  {
    SecondSeeds();
    DecodedOutsider();
    hide Fill, Marked, SmallSeed, Metas, Outsider, AddedBody, FIRST, SECOND;
  }

  lemma SecondSeeds()
    ensures FIRST != SECOND
    ensures forall i: byte, j: byte :: SmallSeed(SECOND, i) == SmallSeed(SECOND, j) ==> i == j
    ensures forall i: byte, j: byte :: SmallSeed(FIRST, i) == SmallSeed(FIRST, j) ==> i == j
    ensures forall i: byte, j: byte :: SmallSeed(FIRST, i) != SmallSeed(SECOND, j)
  {
    SmallSeeds();
    hide Fill, Marked;
    forall i: byte, j: byte
      ensures SmallSeed(SECOND, i) == SmallSeed(SECOND, j) ==> i == j
      ensures SmallSeed(FIRST, i) == SmallSeed(FIRST, j) ==> i == j
    {
      assert SmallEnv(SECOND).intentAddress(i) == SmallSeed(SECOND, i);
      assert SmallEnv(SECOND).intentAddress(j) == SmallSeed(SECOND, j);
      assert SmallEnv(FIRST).intentAddress(i) == SmallSeed(FIRST, i);
      assert SmallEnv(FIRST).intentAddress(j) == SmallSeed(FIRST, j);
    }
  }

  lemma DecodedOutsider()
    ensures AddedBody(SmallEnv(SECOND), [5]) == Outsider()
  {
    hide Outsider, BadBody;
    assert [5][..1] == [5] && [5] != [0];
  }

  lemma SecondAdded(world: World)
    requires Settled(SmallEnv, world) && world.wallets.Keys == Both().wallets.Keys
    requires FIRST in Both().wallets && SECOND in Both().wallets
    requires forall v :: v in Both().wallets && v != SECOND ==> world.wallets[v] == Both().wallets[v]
    requires var (t, a) := (View(world, SECOND), SmallSeed(SECOND, 3));
             && t.intents.Keys == Both().intents.Keys + {a} && t.intents[a] == Outsider()
             && (forall b :: b in Both().intents && b != SmallSeed(SECOND, 0) ==>
                   b != a && t.intents[b] == Both().intents[b])
             && SmallSeed(SECOND, 0) in Both().intents
             && t.intents[SmallSeed(SECOND, 0)].def == Both().intents[SmallSeed(SECOND, 0)].def
             && t.proposals.Keys == {Key(SmallSeed(SECOND, 0), 0)} && t.clock == 0
    ensures OutsiderAdded(world)
  {
    hide Both, View, Settled, SmallEnv, Newborn, SmallSeed, Outsider, FIRST, SECOND, Extended;
    ViewParts(world, SECOND);
    BothFirst();
    SecondSeeds();
    assert SmallSeed(SECOND, 3) == SmallSeed(SECOND, 0) ==> 3 == 0;
    IsExtended(world.intents);
  }

  lemma IsExtended(intents: map<Address, Intent>)
    requires var a := SmallSeed(SECOND, 3);
             && intents.Keys == Both().intents.Keys + {a} && intents[a] == Outsider() && a != SmallSeed(SECOND, 0)
             && (forall b :: b in Both().intents && b != SmallSeed(SECOND, 0) ==>
                   b != a && intents[b] == Both().intents[b])
             && SmallSeed(SECOND, 0) in Both().intents
             && intents[SmallSeed(SECOND, 0)].def == Both().intents[SmallSeed(SECOND, 0)].def
    ensures Extended(intents)
  {
    hide Both, SmallSeed, Outsider;
  }

  lemma BothFirst()
    ensures Both().wallets.Keys == {FIRST, SECOND} && Both().wallets[FIRST] == Newborn(FIRST)
  {
    SmallSeeds();
    hide Metas, Newborn, FIRST, SECOND, SmallSeed;
  }

  lemma BothIntents()
    ensures Both().intents == map[
                SmallSeed(FIRST, 0) := Meta(FIRST, AddIntent), SmallSeed(FIRST, 1) := Meta(FIRST, RemoveIntent),
                SmallSeed(FIRST, 2) := Meta(FIRST, UpdateIntent), SmallSeed(SECOND, 0) := Meta(SECOND, AddIntent),
                SmallSeed(SECOND, 1) := Meta(SECOND, RemoveIntent), SmallSeed(SECOND, 2) := Meta(SECOND, UpdateIntent)]
  {
    SecondSeeds();
    hide SmallSeed, FIRST, SECOND, MetaIntent, Newborn;
  }

  /** Of the accounts that name the first wallet only its own at index 1 and the outside one remove. */
  predicate Removes(intent: Intent)
  {
    intent.def.wallet == FIRST && intent.def.intentType == RemoveIntent
  }

  lemma BothRemovers()
    ensures forall a :: a in Both().intents && Removes(Both().intents[a]) ==> a == SmallSeed(FIRST, 1)
    ensures SmallSeed(FIRST, 1) in Both().intents && Both().intents[SmallSeed(FIRST, 1)] == Meta(FIRST, RemoveIntent)
    ensures SmallSeed(FIRST, 1) != SmallSeed(SECOND, 0)
  {
    SecondSeeds();
    BothIntents();
    MetaParts();
    hide Both, SmallSeed, FIRST, SECOND, Meta;
  }

  lemma MetaParts()
    ensures forall w, intentType ::
              Meta(w, intentType).def.wallet == w && Meta(w, intentType).def.intentType == intentType
    ensures Meta(FIRST, RemoveIntent) == Outsider() && Outsider().approved == 1 && Outsider().activeProposalCount == 0
  {
    hide FIRST, Fill;
  }

  /** What the first wallet's state is then. */
  lemma FirstSees(world: World)
    requires OutsiderAdded(world)
    ensures FIRST in world.wallets
    ensures var s := View(world, FIRST);
            && s.intents == world.intents && Extended(s.intents) && s.clock == 0 && s.proposalIndex == 0
               && |s.name| <= 64
            && Key(Outside(), 0) !in s.taken
  {
    hide Both, SmallSeed, FIRST, SECOND, Settled, Extended, OthersKeys;
    FirstTaken(world);
  }

  lemma FirstIntents(intents: map<Address, Intent>)
    requires Extended(intents)
    ensures Outside() in intents && intents[Outside()] == Meta(FIRST, RemoveIntent)
    ensures SmallSeed(FIRST, 1) in intents && SmallSeed(FIRST, 1) != Outside()
    ensures intents[SmallSeed(FIRST, 1)] == Meta(FIRST, RemoveIntent)
    ensures forall a :: a in intents && Removes(intents[a]) ==> a == SmallSeed(FIRST, 1) || a == Outside()
  {
    hide Both, SmallSeed, Outsider, Meta;
    BothRemovers();
    MetaParts();
  }

  lemma NotOwn()
    ensures !OwnSeed(SmallEnv(FIRST), Outside())
  {
    SmallSeeds();
    hide Fill, Marked, OwnSeed;
  }

  lemma FirstTaken(world: World)
    requires OutsiderAdded(world)
    ensures FIRST in world.wallets && View(world, FIRST).taken <= {Key(SmallSeed(SECOND, 0), 0)}
    ensures Key(Outside(), 0) !in View(world, FIRST).taken
  {
    hide Both, SmallSeed, Settled, Extended, Newborn, FIRST, SECOND;
    SecondSeeds();
    assert SmallSeed(SECOND, 3) == SmallSeed(SECOND, 0) ==> 3 == 0;
  }

  lemma FirstOk(events: seq<Event>)
    requires NoCreation(events) && FIRST in HappenAll(SmallEnv, Both(), events).wallets
    ensures Inv(SmallEnv(FIRST), View(HappenAll(SmallEnv, Both(), events), FIRST))
  {
    hide Inv, Separated, SmallEnv, View, WorldAt, Story, HappenAll, NoCreation, FIRST;
    StoryAt(events, |events|);
    assert events[..|events|] == events;
    StoryShape(events, |events|);
    InvEverywhere(Story(events), |events| + 2, FIRST);
  }

  /**
   A ledger on which a second wallet adds an account that names the first,
   whose only removing intent at its own seeds is
   the one at index 1; the signers of the added account then switch that one off. So the theorem about the only removing
   intent does need that no account outside the seeds names the wallet.
   */
  lemma OutsiderWitness() returns (c: Chronicle, n: nat)
    ensures Separated(c) && n + 1 == |c.events| && Succeeded(c, n)
    ensures c.events[n].Invoke? && c.events[n].wallet == FIRST && c.events[n].ins.Execute? && c.envs == SmallEnv
    ensures FIRST in WorldAt(c, n).wallets && FIRST in WorldAt(c, n + 1).wallets
    ensures var (s, t) := (View(WorldAt(c, n), FIRST), View(WorldAt(c, n + 1), FIRST));
            SwitchedOff(s, c.events[n].ins, t)
  {
    hide *;
    var added := SecondAdds();
    var world := HappenAll(SmallEnv, Both(), added);
    FirstSees(world);
    FirstOk(added);
    FirstIntents(world.intents);
    SmallContent(FIRST);
    var s := View(world, FIRST);
    SmallFeasible(FIRST, s, Outside(), RemoveIntent, [1]);
    SmallParts(FIRST, Outside(), [1]);
    MetaParts();
    var unlock, ins := QuorumRemoves(SmallEnv(FIRST), s, SmallPlan(Outside(), [1]), 1, SmallDeclared(FIRST));
    NotOwn();
    RemovedThen(s, After(SmallEnv(FIRST), s, unlock), ins);
    c, n := Tell(added, world, unlock, ins);
  }

  /** The first wallet's only removing intent at its own seeds is switched off, under an account outside them. */
  predicate SwitchedOff(s: State, ins: Instruction, t: State)
  {
    var (env, j) := (SmallEnv(FIRST), SmallSeed(FIRST, 1));
    && ins.Execute? && !OwnSeed(env, ins.key.intent) && OwnSeed(env, j)
    && j in s.intents && s.intents[j].approved == 1 && OnlyIndexedRemoverIn(env, s, j) && !Replaces(env, s, ins, j)
    && j in t.intents && t.intents[j].approved == 0
  }

  /** What has been played, as a chronicle. */
  lemma Tell(added: seq<Event>, world: World, unlock: seq<Instruction>, ins: Instruction)
    returns (c: Chronicle, n: nat)
    requires NoCreation(added) && world == HappenAll(SmallEnv, Both(), added) && OutsiderAdded(world)
    requires FIRST in world.wallets && Quiet(unlock) && ins.Execute?
    requires Apply(SmallEnv(FIRST), After(SmallEnv(FIRST), View(world, FIRST), unlock), ins).Ok?
    ensures Separated(c) && n + 1 == |c.events| && Succeeded(c, n)
    ensures c.events[n] == Invoke(FIRST, ins) && c.envs == SmallEnv
    ensures FIRST in WorldAt(c, n).wallets && FIRST in WorldAt(c, n + 1).wallets
    ensures View(WorldAt(c, n), FIRST) == After(SmallEnv(FIRST), View(world, FIRST), unlock)
    ensures View(WorldAt(c, n + 1), FIRST) == Next(SmallEnv(FIRST), View(WorldAt(c, n), FIRST), ins)
  {
    hide *;
    AddedIsSettled(world);
    QuietWith(unlock, ins);
    ActsAlone(SmallEnv, world, FIRST, unlock);
    var played := EventsOf(FIRST, unlock);
    NoneCreated(FIRST, unlock);
    var events := added + played + [Invoke(FIRST, ins)];
    MoreEvents(added, played, FIRST, ins);
    c, n := Story(events), |added + played| + 2;
    StoryAt(events, |added + played|);
    StoryShape(events, |added + played|);
    HappenBoth(SmallEnv, Both(), added, played);
    NextWorld(c, n);
    LastEvent(WorldAt(c, n), ins);
    LastSucceeds(c, n, ins);
  }

  lemma AddedIsSettled(world: World)
    requires OutsiderAdded(world)
    ensures Settled(SmallEnv, world)
  {
    hide Settled, SmallEnv, Extended;
  }

  lemma MoreEvents(added: seq<Event>, played: seq<Event>, w: Address, ins: Instruction)
    requires NoCreation(added) && NoCreation(played)
    ensures var events := added + played + [Invoke(w, ins)];
            && NoCreation(events) && events[..|added + played|] == added + played
            && |events| == |added + played| + 1 && events[|added + played|] == Invoke(w, ins)
  {}

  lemma LastEvent(world: World, ins: Instruction)
    requires Settled(SmallEnv, world) && FIRST in world.wallets && ins.Execute?
    ensures FIRST in Happens(SmallEnv, world, Invoke(FIRST, ins)).wallets
    ensures View(Happens(SmallEnv, world, Invoke(FIRST, ins)), FIRST)
            == Next(SmallEnv(FIRST), View(world, FIRST), ins)
  {
    hide Settled, SmallEnv, Happens, View, Next, FIRST;
    OwnStep(SmallEnv, world, Invoke(FIRST, ins), FIRST);
  }

  lemma LastSucceeds(c: Chronicle, n: nat, ins: Instruction)
    requires n < |c.events| && c.events[n] == Invoke(FIRST, ins) && ins.Execute? && c.envs == SmallEnv
    requires FIRST in WorldAt(c, n).wallets && Apply(SmallEnv(FIRST), View(WorldAt(c, n), FIRST), ins).Ok?
    ensures Succeeded(c, n)
  {
    hide WorldAt, View, Apply, SmallEnv, FIRST;
  }

  lemma RemovedThen(s: State, t: State, ins: Instruction)
    requires Feasible(SmallEnv(FIRST), s, SmallPlan(Outside(), [1]))
    requires Unlocked(SmallEnv(FIRST), s, SmallPlan(Outside(), [1]), t)
    requires ins.Execute? && ins.key == PlanKey(s, SmallPlan(Outside(), [1]))
    requires var (u, j) := (Next(SmallEnv(FIRST), t, ins), SmallSeed(FIRST, 1));
             j in u.intents && j in s.intents && u.intents[j] == s.intents[j].(approved := 0)
    requires s.intents[SmallSeed(FIRST, 1)] == Meta(FIRST, RemoveIntent) && SmallSeed(FIRST, 1) != Outside()
    requires forall a :: a in s.intents && Removes(s.intents[a]) ==> a == SmallSeed(FIRST, 1) || a == Outside()
    requires !OwnSeed(SmallEnv(FIRST), Outside()) && Outside() in s.intents
    requires s.intents[Outside()] == Meta(FIRST, RemoveIntent)
    ensures SwitchedOff(t, ins, Next(SmallEnv(FIRST), t, ins))
  {
    hide Feasible, SmallSeed, Meta, FIRST, Next, Apply, SmallEnv, Outside, Outsider, Fill;
    MetaParts();
    SmallParts(FIRST, Outside(), [1]);
    SmallWallets();
  }

  // ---- A body that claims open proposals ----

  /** A created wallet installs, by a successful execution, a body whose count is not that of its open proposals. */
  lemma BadBodyWitness() returns (s: State, unlock: seq<Instruction>, ins: Instruction)
    ensures FIRST in Both().wallets && s == View(Both(), FIRST)
    ensures var (env, t, a) := (SmallEnv(FIRST), After(SmallEnv(FIRST), s, unlock), SmallSeed(FIRST, 3));
            && Inv(env, t) && CountExact(env, t, a) && Apply(env, t, ins).Ok? && !InstallsAt(env, t, ins, a)
            && !CountExact(env, Next(env, t, ins), a)
  {
    hide *;
    BothOk();
    s := View(Both(), FIRST);
    StartOk();
    FirstAdder();
    SmallContent(FIRST);
    SmallFeasible(FIRST, s, SmallSeed(FIRST, 0), AddIntent, [0]);
    SmallParts(FIRST, SmallSeed(FIRST, 0), [0]);
    unlock, ins := QuorumAdds(SmallEnv(FIRST), s, SmallPlan(SmallSeed(FIRST, 0), [0]), SmallDeclared(FIRST));
    var t := After(SmallEnv(FIRST), s, unlock);
    AfterKeeps(SmallEnv(FIRST), s, unlock);
    BadlyCounted(s, t, Next(SmallEnv(FIRST), t, ins));
    CountKeptIff(SmallEnv(FIRST), t, ins, SmallSeed(FIRST, 3));
  }

  lemma StartOk()
    ensures FIRST in Both().wallets && Inv(SmallEnv(FIRST), View(Both(), FIRST))
  {
    hide *;
    BothOk();
    StoryShape([], 0);
    NothingCreated();
    FirstOk([]);
  }

  lemma NothingCreated()
    ensures NoCreation([])
  {}

  lemma FirstAdder()
    ensures FIRST in Both().wallets
    ensures var s := View(Both(), FIRST);
            && SmallSeed(FIRST, 0) in s.intents && s.intents[SmallSeed(FIRST, 0)] == Meta(FIRST, AddIntent)
            && s.clock == 0 && s.proposalIndex == 0 && |s.name| <= 64 && s.intentIndex == 2
            && s.proposals == map[] && SmallSeed(FIRST, 3) !in s.intents
            && PlanKey(s, SmallPlan(SmallSeed(FIRST, 0), [0])) == Key(SmallSeed(FIRST, 0), 0)
            && Key(SmallSeed(FIRST, 0), 0) !in s.taken
    ensures AddedBody(SmallEnv(FIRST), [0]) == BadBody() && SmallSeed(FIRST, 0) != SmallSeed(FIRST, 3)
  {
    SecondSeeds();
    DecodedBad();
    BothIntents();
    hide Fill, Marked, SmallSeed, Metas, BadBody, AddedBody, FIRST, SECOND;
  }

  lemma DecodedBad()
    ensures AddedBody(SmallEnv(FIRST), [0]) == BadBody()
  {
    hide Outsider, BadBody;
    assert [0][..1] == [0];
  }

  lemma BadlyCounted(s: State, t: State, u: State)
    requires Feasible(SmallEnv(FIRST), s, SmallPlan(SmallSeed(FIRST, 0), [0]))
    requires Unlocked(SmallEnv(FIRST), s, SmallPlan(SmallSeed(FIRST, 0), [0]), t)
    requires SmallSeed(FIRST, 3) !in s.intents && SmallSeed(FIRST, 0) != SmallSeed(FIRST, 3)
    requires u.proposals.Keys == {Key(SmallSeed(FIRST, 0), 0)}
    requires SmallSeed(FIRST, 3) in u.intents && u.intents[SmallSeed(FIRST, 3)] == BadBody()
    ensures CountExact(SmallEnv(FIRST), t, SmallSeed(FIRST, 3))
    ensures !CountExact(SmallEnv(FIRST), u, SmallSeed(FIRST, 3))
  {
    assert SmallEnv(FIRST).walletAddress == FIRST;
    assert OpenKeys(u.proposals, SmallSeed(FIRST, 3)) == {};
    hide Feasible, SmallSeed, FIRST, SmallEnv, OpenKeys;
  }
}
