/** The governance state machine: wallet, intents, proposals and clock, and one transition per instruction. */
module Governance {
  import opened Bytes
  import opened Ballots
  import opened Definition
  import Interpreter
  import MessageText
  import Params

  datatype Status = Active | Approved | Executed | Cancelled

  /** A proposal account; the intent it belongs to and its place in the wallet are its key. */
  datatype Proposal = Proposal(
    proposalIndex: u64,
    proposer: Address,
    status: Status,
    proposedAt: i64,
    approvedAt: i64,
    ballot: Ballot,
    rentRefund: Address,
    params: Bytes)

  /** The seeds of a proposal's address: the intent account and the wallet's index at the time. */
  datatype Key = Key(intent: Address, index: u64)

  /** What an execution did. */
  datatype Effect =
    | Added(intent: byte)
    | Removed(target: byte)
    | Updated(target: byte)
    | Ran(calls: seq<Interpreter.Call>)

  datatype Done = Done(key: Key, effect: Effect)

  /**
   One wallet, its proposals, and every intent account of the program, under any wallet's seeds; `taken` are the
   proposal addresses that other wallets' proposals occupy.
   */
  datatype State = State(
    proposalIndex: u64,
    intentIndex: byte,
    name: Bytes,
    intents: map<Address, Intent>,
    proposals: map<Key, Proposal>,
    taken: set<Key>,
    clock: i64,
    effects: seq<Done>)

  /** The instructions on this wallet, and what happens around it: time passes, and other wallets are run. */
  datatype Instruction =
    | Tick(to: i64)
    | Elsewhere(at: Address, body: Intent)
    | Claim(keys: set<Key>)
    | Propose(intent: Address, payer: Address, expiry: i64, proposer: Address, signature: Bytes, params: Bytes)
    | Approve(key: Key, expiry: i64, slot: byte, signature: Bytes)
    | Cancel(key: Key, expiry: i64, slot: byte, signature: Bytes)
    | Execute(key: Key, declared: Interpreter.Declared, remaining: seq<Interpreter.AccountView>)
    | Cleanup(key: Key, refund: Address)

  predicate Open(p: Proposal)
  {
    p.status == Active || p.status == Approved
  }

  /** The intent account names this wallet: `has_one = wallet` holds, wherever the account is. */
  predicate Names(env: Env, intent: Intent)
  {
    intent.def.wallet == env.walletAddress
  }

  /** An address derived from this wallet's own seeds. */
  predicate OwnSeed(env: Env, a: Address)
  {
    exists i: byte :: env.intentAddress(i) == a
  }

  // ---- create_wallet ----

  /** `CreateWalletArgs`. */
  datatype CreateArgs = CreateArgs(
    name: Bytes,
    approvalThreshold: byte,
    cancellationThreshold: byte,
    timelockSeconds: u32,
    proposers: seq<Address>,
    approvers: seq<Address>)

  /** A meta-intent: everything but its type comes from the arguments. */
  function MetaIntent(env: Env, args: CreateArgs, intentType: IntentType): (r: Intent)
  {
    Intent(Definition(env.walletAddress, intentType, args.approvalThreshold, args.cancellationThreshold,
                      args.timelockSeconds, 0, 0, args.proposers, args.approvers, [], [], [], [], [], []),
           1, 0)
  }

  /**
   The checks of `create`: the wallet's and the three intents' addresses are free, where `wallets` are the wallets there
   are; the counts are cut to a byte first, the fixed-capacity lists are filled last.
   */
  function CreateCheck(env: Env, wallets: set<Address>, existing: map<Address, Intent>, nameHash: Address,
                       args: CreateArgs): (r: Result<()>)
  {
    var (proposerCount, approverCount) := (|args.proposers| % 0x100, |args.approvers| % 0x100);
    if env.walletAddress in wallets then Err(InvalidArgument)
    else if env.intentAddress(0) in existing || env.intentAddress(1) in existing
            || env.intentAddress(2) in existing then
      Err(InvalidArgument)
    else if nameHash != env.sha256(args.name) then Err(InvalidSeeds)
    else if proposerCount > 16 || approverCount > 16 then Err(InvalidArgument)
    else if args.approvalThreshold == 0 || args.approvalThreshold > approverCount then Err(InvalidArgument)
    else if args.cancellationThreshold == 0 || args.cancellationThreshold > approverCount then Err(InvalidArgument)
    else if |args.name| > 64 then Err(InvalidArgument)
    else if |args.proposers| > 16 || |args.approvers| > 16 then Err(Panic)
    else Ok(())
  }

  /** A new wallet among the accounts there are: three switched-on meta-intents, no proposals. */
  function Initial(env: Env, existing: map<Address, Intent>, taken: set<Key>, clock: i64, args: CreateArgs): (s: State)
  {
    var intents := existing[env.intentAddress(0) := MetaIntent(env, args, AddIntent)]
                           [env.intentAddress(1) := MetaIntent(env, args, RemoveIntent)]
                           [env.intentAddress(2) := MetaIntent(env, args, UpdateIntent)];
    State(0, 2, args.name, intents, map[], taken, clock, [])
  }

  function Created(env: Env, wallets: set<Address>, existing: map<Address, Intent>, taken: set<Key>, clock: i64,
                   nameHash: Address, args: CreateArgs): (r: Result<State>)
  {
    var checked :- CreateCheck(env, wallets, existing, nameHash, args);
    Ok(Initial(env, existing, taken, clock, args))
  }

  // ---- propose ----

  /** `build_message_for_intent` and `sig_verify`. */
  function Signed(env: Env, ctx: MessageText.Context, def: Definition, params: Bytes, signer: Address, signature: Bytes)
    : (r: Result<()>)
  {
    var message :- MessageText.Built(env, ctx, def, params);
    if env.verifies(signer, signature, message) then Ok(()) else Err(InvalidArgument)
  }

  /** `has_one = wallet` on the intent account; its address is not constrained. */
  function LoadIntent(env: Env, s: State, a: Address): (r: Result<Intent>)
  {
    if a !in s.intents then Err(UninitializedAccount)
    else if !Names(env, s.intents[a]) then Err(InvalidArgument)
    else Ok(s.intents[a])
  }

  function ProposeCheck(env: Env, s: State, i: Address, expiry: i64, proposer: Address, signature: Bytes, params: Bytes)
    : (r: Result<Intent>)
  {
    var intent :- LoadIntent(env, s, i);
    if intent.approved == 0 then Err(InvalidArgument)
    else if Key(i, s.proposalIndex) in s.proposals || Key(i, s.proposalIndex) in s.taken then Err(InvalidArgument)
    else if expiry <= s.clock then Err(InvalidArgument)
    else if proposer !in intent.def.proposers then Err(MissingRequiredSignature)
    else
      var admitted :- if intent.def.intentType == Custom then Params.Validated(intent.def.params, params,
                                                                               env.utf8) else Ok(());
      var signed :- Signed(env, MessageText.Context(expiry, MessageText.Propose, s.name, s.proposalIndex), intent.def,
                           params,
                           proposer, signature);
      if |params| > env.paramsCap then Err(Panic)
      else if intent.activeProposalCount == 0xffff then Err(InvalidArgument)
      else if s.proposalIndex == 0xffff_ffff_ffff_ffff then Err(ArithmeticOverflow)
      else Ok(intent)
  }

  /** The new proposal, and the two counters that go with it. */
  function Proposed(s: State, i: Address, payer: Address, proposer: Address, params: Bytes): (t: State)
    requires i in s.intents && s.intents[i].activeProposalCount < 0xffff && s.proposalIndex < 0xffff_ffff_ffff_ffff
  {
    var proposal := Proposal(s.proposalIndex, proposer, Active, s.clock, 0, Ballot(0, 0), payer, params);
    s.(proposals := s.proposals[Key(i, s.proposalIndex) := proposal],
       intents := s.intents[i := s.intents[i].(activeProposalCount := s.intents[i].activeProposalCount + 1)],
       proposalIndex := s.proposalIndex + 1)
  }

  function ApplyPropose(env: Env, s: State, i: Address, payer: Address, expiry: i64, proposer: Address,
                        signature: Bytes, params: Bytes): (r: Result<State>)
  {
    var intent :- ProposeCheck(env, s, i, expiry, proposer, signature, params);
    Ok(Proposed(s, i, payer, proposer, params))
  }

  // ---- approve and cancel ----

  function LoadProposal(s: State, key: Key): (r: Result<Proposal>)
  {
    if key in s.proposals then Ok(s.proposals[key]) else Err(UninitializedAccount)
  }

  /** The checks `approve` and `cancel` share, after the account constraints. */
  function VoteCheck(env: Env, s: State, action: MessageText.Action, intent: Intent, p: Proposal, voted: bv16,
                     expiry: i64, slot: byte, signature: Bytes): (r: Result<()>)
  {
    if expiry <= s.clock then Err(InvalidArgument)
    else if slot >= |intent.def.approvers| then Err(InvalidArgument)
    else if Has(voted, slot) then Err(InvalidArgument)
    else Signed(env, MessageText.Context(expiry, action, s.name, p.proposalIndex), intent.def, p.params,
                intent.def.approvers[slot], signature)
  }

  function ApproveCheck(env: Env, s: State, key: Key, expiry: i64, slot: byte, signature: Bytes): (r: Result<()>)
  {
    var intent :- LoadIntent(env, s, key.intent);
    if intent.approved == 0 then Err(InvalidArgument)
    else
      var p :- LoadProposal(s, key);
      if p.status != Active then Err(InvalidArgument)
      else VoteCheck(env, s, MessageText.Approve, intent, p, p.ballot.approvals, expiry, slot, signature)
  }

  /** The proposal after an approval by `slot`. */
  function AfterApprove(def: Definition, p: Proposal, slot: byte, clock: i64): (q: Proposal)
  {
    var voted := p.(ballot := p.ballot.Approve(slot));
    if Count(voted.ballot.approvals) >= def.approvalThreshold then voted.(status := Approved, approvedAt := clock)
    else voted
  }

  function Approving(s: State, key: Key, slot: byte): (t: State)
    requires key in s.proposals && key.intent in s.intents
  {
    s.(proposals := s.proposals[key := AfterApprove(s.intents[key.intent].def, s.proposals[key], slot, s.clock)])
  }

  function ApplyApprove(env: Env, s: State, key: Key, expiry: i64, slot: byte, signature: Bytes): (r: Result<State>)
  {
    var checked :- ApproveCheck(env, s, key, expiry, slot, signature);
    Ok(Approving(s, key, slot))
  }

  function CancelCheck(env: Env, s: State, key: Key, expiry: i64, slot: byte, signature: Bytes): (r: Result<()>)
  {
    var intent :- LoadIntent(env, s, key.intent);
    var p :- LoadProposal(s, key);
    if !Open(p) then Err(InvalidArgument)
    else VoteCheck(env, s, MessageText.Cancel, intent, p, p.ballot.cancellations, expiry, slot, signature)
  }

  /** The proposal after a cancellation by `slot`. */
  function AfterCancel(def: Definition, p: Proposal, slot: byte): (q: Proposal)
  {
    var voted := p.(ballot := p.ballot.Cancel(slot));
    if Count(voted.ballot.cancellations) >= def.cancellationThreshold then voted.(status := Cancelled)
    else if p.status == Approved && Count(voted.ballot.approvals) < def.approvalThreshold then voted.(status := Active)
    else voted
  }

  /** `saturating_sub(1)`. */
  function Pred(n: u16): (r: u16)
  {
    if n == 0 then 0 else n - 1
  }

  /** One open proposal of intent `i` fewer. */
  function Release(intents: map<Address, Intent>, i: Address): (r: map<Address, Intent>)
    requires i in intents
  {
    intents[i := intents[i].(activeProposalCount := Pred(intents[i].activeProposalCount))]
  }

  /** A cancellation that closes the proposal also releases its intent. */
  function Cancelling(s: State, key: Key, slot: byte): (t: State)
    requires key in s.proposals && key.intent in s.intents
  {
    var p := AfterCancel(s.intents[key.intent].def, s.proposals[key], slot);
    s.(proposals := s.proposals[key := p],
       intents := if p.status == Cancelled then Release(s.intents, key.intent) else s.intents)
  }

  function ApplyCancel(env: Env, s: State, key: Key, expiry: i64, slot: byte, signature: Bytes): (r: Result<State>)
  {
    var checked :- CancelCheck(env, s, key, expiry, slot, signature);
    Ok(Cancelling(s, key, slot))
  }

  // ---- execute ----

  /** `validate_target_intent_for_modification`; the account need not name this wallet. */
  function TargetCheck(env: Env, s: State, view: Interpreter.AccountView, target: byte): (r: Result<()>)
  {
    if view.address != env.intentAddress(target) then Err(InvalidSeeds)
    else if !view.isWritable then Err(Immutable)
    else if view.address !in s.intents then Err(UninitializedAccount)
    else if s.intents[view.address].activeProposalCount != 0 then Err(InvalidArgument)
    else Ok(())
  }

  function ExecuteAdd(env: Env, s: State, params: Bytes, remaining: seq<Interpreter.AccountView>)
    : (r: Result<(State, Effect)>)
  {
    if s.intentIndex == 255 then Err(InvalidArgument)
    else
      var index: byte := s.intentIndex + 1;
      if |remaining| < 2 then Err(NotEnoughAccountKeys)
      else if !remaining[0].isSigner then Err(MissingRequiredSignature)
      else if remaining[1].address != env.intentAddress(index) then Err(InvalidSeeds)
      else if env.intentAddress(index) in s.intents then Err(InvalidArgument)
      else
        var body := env.decodeIntent(params[..if |params| < env.intentBodySize then |params| else env.intentBodySize]);
        Ok((s.(intents := s.intents[env.intentAddress(index) := body], intentIndex := index), Added(index)))
  }

  function ExecuteRemove(env: Env, s: State, params: Bytes, remaining: seq<Interpreter.AccountView>)
    : (r: Result<(State, Effect)>)
  {
    if |params| != 1 then Err(InvalidInstructionData)
    else if remaining == [] then Err(NotEnoughAccountKeys)
    else
      var target := params[0];
      var checked :- TargetCheck(env, s, remaining[0], target);
      var at := env.intentAddress(target);
      Ok((s.(intents := s.intents[at := s.intents[at].(approved := 0)]), Removed(target)))
  }

  function ExecuteUpdate(env: Env, s: State, params: Bytes, remaining: seq<Interpreter.AccountView>)
    : (r: Result<(State, Effect)>)
  {
    if |params| <= 1 || |params| > env.paramsCap then Err(InvalidInstructionData)
    else if |params| - 1 != env.intentBodySize then Err(InvalidInstructionData)
    else if remaining == [] then Err(NotEnoughAccountKeys)
    else
      var target := params[0];
      var checked :- TargetCheck(env, s, remaining[0], target);
      Ok((s.(intents := s.intents[env.intentAddress(target) := env.decodeIntent(params[1..])]), Updated(target)))
  }

  /** The branch of `execute` for an intent type, before the proposal is closed. */
  function ExecuteBranch(env: Env, s: State, def: Definition, params: Bytes, declared: Interpreter.Declared,
                         remaining: seq<Interpreter.AccountView>): (r: Result<(State, Effect)>)
  {
    match def.intentType
    case AddIntent => ExecuteAdd(env, s, params, remaining)
    case RemoveIntent => ExecuteRemove(env, s, params, remaining)
    case UpdateIntent => ExecuteUpdate(env, s, params, remaining)
    case Custom =>
      var calls :- Interpreter.Executed(env, def, params, declared, remaining);
      Ok((s, Ran(calls)))
  }

  function ExecuteCheck(env: Env, s: State, key: Key, declared: Interpreter.Declared): (r: Result<()>)
  {
    if declared.vault.address != env.vaultAddress || declared.wallet.address != env.walletAddress
       || declared.system.address != env.systemAddress then Err(InvalidSeeds)
    else
      var intent :- LoadIntent(env, s, key.intent);
      var p :- LoadProposal(s, key);
      if p.status != Approved then Err(InvalidArgument)
      else
        var unlockAt: int := p.approvedAt + intent.def.timelockSeconds;
        if unlockAt >= 0x8000_0000_0000_0000 then Err(ArithmeticOverflow)
        else if s.clock < unlockAt then Err(InvalidArgument)
        else Ok(())
  }

  /** `execute` past its checks. */
  function Executing(env: Env, s: State, key: Key, declared: Interpreter.Declared,
                     remaining: seq<Interpreter.AccountView>): (r: Result<State>)
    requires key in s.proposals && key.intent in s.intents
  {
    var branch :- ExecuteBranch(env, s, s.intents[key.intent].def, s.proposals[key].params, declared, remaining);
    Ok(Close(branch.0, key, branch.1))
  }

  function ApplyExecute(env: Env, s: State, key: Key, declared: Interpreter.Declared,
                        remaining: seq<Interpreter.AccountView>): (r: Result<State>)
  {
    var checked :- ExecuteCheck(env, s, key, declared);
    Executing(env, s, key, declared, remaining)
  }

  /** Marks the proposal executed, releases its intent and records the effect. */
  function Close(s: State, key: Key, effect: Effect): (r: State)
    requires key in s.proposals && key.intent in s.intents
  {
    s.(proposals := s.proposals[key := s.proposals[key].(status := Executed)],
       intents := Release(s.intents, key.intent),
       effects := s.effects + [Done(key, effect)])
  }

  // ---- cleanup_proposal and time ----

  function ApplyCleanup(s: State, key: Key, refund: Address): (r: Result<State>)
  {
    var p :- LoadProposal(s, key);
    if refund != p.rentRefund || Open(p) then Err(InvalidArgument)
    else Ok(s.(proposals := s.proposals - {key}))
  }

  function ApplyTick(s: State, to: i64): (r: Result<State>)
  {
    if to < s.clock then Err(InvalidArgument) else Ok(s.(clock := to))
  }

  // ---- other wallets ----

  /**
   What running other wallets may do to the intent account at `a`. Only this wallet signs for its own seeds, so there
   only the count can change, and only while the account names another wallet. Elsewhere an account that names this
   wallet can be rewritten while it has no open proposal, and any other account at any time.
   */
  predicate MayChange(env: Env, s: State, a: Address, body: Intent)
  {
    if OwnSeed(env, a) then
      a in s.intents && !Names(env, s.intents[a])
      && body == s.intents[a].(activeProposalCount := body.activeProposalCount)
    else a in s.intents && Names(env, s.intents[a]) ==> s.intents[a].activeProposalCount == 0
  }

  function ApplyElsewhere(env: Env, s: State, a: Address, body: Intent): (r: Result<State>)
  {
    if MayChange(env, s, a, body) then Ok(s.(intents := s.intents[a := body])) else Err(InvalidArgument)
  }

  function ApplyClaim(s: State, keys: set<Key>): (r: Result<State>)
  {
    if keys !! s.proposals.Keys then Ok(s.(taken := keys)) else Err(InvalidArgument)
  }

  function Apply(env: Env, s: State, ins: Instruction): (r: Result<State>)
  {
    match ins
    case Tick(to) => ApplyTick(s, to)
    case Elsewhere(a, body) => ApplyElsewhere(env, s, a, body)
    case Claim(keys) => ApplyClaim(s, keys)
    case Propose(i, payer, expiry, proposer, signature, params) =>
      ApplyPropose(env, s, i, payer, expiry, proposer, signature, params)
    case Approve(key, expiry, slot, signature) => ApplyApprove(env, s, key, expiry, slot, signature)
    case Cancel(key, expiry, slot, signature) => ApplyCancel(env, s, key, expiry, slot, signature)
    case Execute(key, declared, remaining) => ApplyExecute(env, s, key, declared, remaining)
    case Cleanup(key, refund) => ApplyCleanup(s, key, refund)
  }

  /** A failed instruction changes nothing. */
  function Next(env: Env, s: State, ins: Instruction): (r: State)
  {
    match Apply(env, s, ins)
    case Ok(t) => t
    case Err(_) => s
  }
}
