/** The program's accounts as objects updated in place, and one method per instruction. */
module Ledgers {
  import opened Bytes
  import opened Ballots
  import opened Definition
  import opened Governance
  import CustomExecution
  import Interpreter
  import MessageBuilders
  import MessageText
  import Params

  // ---- Accounts ----

  /** state/wallet.rs. */
  class WalletAccount {
    var proposalIndex: u64
    var intentIndex: byte
    var name: Bytes

    constructor (name: Bytes)
      ensures proposalIndex == 0 && intentIndex == 2 && this.name == name
    {
      proposalIndex, intentIndex, this.name := 0, 2, name;
    }
  }

  /** state/intent.rs. */
  class IntentAccount {
    var def: Definition
    var approved: byte
    var activeProposalCount: u16

    /** An account as `init` leaves it; whoever asks for it fills in every field. */
    constructor Init()
    {}

    constructor (body: Intent)
      ensures View() == body
    {
      def, approved, activeProposalCount := body.def, body.approved, body.activeProposalCount;
    }

    function View(): (r: Intent)
      reads this
    {
      Intent(def, approved, activeProposalCount)
    }

    /** `*target = *new_intent`. */
    method Overwrite(body: Intent)
      modifies this
      ensures View() == body
    {
      def, approved, activeProposalCount := body.def, body.approved, body.activeProposalCount;
    }

    /** One open proposal fewer: `saturating_sub(1)`. */
    method Release()
      modifies this`activeProposalCount
      ensures View() == old(View()).(activeProposalCount := Pred(old(activeProposalCount)))
    {
      if activeProposalCount > 0 {
        activeProposalCount := activeProposalCount - 1;
      }
    }
  }

  /** state/proposal.rs. */
  class ProposalAccount {
    var proposalIndex: u64
    var proposer: Address
    var status: Status
    var proposedAt: i64
    var approvedAt: i64
    var approvalBitmap: bv16
    var cancellationBitmap: bv16
    var rentRefund: Address
    var params: Bytes

    constructor (proposalIndex: u64, proposer: Address, proposedAt: i64, rentRefund: Address, params: Bytes)
      ensures View() == Proposal(proposalIndex, proposer, Active, proposedAt, 0, Ballot(0, 0), rentRefund, params)
    {
      this.proposalIndex, this.proposer, status := proposalIndex, proposer, Active;
      this.proposedAt, approvedAt := proposedAt, 0;
      approvalBitmap, cancellationBitmap := 0, 0;
      this.rentRefund, this.params := rentRefund, params;
    }

    function View(): (r: Proposal)
      reads this
    {
      Proposal(proposalIndex, proposer, status, proposedAt, approvedAt, Ballot(approvalBitmap, cancellationBitmap),
               rentRefund, params)
    }

    predicate HasApprovedByIndex(idx: byte)
      reads this
    {
      Has(approvalBitmap, idx)
    }

    predicate HasCancelledByIndex(idx: byte)
      reads this
    {
      Has(cancellationBitmap, idx)
    }

    method SetApproval(idx: byte)
      modifies this`approvalBitmap, this`cancellationBitmap
      ensures View() == old(View()).(ballot := old(View()).ballot.Approve(idx))
    {
      var mask := Mask(idx);
      cancellationBitmap := ClearMask(cancellationBitmap, mask);
      approvalBitmap := SetMask(approvalBitmap, mask);
    }

    method SetCancellation(idx: byte)
      modifies this`approvalBitmap, this`cancellationBitmap
      ensures View() == old(View()).(ballot := old(View()).ballot.Cancel(idx))
    {
      var mask := Mask(idx);
      approvalBitmap := ClearMask(approvalBitmap, mask);
      cancellationBitmap := SetMask(cancellationBitmap, mask);
    }

    /** What `approve` does to the proposal once the signature has been checked. */
    method RecordApproval(idx: byte, def: Definition, now: i64)
      modifies this
      ensures View() == AfterApprove(def, old(View()), idx, now)
    {
      hide Count, Ballot.Approve;
      SetApproval(idx);
      if Count(approvalBitmap) >= def.approvalThreshold {
        status, approvedAt := Approved, now;
      }
    }

    /** What `cancel` does to the proposal; the result says whether it was closed. */
    method RecordCancellation(idx: byte, def: Definition) returns (closed: bool)
      modifies this
      ensures View() == AfterCancel(def, old(View()), idx)
      ensures Open(old(View())) ==> (closed <==> status == Cancelled)
    {
      hide Count, Ballot.Cancel;
      SetCancellation(idx);
      closed := Count(cancellationBitmap) >= def.cancellationThreshold;
      if closed {
        status := Cancelled;
      } else if status == Approved && Count(approvalBitmap) < def.approvalThreshold {
        status := Active;
      }
    }
  }

  // ---- All accounts together ----

  function IntentViews(m: map<Address, IntentAccount>): (r: map<Address, Intent>)
    reads m.Values
  {
    map i | i in m :: m[i].View()
  }

  function ProposalViews(m: map<Key, ProposalAccount>): (r: map<Key, Proposal>)
    reads m.Values
  {
    map k | k in m :: m[k].View()
  }

  /** Different addresses hold different accounts. */
  ghost predicate Distinct<K(!new), V>(m: map<K, V>)
  {
    forall k, l :: k in m && l in m && m[k] == m[l] ==> k == l
  }

  /** The accounts other than `i` still show what they did. */
  ghost predicate OtherIntents(m: map<Address, IntentAccount>, before: map<Address, Intent>, i: Address)
    reads m.Values
  {
    m.Keys == before.Keys && forall j :: j in m && j != i ==> m[j].View() == before[j]
  }

  lemma IntentWritten(m: map<Address, IntentAccount>, before: map<Address, Intent>, i: Address)
    requires i in m && OtherIntents(m, before, i)
    ensures IntentViews(m) == before[i := m[i].View()]
  {}

  ghost predicate OtherProposals(m: map<Key, ProposalAccount>, before: map<Key, Proposal>, key: Key)
    reads m.Values
  {
    m.Keys == before.Keys && forall k :: k in m && k != key ==> m[k].View() == before[k]
  }

  lemma ProposalWritten(m: map<Key, ProposalAccount>, before: map<Key, Proposal>, key: Key)
    requires key in m && OtherProposals(m, before, key)
    ensures ProposalViews(m) == before[key := m[key].View()]
  {}

  lemma ProposalAdded(m: map<Key, ProposalAccount>, before: map<Key, Proposal>, key: Key, p: ProposalAccount)
    requires ProposalViews(m) == before
    ensures ProposalViews(m[key := p]) == before[key := p.View()]
  {}

  lemma IntentAdded(m: map<Address, IntentAccount>, before: map<Address, Intent>, i: Address, a: IntentAccount)
    requires IntentViews(m) == before
    ensures IntentViews(m[i := a]) == before[i := a.View()]
  {}

  /** Checks a signature over the message of an intent. */
  method Authenticate(env: Env, ctx: MessageText.Context, def: Definition, params: Bytes, signer: Address,
                      signature: Bytes)
    returns (r: Result<()>)
    ensures r == Signed(env, ctx, def, params, signer, signature)
  {
    hide MessageText.Message;
    var message := MessageBuilders.SignedBytes(env, ctx, def, params);
    if message.Err? {
      return Err(message.error);
    }
    r := if env.verifies(signer, signature, message.value) then Ok(()) else Err(InvalidArgument);
  }

  /** An account at one more address, or in place of the one there. */
  lemma DistinctMore(m: map<Address, IntentAccount>, i: Address, a: IntentAccount)
    requires Distinct(m) && a !in m.Values
    ensures Distinct(m[i := a]) && m[i := a].Values <= m.Values + {a}
  {}

  lemma NoProposals(m: map<Key, ProposalAccount>)
    requires m == map[]
    ensures Distinct(m) && m.Values == {}
  {}

  lemma ThreeMore(m: map<Address, IntentAccount>, before: map<Address, Intent>, i: Address, a: IntentAccount,
                  j: Address,
                  b: IntentAccount, k: Address, c: IntentAccount)
    requires IntentViews(m) == before
    ensures IntentViews(m[i := a][j := b][k := c]) == before[i := a.View()][j := b.View()][k := c.View()]
  {}

  /** A result of the code reports what the specification says: success, or its very error. */
  predicate Reports<T, U>(r: Result<T>, expected: Result<U>)
  {
    (r.Ok? <==> expected.Ok?) && (r.Err? ==> r.error == expected.error)
  }

  // ---- What the transition function says, check by check ----

  lemma ProposeOutcome(env: Env, s: State, i: Address, payer: Address, expiry: i64, proposer: Address, signature: Bytes,
                       params: Bytes)
    ensures var (checked, ins) := (ProposeCheck(env, s, i, expiry, proposer, signature, params),
                                   Instruction.Propose(i, payer, expiry, proposer, signature, params));
            && Reports(Apply(env, s, ins), checked)
            && (checked.Err? ==> Next(env, s, ins) == s)
            && (checked.Ok? ==>
                  && i in s.intents && s.intents[i].activeProposalCount < 0xffff
                     && s.proposalIndex < 0xffff_ffff_ffff_ffff
                  && Next(env, s, ins) == Proposed(s, i, payer, proposer, params))
  {
    hide Signed, Params.Validated, ApplyTick, ApplyApprove, ApplyCancel, ApplyExecute, ApplyCleanup;
  }

  lemma ApproveOutcome(env: Env, s: State, key: Key, expiry: i64, slot: byte, signature: Bytes)
    ensures var (checked, ins) := (ApproveCheck(env, s, key, expiry, slot, signature),
                                   Instruction.Approve(key, expiry, slot, signature));
            && Reports(Apply(env, s, ins), checked)
            && (checked.Err? ==> Next(env, s, ins) == s)
            && (checked.Ok? ==>
                  && key.intent in s.intents && key in s.proposals
                  && Next(env, s, ins) == Approving(s, key, slot))
  {
    hide VoteCheck, AfterApprove, ApplyTick, ApplyPropose, ApplyCancel, ApplyExecute, ApplyCleanup;
  }

  lemma CancelOutcome(env: Env, s: State, key: Key, expiry: i64, slot: byte, signature: Bytes)
    ensures var (checked, ins) := (CancelCheck(env, s, key, expiry, slot, signature),
                                   Instruction.Cancel(key, expiry, slot, signature));
            && Reports(Apply(env, s, ins), checked)
            && (checked.Err? ==> Next(env, s, ins) == s)
            && (checked.Ok? ==>
                  && key.intent in s.intents && key in s.proposals
                  && Next(env, s, ins) == Cancelling(s, key, slot))
  {
    hide VoteCheck, AfterCancel, ApplyTick, ApplyPropose, ApplyApprove, ApplyExecute, ApplyCleanup;
  }

  lemma ExecuteOutcome(env: Env, s: State, key: Key, declared: Interpreter.Declared,
                       remaining: seq<Interpreter.AccountView>)
    ensures var (checked, ins) := (ExecuteCheck(env, s, key, declared), Instruction.Execute(key, declared, remaining));
            && (checked.Err? ==> Reports(Apply(env, s, ins), checked) && Next(env, s, ins) == s)
            && (checked.Ok? ==>
                  && key.intent in s.intents && key in s.proposals
                  && var after := Executing(env, s, key, declared, remaining);
                  && Reports(Apply(env, s, ins), after)
                  && Next(env, s, ins) == if after.Ok? then after.value else s)
  {
    hide Executing, ApplyTick, ApplyPropose, ApplyApprove, ApplyCancel, ApplyCleanup;
  }

  lemma ExecutingIs(env: Env, s: State, key: Key, declared: Interpreter.Declared,
                    remaining: seq<Interpreter.AccountView>)
    requires key in s.proposals && key.intent in s.intents
    ensures var branch := ExecuteBranch(env, s, s.intents[key.intent].def, s.proposals[key].params, declared,
                                        remaining);
            var after := Executing(env, s, key, declared, remaining);
            && Reports(after, branch)
            && (branch.Ok? ==>
                  && key in branch.value.0.proposals && key.intent in branch.value.0.intents
                  && after.value == Close(branch.value.0, key, branch.value.1))
  {
    BranchStays(env, s, key, declared, remaining);
    hide ExecuteBranch, Close;
  }

  lemma BranchStays(env: Env, s: State, key: Key, declared: Interpreter.Declared,
                    remaining: seq<Interpreter.AccountView>)
    ensures key in s.proposals && key.intent in s.intents ==>
              var branch := ExecuteBranch(env, s, s.intents[key.intent].def, s.proposals[key].params, declared,
                                          remaining);
              branch.Ok? ==> key in branch.value.0.proposals && key.intent in branch.value.0.intents
  {
    hide Interpreter.Executed;
  }

  /** A wallet's accounts on the ledger. */
  class Ledger {
    const env: Env
    const wallet: WalletAccount
    var intents: map<Address, IntentAccount>
    var proposals: map<Key, ProposalAccount>
    var taken: set<Key>
    var clock: i64
    var effects: seq<Done>

    ghost predicate Valid()
      reads this
    {
      Distinct(intents) && Distinct(proposals)
    }

    ghost function Repr(): (r: set<object>)
      reads this
    {
      {this, wallet} + intents.Values + proposals.Values
    }

    /** The state the accounts represent. */
    ghost function View(): (s: State)
      reads this, wallet, intents.Values, proposals.Values
    {
      State(wallet.proposalIndex, wallet.intentIndex, wallet.name, IntentViews(intents), ProposalViews(proposals),
            taken,
            clock, effects)
    }

    /** The instruction takes the accounts from `s` to the state the transition function says, or reports its error. */
    ghost predicate Follows(s: State, ins: Instruction, r: Result<()>)
      reads this, wallet, intents.Values, proposals.Values
    {
      Reports(r, Apply(env, s, ins)) && View() == Next(env, s, ins)
    }

    lemma ViewAt()
      ensures View().proposalIndex == wallet.proposalIndex && View().intentIndex == wallet.intentIndex
              && View().clock == clock
      ensures View().intents.Keys == intents.Keys && View().proposals.Keys == proposals.Keys
      ensures forall i :: i in intents ==> View().intents[i] == intents[i].View()
      ensures forall k :: k in proposals ==> View().proposals[k] == proposals[k].View()
    {}

    lemma ViewOf(key: Key)
      requires key in proposals && key.intent in intents
      ensures key in View().proposals && View().proposals[key].params == proposals[key].params
      ensures key.intent in View().intents && View().intents[key.intent].def == intents[key.intent].def
    {}

    /** The accounts of a new wallet beside those that exist. */
    constructor (env: Env, wallet: WalletAccount, existing: map<Address, IntentAccount>, addIntent: IntentAccount,
                 removeIntent: IntentAccount, updateIntent: IntentAccount, taken: set<Key>, clock: i64)
      requires Distinct(existing)
      requires addIntent !in existing.Values && removeIntent !in existing.Values && updateIntent !in existing.Values
      requires addIntent != removeIntent && addIntent != updateIntent && removeIntent != updateIntent
      ensures Valid() && this.env == env
      ensures Repr() <= {this, wallet, addIntent, removeIntent, updateIntent} + existing.Values
      ensures View() == State(wallet.proposalIndex, wallet.intentIndex, wallet.name,
                              IntentViews(existing)[env.intentAddress(0) := addIntent.View()]
                                                   [env.intentAddress(1) := removeIntent.View()]
                                                   [env.intentAddress(2) := updateIntent.View()],
                              map[], taken, clock, [])
    {
      var (a, b, c) := (env.intentAddress(0), env.intentAddress(1), env.intentAddress(2));
      this.env, this.wallet := env, wallet;
      intents := existing[a := addIntent][b := removeIntent][c := updateIntent];
      proposals, this.taken, this.clock, effects := map[], taken, clock, [];
      new;
      hide Distinct, IntentViews;
      DistinctMore(existing, a, addIntent);
      DistinctMore(existing[a := addIntent], b, removeIntent);
      DistinctMore(existing[a := addIntent][b := removeIntent], c, updateIntent);
      ThreeMore(existing, IntentViews(existing), a, addIntent, b, removeIntent, c, updateIntent);
      NoProposals(proposals);
    }

    method Tick(to: i64) returns (r: Result<()>)
      requires Valid()
      modifies this`clock
      ensures Valid() && Follows(old(View()), Instruction.Tick(to), r)
    {
      hide ApplyPropose, ApplyApprove, ApplyCancel, ApplyExecute, ApplyCleanup;
      if to < clock {
        return Err(InvalidArgument);
      }
      clock := to;
      r := Ok(());
    }

    /** Loads an intent account of this wallet. */
    method Load(i: Address) returns (r: Result<IntentAccount>)
      ensures Reports(r, LoadIntent(env, View(), i))
      ensures r.Ok? ==> i in intents && r.value == intents[i] && LoadIntent(env, View(), i) == Ok(intents[i].View())
    {
      if i !in intents {
        return Err(UninitializedAccount);
      }
      if !Names(env, intents[i].View()) {
        return Err(InvalidArgument);
      }
      r := Ok(intents[i]);
    }

    /** What has to hold before `propose` writes anything. */
    method CheckPropose(i: Address, expiry: i64, proposer: Address, signature: Bytes, params: Bytes)
      returns (r: Result<IntentAccount>)
      ensures Reports(r, ProposeCheck(env, View(), i, expiry, proposer, signature, params))
      ensures r.Ok? ==> i in intents && r.value == intents[i] && Key(i, wallet.proposalIndex) !in proposals
      ensures r.Ok? ==> r.value.activeProposalCount < 0xffff && wallet.proposalIndex < 0xffff_ffff_ffff_ffff
    {
      hide Signed, Params.Validated;
      var loaded := Load(i);
      if loaded.Err? {
        return Err(loaded.error);
      }
      var intent := loaded.value;
      if intent.approved == 0 {
        return Err(InvalidArgument);
      }
      var index := wallet.proposalIndex;
      if Key(i, index) in proposals || Key(i, index) in taken {
        return Err(InvalidArgument);
      }
      if expiry <= clock {
        return Err(InvalidArgument);
      }
      if proposer !in intent.def.proposers {
        return Err(MissingRequiredSignature);
      }
      if intent.def.intentType == Custom {
        var admitted := Params.ValidateParamConstraints(intent.def.params, params, env.utf8);
        if admitted.Err? {
          return Err(admitted.error);
        }
      }
      var signed := Authenticate(env, MessageText.Context(expiry, MessageText.Propose, wallet.name, index), intent.def,
                                 params, proposer, signature);
      if signed.Err? {
        return Err(signed.error);
      }
      if |params| > env.paramsCap {
        return Err(Panic);
      }
      if intent.activeProposalCount == 0xffff {
        return Err(InvalidArgument);
      }
      if index == 0xffff_ffff_ffff_ffff {
        return Err(ArithmeticOverflow);
      }
      r := Ok(intent);
    }

    /** A new proposal account. */
    method AddProposal(key: Key, proposer: Address, payer: Address, params: Bytes)
      requires Valid() && key !in proposals
      modifies this`proposals
      ensures Valid() && fresh(Repr() - old(Repr()))
      ensures View() == old(View()).(proposals := old(View()).proposals[key :=
                          Proposal(wallet.proposalIndex, proposer, Active, clock, 0, Ballot(0, 0), payer, params)])
    {
      hide IntentViews, ProposalViews;
      ghost var before := ProposalViews(proposals);
      var proposal := new ProposalAccount(wallet.proposalIndex, proposer, clock, payer, params);
      ProposalAdded(proposals, before, key, proposal);
      proposals := proposals[key := proposal];
    }

    /** The counters of `propose`. */
    method CountProposal(i: Address)
      requires Valid() && i in intents
      requires intents[i].activeProposalCount < 0xffff && wallet.proposalIndex < 0xffff_ffff_ffff_ffff
      modifies wallet`proposalIndex, intents.Values
      ensures var s := old(View());
              && i in s.intents
              && var more := s.intents[i].(activeProposalCount := s.intents[i].activeProposalCount + 1);
              View() == s.(intents := s.intents[i := more], proposalIndex := s.proposalIndex + 1)
    {
      ViewAt();
      hide IntentViews, ProposalViews;
      ghost var s := View();
      var intent := intents[i];
      intent.activeProposalCount := intent.activeProposalCount + 1;
      wallet.proposalIndex := wallet.proposalIndex + 1;
      IntentWritten(intents, s.intents, i);
    }

    method WriteProposal(i: Address, payer: Address, proposer: Address, params: Bytes)
      requires Valid() && i in intents && Key(i, wallet.proposalIndex) !in proposals
      requires intents[i].activeProposalCount < 0xffff && wallet.proposalIndex < 0xffff_ffff_ffff_ffff
      modifies this`proposals, wallet`proposalIndex, intents.Values
      ensures Valid() && fresh(Repr() - old(Repr()))
      ensures var s := old(View());
              && i in s.intents && s.intents[i].activeProposalCount < 0xffff && s.proposalIndex < 0xffff_ffff_ffff_ffff
              && View() == Proposed(s, i, payer, proposer, params)
    {
      hide IntentViews, ProposalViews;
      ViewAt();
      AddProposal(Key(i, wallet.proposalIndex), proposer, payer, params);
      CountProposal(i);
    }

    method Propose(i: Address, payer: Address, expiry: i64, proposer: Address, signature: Bytes, params: Bytes)
      returns (r: Result<()>)
      requires Valid()
      modifies this`proposals, wallet`proposalIndex, intents.Values
      ensures Valid() && fresh(Repr() - old(Repr()))
      ensures Follows(old(View()), Instruction.Propose(i, payer, expiry, proposer, signature, params), r)
    {
      hide Apply, Next, ProposeCheck, View, Valid, LoadIntent, Proposed;
      ProposeOutcome(env, View(), i, payer, expiry, proposer, signature, params);
      var checked := CheckPropose(i, expiry, proposer, signature, params);
      if checked.Err? {
        return Err(checked.error);
      }
      WriteProposal(i, payer, proposer, params);
      r := Ok(());
    }

    /** The part `approve` and `cancel` share. */
    method CheckVote(action: MessageText.Action, intent: IntentAccount, proposal: ProposalAccount, voted: bool,
                     ghost bitmap: bv16, expiry: i64, slot: byte, signature: Bytes)
      returns (r: Result<()>)
      requires voted == Has(bitmap, slot)
      ensures Reports(r, VoteCheck(env, View(), action, intent.View(), proposal.View(), bitmap, expiry, slot,
                                   signature))
    {
      hide Signed, Has;
      if expiry <= clock {
        return Err(InvalidArgument);
      }
      if slot >= |intent.def.approvers| {
        return Err(InvalidArgument);
      }
      if voted {
        return Err(InvalidArgument);
      }
      r := Authenticate(env, MessageText.Context(expiry, action, wallet.name, proposal.proposalIndex), intent.def,
                        proposal.params, intent.def.approvers[slot], signature);
    }

    method CheckApprove(key: Key, expiry: i64, slot: byte, signature: Bytes) returns (r: Result<()>)
      ensures Reports(r, ApproveCheck(env, View(), key, expiry, slot, signature))
      ensures r.Ok? ==> key.intent in intents && key in proposals
    {
      hide VoteCheck, Has;
      var intent := Load(key.intent);
      if intent.Err? {
        return Err(intent.error);
      }
      if intent.value.approved == 0 {
        return Err(InvalidArgument);
      }
      if key !in proposals {
        return Err(UninitializedAccount);
      }
      var proposal := proposals[key];
      if proposal.status != Active {
        return Err(InvalidArgument);
      }
      r := CheckVote(MessageText.Approve, intent.value, proposal, proposal.HasApprovedByIndex(slot),
                     proposal.approvalBitmap, expiry, slot, signature);
    }

    method WriteApproval(key: Key, slot: byte)
      requires Valid() && key in proposals && key.intent in intents
      modifies proposals.Values
      ensures Valid()
      ensures var s := old(View());
              key in s.proposals && key.intent in s.intents && View() == Approving(s, key, slot)
    {
      hide AfterApprove, ProposalViews;
      ghost var s := View();
      ViewAt();
      proposals[key].RecordApproval(slot, intents[key.intent].def, clock);
      ProposalWritten(proposals, s.proposals, key);
    }

    method Approve(key: Key, expiry: i64, slot: byte, signature: Bytes) returns (r: Result<()>)
      requires Valid()
      modifies proposals.Values
      ensures Valid() && Follows(old(View()), Instruction.Approve(key, expiry, slot, signature), r)
    {
      hide Apply, Next, ApproveCheck, View, Valid, Approving;
      ApproveOutcome(env, View(), key, expiry, slot, signature);
      r := CheckApprove(key, expiry, slot, signature);
      if r.Ok? {
        WriteApproval(key, slot);
      }
    }

    method CheckCancel(key: Key, expiry: i64, slot: byte, signature: Bytes) returns (r: Result<()>)
      ensures Reports(r, CancelCheck(env, View(), key, expiry, slot, signature))
      ensures r.Ok? ==> key.intent in intents && key in proposals && Open(proposals[key].View())
    {
      hide VoteCheck, Has;
      var intent := Load(key.intent);
      if intent.Err? {
        return Err(intent.error);
      }
      if key !in proposals {
        return Err(UninitializedAccount);
      }
      var proposal := proposals[key];
      if proposal.status != Active && proposal.status != Approved {
        return Err(InvalidArgument);
      }
      r := CheckVote(MessageText.Cancel, intent.value, proposal, proposal.HasCancelledByIndex(slot),
                     proposal.cancellationBitmap, expiry, slot, signature);
    }

    method WriteCancellation(key: Key, slot: byte)
      requires Valid() && key in proposals && key.intent in intents && Open(proposals[key].View())
      modifies proposals.Values, intents.Values
      ensures Valid()
      ensures var s := old(View());
              key in s.proposals && key.intent in s.intents && View() == Cancelling(s, key, slot)
    {
      hide AfterCancel, ProposalViews, IntentViews;
      ghost var s := View();
      ViewAt();
      var closed := proposals[key].RecordCancellation(slot, intents[key.intent].def);
      if closed {
        intents[key.intent].Release();
        IntentWritten(intents, s.intents, key.intent);
      }
      ProposalWritten(proposals, s.proposals, key);
    }

    method Cancel(key: Key, expiry: i64, slot: byte, signature: Bytes) returns (r: Result<()>)
      requires Valid()
      modifies proposals.Values, intents.Values
      ensures Valid() && Follows(old(View()), Instruction.Cancel(key, expiry, slot, signature), r)
    {
      hide Apply, Next, CancelCheck, View, Valid, Cancelling;
      CancelOutcome(env, View(), key, expiry, slot, signature);
      r := CheckCancel(key, expiry, slot, signature);
      if r.Ok? {
        WriteCancellation(key, slot);
      }
    }

    method CleanupProposal(key: Key, refund: Address) returns (r: Result<()>)
      requires Valid()
      modifies this`proposals
      ensures Valid() && Follows(old(View()), Instruction.Cleanup(key, refund), r)
    {
      hide ApplyTick, ApplyPropose, ApplyApprove, ApplyCancel, ApplyExecute, IntentViews;
      if key !in proposals {
        return Err(UninitializedAccount);
      }
      var proposal := proposals[key];
      if refund != proposal.rentRefund || !(proposal.status == Executed || proposal.status == Cancelled) {
        return Err(InvalidArgument);
      }
      proposals := proposals - {key};
      r := Ok(());
    }

    // ---- execute ----

    /** A branch of `execute` did what its specification says. */
    ghost predicate Branched(s: State, expected: Result<(State, Effect)>, r: Result<Effect>)
      reads this, wallet, intents.Values, proposals.Values
    {
      Reports(r, expected) && if r.Ok? then expected == Ok((View(), r.value)) else View() == s
    }

    method CheckExecute(key: Key, declared: Interpreter.Declared) returns (r: Result<()>)
      ensures Reports(r, ExecuteCheck(env, View(), key, declared))
      ensures r.Ok? ==> key.intent in intents && key in proposals
    {
      if declared.vault.address != env.vaultAddress || declared.wallet.address != env.walletAddress
         || declared.system.address != env.systemAddress {
        return Err(InvalidSeeds);
      }
      var intent := Load(key.intent);
      if intent.Err? {
        return Err(intent.error);
      }
      if key !in proposals {
        return Err(UninitializedAccount);
      }
      var proposal := proposals[key];
      if proposal.status != Approved {
        return Err(InvalidArgument);
      }
      var unlockAt: int := proposal.approvedAt + intent.value.def.timelockSeconds;
      if unlockAt >= 0x8000_0000_0000_0000 {
        return Err(ArithmeticOverflow);
      }
      if clock < unlockAt {
        return Err(InvalidArgument);
      }
      r := Ok(());
    }

    /** `validate_target_intent_for_modification`. */
    method LoadTarget(view: Interpreter.AccountView, target: byte) returns (r: Result<IntentAccount>)
      ensures Reports(r, TargetCheck(env, View(), view, target))
      ensures r.Ok? ==> view.address == env.intentAddress(target) && view.address in intents
                        && r.value == intents[view.address]
    {
      if view.address != env.intentAddress(target) {
        return Err(InvalidSeeds);
      }
      if !view.isWritable {
        return Err(Immutable);
      }
      if view.address !in intents {
        return Err(UninitializedAccount);
      }
      if intents[view.address].activeProposalCount != 0 {
        return Err(InvalidArgument);
      }
      r := Ok(intents[view.address]);
    }

    method WriteNewIntent(at: Address, index: byte, body: Intent)
      requires Valid() && at !in intents
      modifies this`intents, wallet`intentIndex
      ensures Valid() && fresh(Repr() - old(Repr()))
      ensures forall i :: i in old(intents) ==> i in intents && intents[i] == old(intents[i])
      ensures View() == old(View()).(intents := old(View()).intents[at := body], intentIndex := index)
    {
      hide ProposalViews, IntentViews;
      ghost var before := IntentViews(intents);
      var account := new IntentAccount(body);
      IntentAdded(intents, before, at, account);
      intents := intents[at := account];
      wallet.intentIndex := index;
    }

    method ExecuteAddIntent(params: Bytes, remaining: seq<Interpreter.AccountView>) returns (r: Result<Effect>)
      requires Valid()
      modifies this`intents, wallet`intentIndex
      ensures Valid() && fresh(Repr() - old(Repr()))
      ensures forall i :: i in old(intents) ==> i in intents && intents[i] == old(intents[i])
      ensures Branched(old(View()), ExecuteAdd(env, old(View()), params, remaining), r)
    {
      ViewAt();
      hide ProposalViews, IntentViews, Valid;
      if wallet.intentIndex == 255 {
        return Err(InvalidArgument);
      }
      var newIndex: byte := wallet.intentIndex + 1;
      if |remaining| < 2 {
        return Err(NotEnoughAccountKeys);
      }
      if !remaining[0].isSigner {
        return Err(MissingRequiredSignature);
      }
      if remaining[1].address != env.intentAddress(newIndex) {
        return Err(InvalidSeeds);
      }
      if remaining[1].address in intents {
        return Err(InvalidArgument);
      }
      var bodyLen := if |params| < env.intentBodySize then |params| else env.intentBodySize;
      var body := env.decodeIntent(params[..bodyLen]);
      WriteNewIntent(remaining[1].address, newIndex, body);
      r := Ok(Added(newIndex));
    }

    method ExecuteRemoveIntent(params: Bytes, remaining: seq<Interpreter.AccountView>) returns (r: Result<Effect>)
      requires Valid()
      modifies intents.Values
      ensures Valid() && Branched(old(View()), ExecuteRemove(env, old(View()), params, remaining), r)
    {
      hide TargetCheck, IntentViews, ProposalViews;
      ghost var s := View();
      ViewAt();
      if |params| != 1 {
        return Err(InvalidInstructionData);
      }
      var targetIndex := params[0];
      if remaining == [] {
        return Err(NotEnoughAccountKeys);
      }
      var target := LoadTarget(remaining[0], targetIndex);
      if target.Err? {
        return Err(target.error);
      }
      target.value.approved := 0;
      IntentWritten(intents, s.intents, remaining[0].address);
      r := Ok(Removed(targetIndex));
    }

    method ExecuteUpdateIntent(params: Bytes, remaining: seq<Interpreter.AccountView>) returns (r: Result<Effect>)
      requires Valid()
      modifies intents.Values
      ensures Valid() && Branched(old(View()), ExecuteUpdate(env, old(View()), params, remaining), r)
    {
      hide TargetCheck, IntentViews, ProposalViews;
      ghost var s := View();
      ViewAt();
      if |params| <= 1 || |params| > env.paramsCap {
        return Err(InvalidInstructionData);
      }
      var (targetIndex, newBody) := (params[0], params[1..]);
      if |newBody| != env.intentBodySize {
        return Err(InvalidInstructionData);
      }
      if remaining == [] {
        return Err(NotEnoughAccountKeys);
      }
      var target := LoadTarget(remaining[0], targetIndex);
      if target.Err? {
        return Err(target.error);
      }
      target.value.Overwrite(env.decodeIntent(newBody));
      IntentWritten(intents, s.intents, remaining[0].address);
      r := Ok(Updated(targetIndex));
    }

    method ExecuteCustom(def: Definition, params: Bytes, declared: Interpreter.Declared,
                         remaining: seq<Interpreter.AccountView>) returns (r: Result<Effect>)
      requires def.intentType == Custom
      ensures Branched(View(), ExecuteBranch(env, View(), def, params, declared, remaining), r)
    {
      hide Interpreter.Executed, View;
      var calls := CustomExecution.ExecuteCustom(env, def, params, declared, remaining);
      r := if calls.Ok? then Ok(Ran(calls.value)) else Err(calls.error);
    }

    /** The branch for the intent's type. */
    method RunBranch(def: Definition, params: Bytes, declared: Interpreter.Declared,
                     remaining: seq<Interpreter.AccountView>)
      returns (r: Result<Effect>)
      requires Valid()
      modifies this`intents, wallet`intentIndex, intents.Values
      ensures Valid() && fresh(Repr() - old(Repr()))
      ensures forall i :: i in old(intents) ==> i in intents && intents[i] == old(intents[i])
      ensures Branched(old(View()), ExecuteBranch(env, old(View()), def, params, declared, remaining), r)
    {
      hide ExecuteAdd, ExecuteRemove, ExecuteUpdate, Branched, View, Valid, Interpreter.Executed;
      match def.intentType {
        case AddIntent => r := ExecuteAddIntent(params, remaining);
        case RemoveIntent => r := ExecuteRemoveIntent(params, remaining);
        case UpdateIntent => r := ExecuteUpdateIntent(params, remaining);
        case Custom => r := ExecuteCustom(def, params, declared, remaining);
      }
    }

    /** What `execute` writes after the branch. */
    method WriteExecuted(key: Key, effect: Effect)
      requires Valid() && key in proposals && key.intent in intents
      modifies this`effects, proposals.Values, intents.Values
      ensures Valid()
      ensures var s := old(View());
              key in s.proposals && key.intent in s.intents && View() == Close(s, key, effect)
    {
      hide ProposalViews, IntentViews;
      ghost var s := View();
      ViewAt();
      proposals[key].status := Executed;
      intents[key.intent].Release();
      effects := effects + [Done(key, effect)];
      ProposalWritten(proposals, s.proposals, key);
      IntentWritten(intents, s.intents, key.intent);
    }

    /** Runs the branch and, if it succeeds, closes the proposal. */
    method RunAndClose(key: Key, declared: Interpreter.Declared, remaining: seq<Interpreter.AccountView>)
      returns (r: Result<()>)
      requires Valid() && key in proposals && key.intent in intents
      modifies this`intents, this`effects, wallet`intentIndex, intents.Values, proposals.Values
      ensures Valid() && fresh(Repr() - old(Repr()))
      ensures key in old(View()).proposals && key.intent in old(View()).intents
      ensures var after := Executing(env, old(View()), key, declared, remaining);
              Reports(r, after) && View() == if r.Ok? then after.value else old(View())
    {
      hide ExecuteBranch, Executing, View, Valid, Close;
      ghost var s := View();
      ViewOf(key);
      ExecutingIs(env, s, key, declared, remaining);
      var branch := RunBranch(intents[key.intent].def, proposals[key].params, declared, remaining);
      if branch.Err? {
        return Err(branch.error);
      }
      WriteExecuted(key, branch.value);
      r := Ok(());
    }

    method Execute(key: Key, declared: Interpreter.Declared, remaining: seq<Interpreter.AccountView>)
      returns (r: Result<()>)
      requires Valid()
      modifies this`intents, this`effects, wallet`intentIndex, intents.Values, proposals.Values
      ensures Valid() && fresh(Repr() - old(Repr()))
      ensures Follows(old(View()), Instruction.Execute(key, declared, remaining), r)
    {
      hide Apply, Next, ExecuteCheck, Executing, View, Valid;
      ExecuteOutcome(env, View(), key, declared, remaining);
      r := CheckExecute(key, declared);
      if r.Ok? {
        r := RunAndClose(key, declared, remaining);
      }
    }
  }

  // ---- create_wallet ----

  /** The loop of `create` over the three meta-intents. */
  method FillMetaIntents(env: Env, accounts: seq<IntentAccount>, types: seq<IntentType>, args: CreateArgs)
    returns (r: Result<()>)
    requires |accounts| == |types| > 0
    requires forall i, j :: 0 <= i < j < |accounts| ==> accounts[i] != accounts[j]
    modifies accounts
    ensures r == if |args.proposers| <= 16 && |args.approvers| <= 16 then Ok(()) else Err(Panic)
    ensures r.Ok? ==> forall i :: 0 <= i < |accounts| ==> accounts[i].View() == MetaIntent(env, args, types[i])
  {
    for k := 0 to |accounts|
      invariant k > 0 ==> |args.proposers| <= 16 && |args.approvers| <= 16
      invariant forall i :: 0 <= i < k ==> accounts[i].View() == MetaIntent(env, args, types[i])
    {
      if |args.proposers| > 16 || |args.approvers| > 16 {
        return Err(Panic);
      }
      var intent := accounts[k];
      intent.def := intent.def.(wallet := env.walletAddress, intentType := types[k]);
      intent.def := intent.def.(approvalThreshold := args.approvalThreshold,
                                cancellationThreshold := args.cancellationThreshold,
                                timelockSeconds := args.timelockSeconds, templateOffset := 0, templateLen := 0);
      intent.def := intent.def.(proposers := args.proposers, approvers := args.approvers);
      intent.def := intent.def.(params := [], accounts := [], instructions := [], segments := [], seeds := [],
                                pool := []);
      intent.approved := 1;
      intent.activeProposalCount := 0;
    }
    r := Ok(());
  }

  method InitAccounts(env: Env, existing: map<Address, IntentAccount>, taken: set<Key>, clock: i64, args: CreateArgs)
    returns (r: Result<Ledger>)
    requires Distinct(existing)
    ensures r.Ok? <==> |args.proposers| <= 16 && |args.approvers| <= 16
    ensures r.Err? ==> r.error == Panic
    ensures r.Ok? ==>
              && r.value.Valid() && fresh(r.value) && fresh(r.value.Repr() - existing.Values) && r.value.env == env
              && r.value.View() == Initial(env, IntentViews(existing), taken, clock, args)
  {
    hide MetaIntent, IntentViews, Distinct, Ledger.View, Ledger.Repr, Ledger.Valid;
    var wallet := new WalletAccount(args.name);
    var addIntent := new IntentAccount.Init();
    var removeIntent := new IntentAccount.Init();
    var updateIntent := new IntentAccount.Init();
    var accounts := [addIntent, removeIntent, updateIntent];
    var filled := FillMetaIntents(env, accounts, [AddIntent, RemoveIntent, UpdateIntent], args);
    if filled.Err? {
      return Err(filled.error);
    }
    assert accounts[0] == addIntent && accounts[1] == removeIntent && accounts[2] == updateIntent;
    var ledger := new Ledger(env, wallet, existing, addIntent, removeIntent, updateIntent, taken, clock);
    r := Ok(ledger);
  }

  method CreateWallet(env: Env, wallets: set<Address>, existing: map<Address, IntentAccount>, taken: set<Key>,
                      clock: i64, nameHash: Address, args: CreateArgs)
    returns (r: Result<Ledger>)
    requires Distinct(existing)
    ensures Reports(r, Created(env, wallets, IntentViews(existing), taken, clock, nameHash, args))
    ensures r.Ok? ==>
              && r.value.Valid() && fresh(r.value) && fresh(r.value.Repr() - existing.Values) && r.value.env == env
              && Created(env, wallets, old(IntentViews(existing)), taken, clock, nameHash, args) == Ok(r.value.View())
  {
    hide Initial;
    if env.walletAddress in wallets {
      return Err(InvalidArgument);
    }
    if env.intentAddress(0) in existing || env.intentAddress(1) in existing || env.intentAddress(2) in existing {
      return Err(InvalidArgument);
    }
    if nameHash != env.sha256(args.name) {
      return Err(InvalidSeeds);
    }
    var (proposerCount, approverCount) := (|args.proposers| % 0x100, |args.approvers| % 0x100);
    if proposerCount > 16 || approverCount > 16 {
      return Err(InvalidArgument);
    }
    if args.approvalThreshold == 0 || args.approvalThreshold > approverCount {
      return Err(InvalidArgument);
    }
    if args.cancellationThreshold == 0 || args.cancellationThreshold > approverCount {
      return Err(InvalidArgument);
    }
    if |args.name| > 64 {
      return Err(InvalidArgument);
    }
    r := InitAccounts(env, existing, taken, clock, args);
  }
}
