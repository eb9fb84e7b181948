/** Which error a refused instruction reports: the code of the first condition that fails, in the program's order. */
module Refusals {
  import opened Ballots
  import opened Bytes
  import opened Definition
  import opened Emission
  import opened Governance
  import opened Interpreter
  import opened Params
  import MessageText

  /** The code of a condition that does not hold. */
  function Unless(holds: bool, code: ProgramError): (r: Option<ProgramError>)
  {
    if holds then None else Some(code)
  }

  /** The first of two refusals. */
  function Or(first: Option<ProgramError>, second: Option<ProgramError>): (r: Option<ProgramError>)
  {
    if first.Some? then first else second
  }

  function Refusal<T>(r: Result<T>): (e: Option<ProgramError>)
  {
    match r
    case Ok(_) => None
    case Err(e) => Some(e)
  }

  // ---- Parameters ----

  /**
   Data is refused for its first parameter that is not readable or not admissible: with one code if that is a readable
   u64 out of its bound, with another in every other case.
   */
  lemma ValidatedRefusal(params: seq<ParamEntry>, data: Bytes, utf8: Bytes -> bool) returns (i: nat)
    requires Validated(params, data, utf8).Err?
    ensures i < |params|
    ensures forall j :: 0 <= j < i ==>
              ParamBytes(params, data, j).Ok? && Admissible(params[j], ParamBytes(params, data, j).value, utf8)
    ensures !(ParamBytes(params, data, i).Ok? && Admissible(params[i], ParamBytes(params, data, i).value, utf8))
    ensures Validated(params, data, utf8)
            == Err(if params[i].paramType == U64Param && ParamBytes(params, data, i).Ok? then InvalidArgument
                   else InvalidInstructionData)
  {
    hide ParamBytes, Admissible;
    i := CheckRefusal(params, data, 0, 0, utf8);
  }

  lemma {:induction false} CheckRefusal(params: seq<ParamEntry>, data: Bytes, from: nat, offset: nat,
                                        utf8: Bytes -> bool) returns (i: nat)
    requires from <= |params| && ParamStart(params, data, from) == Ok(offset)
    requires CheckFrom(params, data, from, offset, utf8).Err?
    ensures from <= i < |params|
    ensures forall j :: from <= j < i ==>
              ParamBytes(params, data, j).Ok? && Admissible(params[j], ParamBytes(params, data, j).value, utf8)
    ensures !(ParamBytes(params, data, i).Ok? && Admissible(params[i], ParamBytes(params, data, i).value, utf8))
    ensures CheckFrom(params, data, from, offset, utf8)
            == Err(if params[i].paramType == U64Param && ParamBytes(params, data, i).Ok? then InvalidArgument
                   else InvalidInstructionData)
    decreases |params| - from
  {
    hide Admissible, ParamStart, ParamBytes, CheckParam;
    CheckStep(params, data, from, offset, utf8);
    var c := CheckParam(params[from], data, offset, utf8);
    if c.Ok? {
      i := CheckRefusal(params, data, from + 1, c.value, utf8);
    } else {
      CheckCode(params, data, from, offset, utf8);
      i := from;
    }
  }

  lemma CheckCode(params: seq<ParamEntry>, data: Bytes, i: nat, offset: nat, utf8: Bytes -> bool)
    requires i < |params| && ParamStart(params, data, i) == Ok(offset)
    requires CheckParam(params[i], data, offset, utf8).Err?
    ensures CheckParam(params[i], data, offset, utf8)
            == Err(if params[i].paramType == U64Param && ParamBytes(params, data, i).Ok? then InvalidArgument
                   else InvalidInstructionData)
  {}

  // ---- create, propose, approve, cancel, cleanup ----

  /** Why a creation is refused. */
  lemma CreateRefusal(env: Env, wallets: set<Address>, existing: map<Address, Intent>, taken: set<Key>, clock: i64,
                      nameHash: Address, args: CreateArgs)
    ensures var (proposers, approvers) := (|args.proposers| % 256, |args.approvers| % 256);
            Refusal(Created(env, wallets, existing, taken, clock, nameHash, args))
            == Or(Unless(env.walletAddress !in wallets, InvalidArgument),
               Or(Unless(forall i: byte :: i <= 2 ==> env.intentAddress(i) !in existing, InvalidArgument),
               Or(Unless(nameHash == env.sha256(args.name), InvalidSeeds),
               Or(Unless(proposers <= 16 && approvers <= 16, InvalidArgument),
               Or(Unless(0 < args.approvalThreshold <= approvers, InvalidArgument),
               Or(Unless(0 < args.cancellationThreshold <= approvers, InvalidArgument),
               Or(Unless(|args.name| <= 64, InvalidArgument),
                  Unless(|args.proposers| <= 16 && |args.approvers| <= 16, Panic))))))))
  {
    hide Initial;
    assert (forall i: byte :: i <= 2 ==> env.intentAddress(i) !in existing) <==>
           env.intentAddress(0) !in existing && env.intentAddress(1) !in existing && env.intentAddress(2) !in existing;
  }

  /** The message cannot be built, or the signature does not verify on it. */
  function Unsigned(env: Env, ctx: MessageText.Context, def: Definition, params: Bytes, signer: Address,
                    signature: Bytes): (r: Option<ProgramError>)
  {
    var m := MessageText.Message(env, ctx, def, params);
    Or(Unless(m.Ok?, MessageText.BuildError(ctx, def, params, env.utf8, 2048 - 20)),
       Unless(m.Ok? ==> env.verifies(signer, signature, m.value), InvalidArgument))
  }

  lemma SignedRefusal(env: Env, ctx: MessageText.Context, def: Definition, params: Bytes, signer: Address,
                      signature: Bytes)
    ensures Refusal(Signed(env, ctx, def, params, signer, signature))
            == Unsigned(env, ctx, def, params, signer, signature)
  {
    hide MessageText.Message, MessageText.BuildError;
  }

  /** Why a proposal is refused. */
  lemma ProposeRefusal(env: Env, s: State, ins: Instruction)
    requires ins.Propose?
    ensures ins.intent !in s.intents ==> Refusal(Apply(env, s, ins)) == Some(UninitializedAccount)
    ensures ins.intent in s.intents ==>
              var (intent, key) := (s.intents[ins.intent], Key(ins.intent, s.proposalIndex));
              Refusal(Apply(env, s, ins))
              == Or(Unless(intent.def.wallet == env.walletAddress, InvalidArgument),
                 Or(Unless(intent.approved != 0, InvalidArgument),
                 Or(Unless(key !in s.proposals && key !in s.taken, InvalidArgument),
                 Or(Unless(s.clock < ins.expiry, InvalidArgument),
                 Or(Unless(ins.proposer in intent.def.proposers, MissingRequiredSignature),
                 Or(if intent.def.intentType == Custom then Refusal(Validated(intent.def.params, ins.params, env.utf8))
                    else None,
                 Or(Unsigned(env, MessageText.Context(ins.expiry, MessageText.Propose, s.name, s.proposalIndex),
                             intent.def, ins.params, ins.proposer, ins.signature),
                 Or(Unless(|ins.params| <= env.paramsCap, Panic),
                 Or(Unless(intent.activeProposalCount < 0xffff, InvalidArgument),
                    Unless(s.proposalIndex < 0xffff_ffff_ffff_ffff, ArithmeticOverflow))))))))))
  {
    hide Validated, Signed, Unsigned;
    if ins.intent in s.intents {
      SignedRefusal(env, MessageText.Context(ins.expiry, MessageText.Propose, s.name, s.proposalIndex),
                    s.intents[ins.intent].def, ins.params, ins.proposer, ins.signature);
    }
  }

  /** Why a vote is refused once its accounts are in order. */
  function VoteRefused(env: Env, s: State, key: Key, action: MessageText.Action, voted: bool, expiry: i64, slot: byte,
                       signature: Bytes): (r: Option<ProgramError>)
    requires key in s.proposals && key.intent in s.intents
  {
    var (def, p) := (s.intents[key.intent].def, s.proposals[key]);
    Or(Unless(s.clock < expiry, InvalidArgument),
    Or(Unless(slot < |def.approvers|, InvalidArgument),
    Or(Unless(!voted, InvalidArgument),
       if slot < |def.approvers| then
         Unsigned(env, MessageText.Context(expiry, action, s.name, p.proposalIndex), def, p.params,
                  def.approvers[slot], signature)
       else None)))
  }

  /** Why an approval is refused. */
  lemma ApproveRefusal(env: Env, s: State, ins: Instruction)
    requires ins.Approve?
    ensures ins.key.intent !in s.intents ==> Refusal(Apply(env, s, ins)) == Some(UninitializedAccount)
    ensures ins.key.intent in s.intents ==>
              var intent := s.intents[ins.key.intent];
              Refusal(Apply(env, s, ins))
              == Or(Unless(intent.def.wallet == env.walletAddress, InvalidArgument),
                 Or(Unless(intent.approved != 0, InvalidArgument),
                    if ins.key !in s.proposals then Some(UninitializedAccount)
                    else Or(Unless(s.proposals[ins.key].status == Active, InvalidArgument),
                            VoteRefused(env, s, ins.key, MessageText.Approve,
                                        Has(s.proposals[ins.key].ballot.approvals, ins.slot), ins.expiry, ins.slot,
                                        ins.signature))))
  {
    hide Signed, Unsigned, Has, Approving;
    if ins.key.intent in s.intents && ins.key in s.proposals && ins.slot < |s.intents[ins.key.intent].def.approvers| {
      var (def, p) := (s.intents[ins.key.intent].def, s.proposals[ins.key]);
      SignedRefusal(env, MessageText.Context(ins.expiry, MessageText.Approve, s.name, p.proposalIndex), def, p.params,
                    def.approvers[ins.slot], ins.signature);
    }
  }

  /** Why a cancellation is refused. */
  lemma CancelRefusal(env: Env, s: State, ins: Instruction)
    requires ins.Cancel?
    ensures ins.key.intent !in s.intents ==> Refusal(Apply(env, s, ins)) == Some(UninitializedAccount)
    ensures ins.key.intent in s.intents ==>
              Refusal(Apply(env, s, ins))
              == Or(Unless(s.intents[ins.key.intent].def.wallet == env.walletAddress, InvalidArgument),
                    if ins.key !in s.proposals then Some(UninitializedAccount)
                    else Or(Unless(s.proposals[ins.key].status == Active || s.proposals[ins.key].status == Approved,
                                   InvalidArgument),
                            VoteRefused(env, s, ins.key, MessageText.Cancel,
                                        Has(s.proposals[ins.key].ballot.cancellations, ins.slot), ins.expiry,
                                        ins.slot, ins.signature)))
  {
    hide Signed, Unsigned, Has, Cancelling;
    if ins.key.intent in s.intents && ins.key in s.proposals && ins.slot < |s.intents[ins.key.intent].def.approvers| {
      var (def, p) := (s.intents[ins.key.intent].def, s.proposals[ins.key]);
      SignedRefusal(env, MessageText.Context(ins.expiry, MessageText.Cancel, s.name, p.proposalIndex), def, p.params,
                    def.approvers[ins.slot], ins.signature);
    }
  }

  /** Why a cleanup is refused. */
  lemma CleanupRefusal(env: Env, s: State, ins: Instruction)
    requires ins.Cleanup?
    ensures Refusal(Apply(env, s, ins))
            == if ins.key !in s.proposals then Some(UninitializedAccount)
               else Unless(&& ins.refund == s.proposals[ins.key].rentRefund
                           && (s.proposals[ins.key].status == Executed || s.proposals[ins.key].status == Cancelled),
                           InvalidArgument)
  {}

  // ---- execute ----

  function TargetRefused(env: Env, s: State, target: byte, view: AccountView): (r: Option<ProgramError>)
  {
    var a := env.intentAddress(target);
    Or(Unless(view.address == a, InvalidSeeds),
    Or(Unless(view.isWritable, Immutable),
    Or(Unless(a in s.intents, UninitializedAccount),
       Unless(a in s.intents ==> s.intents[a].activeProposalCount == 0, InvalidArgument))))
  }

  /** Why a branch of an execution is refused. */
  function BranchRefused(env: Env, s: State, def: Definition, params: Bytes, declared: Declared,
                         remaining: seq<AccountView>): (r: Option<ProgramError>)
  {
    match def.intentType
    case AddIntent =>
      Or(Unless(s.intentIndex < 255, InvalidArgument),
      Or(Unless(|remaining| >= 2, NotEnoughAccountKeys),
         if s.intentIndex == 255 || |remaining| < 2 then None
         else Or(Unless(remaining[0].isSigner, MissingRequiredSignature),
              Or(Unless(remaining[1].address == env.intentAddress(s.intentIndex + 1), InvalidSeeds),
                 Unless(env.intentAddress(s.intentIndex + 1) !in s.intents, InvalidArgument)))))
    case RemoveIntent =>
      Or(Unless(|params| == 1, InvalidInstructionData),
      Or(Unless(remaining != [], NotEnoughAccountKeys),
         if params == [] || remaining == [] then None else TargetRefused(env, s, params[0], remaining[0])))
    case UpdateIntent =>
      Or(Unless(1 < |params| <= env.paramsCap && |params| == 1 + env.intentBodySize, InvalidInstructionData),
      Or(Unless(remaining != [], NotEnoughAccountKeys),
         if params == [] || remaining == [] then None else TargetRefused(env, s, params[0], remaining[0])))
    case Custom => Refusal(Interpreter.Executed(env, def, params, declared, remaining))
  }

  /** Why an execution is refused. */
  lemma ExecuteRefusal(env: Env, s: State, ins: Instruction)
    requires ins.Execute?
    ensures var own := && ins.declared.vault.address == env.vaultAddress
                       && ins.declared.wallet.address == env.walletAddress
                       && ins.declared.system.address == env.systemAddress;
            Refusal(Apply(env, s, ins))
            == Or(Unless(own, InvalidSeeds),
                  if ins.key.intent !in s.intents then Some(UninitializedAccount)
                  else Or(Unless(s.intents[ins.key.intent].def.wallet == env.walletAddress, InvalidArgument),
                          if ins.key !in s.proposals then Some(UninitializedAccount)
                          else
                            var (def, p) := (s.intents[ins.key.intent].def, s.proposals[ins.key]);
                            Or(Unless(p.status == Approved, InvalidArgument),
                            Or(Unless(p.approvedAt + def.timelockSeconds < 0x8000_0000_0000_0000, ArithmeticOverflow),
                            Or(Unless(p.approvedAt + def.timelockSeconds <= s.clock, InvalidArgument),
                               BranchRefused(env, s, def, p.params, ins.declared, ins.remaining))))))
  {
    hide Interpreter.Executed, ExecuteBranch, BranchRefused;
    if ins.key.intent in s.intents && ins.key in s.proposals {
      BranchRefusal(env, s, s.intents[ins.key.intent].def, s.proposals[ins.key].params, ins.declared, ins.remaining);
    }
  }

  lemma BranchRefusal(env: Env, s: State, def: Definition, params: Bytes, declared: Declared,
                      remaining: seq<AccountView>)
    ensures Refusal(ExecuteBranch(env, s, def, params, declared, remaining))
            == BranchRefused(env, s, def, params, declared, remaining)
  {
    hide Interpreter.Executed;
  }

  // ---- Custom executions ----

  /** A segment outside the pool aborts; every other fault of a segment has one code. */
  lemma SegmentRefusal(def: Definition, data: Bytes, segment: DataSegmentEntry)
    requires !SegmentGood(def, data, segment)
    ensures SegmentBytes(def, data, segment)
            == Err(if segment.poolOffset as int + segment.poolLen as int < 0x1_0000
                      && InPool(def, segment.poolOffset, segment.poolLen) then InvalidInstructionData
                   else Panic)
  {
    SegmentIff(def, data, segment);
    ReadErrors(def, data);
    hide ParamBytes;
  }

  lemma ReadErrors(def: Definition, data: Bytes)
    ensures forall i :: ParamBytes(def.params, data, i).Err? ==>
                          ParamBytes(def.params, data, i) == Err(InvalidInstructionData)
  {
    forall i | ParamBytes(def.params, data, i).Err?
      ensures ParamBytes(def.params, data, i) == Err(InvalidInstructionData)
    {
      if ParamStart(def.params, data, i).Err? {
        MessageText.StartErrors(def.params, data, i);
      }
    }
  }

  /** A seed that names an account that is not there has a code of its own. */
  lemma SeedRefusal(def: Definition, data: Bytes, views: seq<AccountView>, seed: SeedEntry)
    requires SeedBytes(def, data, views, seed).Err?
    ensures SeedBytes(def, data, views, seed)
            == Err(if seed.seedType == AccountRef && InPool(def, seed.poolOffset, seed.poolLen) && seed.poolLen >= 1
                      && def.pool[seed.poolOffset] >= |views| then NotEnoughAccountKeys
                   else InvalidInstructionData)
  {
    ReadErrors(def, data);
    hide ParamBytes;
  }

  /** Why an entry, unless it is derived, names no address. */
  lemma NamedRefusal(env: Env, def: Definition, data: Bytes, views: seq<AccountView>, entry: AccountEntry)
    requires NamedAddress(env, def, data, views, entry).Err? && entry.sourceType != PdaDerived
    ensures NamedAddress(env, def, data, views, entry)
            == Err(if entry.sourceType == HasOne && InPool(def, entry.poolOffset, entry.poolLen) && entry.poolLen >= 3
                      && def.pool[entry.poolOffset] >= |views| then NotEnoughAccountKeys
                   else InvalidInstructionData)
  {
    ReadErrors(def, data);
    hide ParamBytes;
  }

  /** Why a derived entry names no address: too few bytes, no such program, too many seeds, a bad seed, no address. */
  lemma DerivedRefusal(env: Env, def: Definition, data: Bytes, views: seq<AccountView>, entry: AccountEntry)
    requires entry.sourceType == PdaDerived
    ensures var (o, l) := (entry.poolOffset as int, entry.poolLen as int);
            Refusal(NamedAddress(env, def, data, views, entry))
            == if !InPool(def, entry.poolOffset, entry.poolLen) || l < 5 then Some(InvalidInstructionData)
               else if def.pool[o] >= |views| then Some(NotEnoughAccountKeys)
               else
                 var (start, count) := (TwoBytes(def.pool[o + 1], def.pool[o + 2]),
                                        TwoBytes(def.pool[o + 3], def.pool[o + 4]));
                 if count > 16 then Some(InvalidInstructionData)
                 else
                   var seeds := SeedsFrom(def, data, views, start, count);
                   Or(Refusal(seeds),
                      Unless(seeds.Ok? ==>
                               env.findProgramAddress(seeds.value, views[def.pool[o]].address).Some?, Panic))
  {
    hide SeedsFrom, PdaAddress, InPool;
    var (o, l) := (entry.poolOffset as int, entry.poolLen as int);
    PoolIs(def, entry.poolOffset, entry.poolLen);
    if InPool(def, entry.poolOffset, entry.poolLen) {
      PdaRefusal(env, def, data, views, def.pool[o..o + l]);
    }
  }

  lemma PoolIs(def: Definition, offset: u16, len: u16)
    ensures InPool(def, offset, len) ==> offset as int + len as int <= |def.pool|
    ensures PoolSlice(def, offset, len)
            == if InPool(def, offset, len) then Ok(def.pool[offset..offset as int + len as int])
               else Err(InvalidInstructionData)
  {}

  lemma PdaRefusal(env: Env, def: Definition, data: Bytes, views: seq<AccountView>, s: Bytes)
    ensures Refusal(PdaAddress(env, def, data, views, s))
            == if |s| < 5 then Some(InvalidInstructionData)
               else if s[0] >= |views| then Some(NotEnoughAccountKeys)
               else if TwoBytes(s[3], s[4]) > 16 then Some(InvalidInstructionData)
               else
                 var seeds := SeedsFrom(def, data, views, TwoBytes(s[1], s[2]), TwoBytes(s[3], s[4]));
                 Or(Refusal(seeds),
                    Unless(seeds.Ok? ==> env.findProgramAddress(seeds.value, views[s[0]].address).Some?, Panic))
  {
    hide SeedsFrom;
  }

  /** The seed at this place of the table is there and good. */
  predicate SeedThere(def: Definition, data: Bytes, views: seq<AccountView>, place: nat)
  {
    place < |def.seeds| && SeedBytes(def, data, views, def.seeds[place]).Ok?
  }

  /** Seeds are refused for the first that is not there or is refused itself. */
  lemma {:induction false} SeedsRefusal(def: Definition, data: Bytes, views: seq<AccountView>, from: nat, count: nat)
    returns (place: nat)
    requires SeedsFrom(def, data, views, from, count).Err?
    ensures from <= place < from + count && !SeedThere(def, data, views, place)
    ensures forall i :: from <= i < place ==> SeedThere(def, data, views, i)
    ensures SeedsFrom(def, data, views, from, count)
            == Err(if place < |def.seeds| then SeedBytes(def, data, views, def.seeds[place]).error
                   else InvalidInstructionData)
    decreases count
  {
    hide SeedBytes;
    if SeedThere(def, data, views, from) {
      place := SeedsRefusal(def, data, views, from + 1, count - 1);
    } else {
      place := from;
    }
  }

  /** Entry `k` is one of the first 32, has its bytes, and has an account. */
  predicate EntryThere(def: Definition, declared: Declared, remaining: seq<AccountView>, k: nat)
    requires k < |def.accounts|
  {
    && k < 32 && (def.accounts[k].sourceType == Static ==> StaticGood(def, def.accounts[k]))
    && (StandsFor(def, declared, def.accounts[k]) == None ==> HandedIn(def, declared, k) < |remaining|)
  }

  /** Entries are refused for the first that has no account. */
  lemma {:induction false} ResolvedRefusal(def: Definition, declared: Declared, remaining: seq<AccountView>, i: nat)
    returns (k: nat)
    requires i <= |def.accounts| && ResolvedFrom(def, declared, remaining, i, HandedIn(def, declared, i)).Err?
    ensures i <= k < |def.accounts| && !EntryThere(def, declared, remaining, k)
    ensures forall j :: i <= j < k ==> EntryThere(def, declared, remaining, j)
    ensures ResolvedFrom(def, declared, remaining, i, HandedIn(def, declared, i))
            == Err(if k >= 32 then InvalidArgument
                   else if def.accounts[k].sourceType == Static && !StaticGood(def, def.accounts[k])
                   then InvalidInstructionData
                   else NotEnoughAccountKeys)
    decreases |def.accounts| - i
  {
    hide Injected, StandsFor, StaticGood;
    InjectedIff(def, declared, def.accounts[i]);
    InjectedCode(def, declared, def.accounts[i]);
    if EntryThere(def, declared, remaining, i) {
      k := ResolvedRefusal(def, declared, remaining, i + 1);
    } else {
      k := i;
    }
  }

  lemma InjectedCode(def: Definition, declared: Declared, entry: AccountEntry)
    ensures Injected(def, declared, entry).Err? ==> Injected(def, declared, entry) == Err(InvalidInstructionData)
  {}

  /** Accounts are refused for the first whose entry names no address, or another one. */
  lemma {:induction false} CheckedRefusal(env: Env, def: Definition, data: Bytes, views: seq<AccountView>, i: nat)
    returns (k: nat)
    requires i <= |views| == |def.accounts| && CheckedFrom(env, def, data, views, i).Err?
    ensures i <= k < |views|
    ensures forall j :: i <= j < k ==> NamedAddress(env, def, data, views, def.accounts[j]) == Ok(views[j].address)
    ensures NamedAddress(env, def, data, views, def.accounts[k]) != Ok(views[k].address)
    ensures var named := NamedAddress(env, def, data, views, def.accounts[k]);
            CheckedFrom(env, def, data, views, i) == Err(if named.Err? then named.error else InvalidArgument)
    decreases |views| - i
  {
    hide NamedAddress;
    if NamedAddress(env, def, data, views, def.accounts[i]) == Ok(views[i].address) {
      k := CheckedRefusal(env, def, data, views, i + 1);
    } else {
      k := i;
    }
  }

  /** The data of an instruction is refused for the first segment that is bad or does not fit any more. */
  lemma {:induction false} DataRefusal(def: Definition, data: Bytes, segments: seq<DataSegmentEntry>, done: Bytes)
    returns (g: nat)
    requires |done| <= 1024 && DataFrom(def, data, segments, done).Err?
    ensures g < |segments| && AllGood(def, data, segments[..g])
    ensures |done| + Place(def, data, segments[..g], g) <= 1024
    ensures if SegmentGood(def, data, segments[g]) then
              && |done| + Place(def, data, segments[..g], g) + Width(def, data, segments[g]) > 1024
              && DataFrom(def, data, segments, done) == Err(InvalidInstructionData)
            else DataFrom(def, data, segments, done) == Err(SegmentBytes(def, data, segments[g]).error)
    decreases |segments|
  {
    hide SegmentBytes, SegmentGood, Width, Bytewise;
    SegmentIff(def, data, segments[0]);
    var piece := SegmentBytes(def, data, segments[0]);
    if piece.Ok? && |done| + |piece.value| <= 1024 {
      var h := DataRefusal(def, data, segments[1..], done + piece.value);
      g := h + 1;
      assert segments[..g] == [segments[0]] + segments[1..][..h];
      PlaceFirst(def, data, segments[0], segments[1..][..h], h);
    } else {
      g := 0;
      assert segments[..0] == [];
    }
  }

  lemma {:induction false} PlaceFirst(def: Definition, data: Bytes, first: DataSegmentEntry,
                                      rest: seq<DataSegmentEntry>, h: nat)
    requires SegmentGood(def, data, first) && AllGood(def, data, rest) && h <= |rest|
    ensures AllGood(def, data, [first] + rest)
    ensures Place(def, data, [first] + rest, h + 1) == Width(def, data, first) + Place(def, data, rest, h)
  {
    hide SegmentGood, Width;
    if h > 0 {
      PlaceFirst(def, data, first, rest, h - 1);
      assert ([first] + rest)[h] == rest[h - 1];
    }
  }

  /** Why one instruction is refused. */
  lemma AssembledRefusal(def: Definition, data: Bytes, views: seq<AccountView>, entry: InstructionEntry)
    requires |views| == |def.accounts|
    ensures var (o, l) := (entry.accountIndexesOffset as int, entry.accountIndexesLen as int);
            Refusal(Assembled(def, data, views, entry))
            == Or(Unless(entry.programAccountIndex < |views|, NotEnoughAccountKeys),
               Or(Unless(o + l <= |def.pool|, Panic),
               Or(Unless(l <= 16, InvalidInstructionData),
               Or(Unless(o + l <= |def.pool| ==> AllBelow(Indexes(def, entry), |views|), NotEnoughAccountKeys),
               Or(Unless(entry.segmentsStart as int + entry.segmentsCount as int <= |def.segments|, Panic),
                  if entry.segmentsStart as int + entry.segmentsCount as int > |def.segments| then None
                  else Refusal(DataFrom(def, data, Segments(def, entry), [])))))))
  {
    hide DataFrom, Metas, AllBelow;
    var (o, l) := (entry.accountIndexesOffset as int, entry.accountIndexesLen as int);
    if o + l <= |def.pool| {
      MetasIff(def, views, Indexes(def, entry));
      MetasCode(def, views, Indexes(def, entry));
    }
  }

  lemma {:induction false} MetasCode(def: Definition, views: seq<AccountView>, indexes: Bytes)
    requires |views| == |def.accounts|
    ensures Metas(def, views, indexes).Err? ==> Metas(def, views, indexes) == Err(NotEnoughAccountKeys)
    decreases |indexes|
  {
    if indexes != [] {
      MetasCode(def, views, indexes[1..]);
    }
  }

  /** Instructions are refused for the first that is. */
  lemma {:induction false} CallsRefusal(def: Definition, data: Bytes, views: seq<AccountView>, i: nat) returns (j: nat)
    requires |views| == |def.accounts| && i <= |def.instructions| && CallsFrom(def, data, views, i).Err?
    ensures i <= j < |def.instructions|
    ensures forall h :: i <= h < j ==> Assembled(def, data, views, def.instructions[h]).Ok?
    ensures Assembled(def, data, views, def.instructions[j]).Err?
    ensures CallsFrom(def, data, views, i) == Err(Assembled(def, data, views, def.instructions[j]).error)
    decreases |def.instructions| - i
  {
    hide Assembled;
    if Assembled(def, data, views, def.instructions[i]).Ok? {
      j := CallsRefusal(def, data, views, i + 1);
    } else {
      j := i;
    }
  }

  /** A custom execution is refused for its entries first, then for its accounts, then for its instructions. */
  lemma ExecutedRefusal(env: Env, def: Definition, data: Bytes, declared: Declared, remaining: seq<AccountView>)
    ensures var views := Resolved(def, declared, remaining);
            Refusal(Interpreter.Executed(env, def, data, declared, remaining))
            == if views.Err? then Some(views.error)
               else Or(Refusal(CheckedFrom(env, def, data, views.value, 0)),
                       Refusal(CallsFrom(def, data, views.value, 0)))
  {
    hide Resolved, CheckedFrom, CallsFrom;
  }
}
