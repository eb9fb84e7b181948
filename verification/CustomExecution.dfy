/** instructions/execute.rs: the loops of `execute_custom`, over fixed buffers. */
module CustomExecution {
  import opened Bytes
  import opened Definition
  import opened Interpreter
  import Params

  /** A result whose first elements are already known. */
  function Prepend<T>(done: seq<T>, rest: Result<seq<T>>): (r: Result<seq<T>>)
  {
    match rest
    case Ok(s) => Ok(done + s)
    case Err(e) => Err(e)
  }

  lemma PrependOne<T>(done: seq<T>, next: T, rest: Result<seq<T>>)
    ensures Prepend(done, Prepend([next], rest)) == Prepend(done + [next], rest)
  {
    if rest.Ok? {
      assert done + ([next] + rest.value) == done + [next] + rest.value;
    }
  }

  lemma PrependNothing<T>(rest: Result<seq<T>>)
    ensures Prepend([], rest) == rest
  {
    if rest.Ok? {
      assert [] + rest.value == rest.value;
    }
  }

  lemma PrependAll<T>(done: seq<T>)
    ensures Prepend(done, Ok([])) == Ok(done)
  {
    assert done + [] == done;
  }

  /** The first slots of `account_views` are written and hold `vs`; reading any other slot is not allowed. */
  ghost predicate Holds(views: array<Option<AccountView>>, vs: seq<AccountView>)
    reads views
  {
    && |vs| <= views.Length
    && forall k :: 0 <= k < |vs| ==> views[k] == Some(vs[k])
  }

  // ---- Filling account_views ----

  method ResolveAccounts(def: Definition, declared: Declared, remaining: seq<AccountView>,
                         views: array<Option<AccountView>>)
    returns (r: Result<nat>)
    requires views.Length == MAX_ACCOUNTS
    modifies views
    ensures r.Ok? <==> Resolved(def, declared, remaining).Ok?
    ensures r.Err? ==> r.error == Resolved(def, declared, remaining).error
    ensures r.Ok? ==> r.value == |def.accounts| && Holds(views, Resolved(def, declared, remaining).value)
  {
    hide StaticAddress, FindDeclared;
    var accountCount, remainingIdx := 0, 0;
    ghost var done: seq<AccountView> := [];
    PrependNothing(Resolved(def, declared, remaining));
    while accountCount < |def.accounts|
      invariant accountCount == |done| <= |def.accounts| && accountCount <= MAX_ACCOUNTS
      invariant Holds(views, done)
      invariant Resolved(def, declared, remaining)
                == Prepend(done, ResolvedFrom(def, declared, remaining, accountCount, remainingIdx))
    {
      var entry := def.accounts[accountCount];
      if accountCount >= MAX_ACCOUNTS {
        return Err(InvalidArgument);
      }
      ResolvedStep(def, declared, remaining, accountCount, remainingIdx);
      var view;
      if entry.sourceType == Vault {
        view := declared.vault;
        PrependOne(done, view, ResolvedFrom(def, declared, remaining, accountCount + 1, remainingIdx));
      } else {
        var found: Option<AccountView> := None;
        if entry.sourceType == Static {
          var address := StaticAddress(def, entry);
          if address.Err? {
            return Err(address.error);
          }
          found := FindDeclared(declared, address.value);
        }
        if found.Some? {
          view := found.value;
          PrependOne(done, view, ResolvedFrom(def, declared, remaining, accountCount + 1, remainingIdx));
        } else {
          if remainingIdx >= |remaining| {
            return Err(NotEnoughAccountKeys);
          }
          view := remaining[remainingIdx];
          remainingIdx := remainingIdx + 1;
          PrependOne(done, view, ResolvedFrom(def, declared, remaining, accountCount + 1, remainingIdx));
        }
      }
      views[accountCount] := Some(view);
      done := done + [view];
      accountCount := accountCount + 1;
    }
    assert ResolvedFrom(def, declared, remaining, accountCount, remainingIdx) == Ok([]);
    PrependAll(done);
    r := Ok(accountCount);
  }

  /** One unrolling of account resolution. */
  lemma ResolvedStep(def: Definition, declared: Declared, remaining: seq<AccountView>, i: nat, next: nat)
    requires i < |def.accounts| && i < MAX_ACCOUNTS
    ensures var injected := Injected(def, declared, def.accounts[i]);
            ResolvedFrom(def, declared, remaining, i, next) ==
            if injected.Err? then Err(injected.error)
            else if injected.value.Some? then
              Prepend([injected.value.value], ResolvedFrom(def, declared, remaining, i + 1, next))
            else if next >= |remaining| then Err(NotEnoughAccountKeys)
            else Prepend([remaining[next]], ResolvedFrom(def, declared, remaining, i + 1, next + 1))
  {}

  // ---- Checking each account against its entry ----

  method ValidateRemainingAccounts(env: Env, def: Definition, data: Bytes, views: array<Option<AccountView>>,
                                   ghost vs: seq<AccountView>, accountCount: nat)
    returns (r: Result<()>)
    requires Holds(views, vs) && accountCount == |vs| == |def.accounts|
    ensures r == CheckedFrom(env, def, data, vs, 0)
  {
    hide NamedAddress;
    for i := 0 to |def.accounts|
      invariant CheckedFrom(env, def, data, vs, 0) == CheckedFrom(env, def, data, vs, i)
    {
      var current := views[i].value.address;
      var expected := ExpectedAddress(env, def, data, views, vs, accountCount, def.accounts[i]);
      if expected.Err? {
        return Err(expected.error);
      }
      if current != expected.value {
        return Err(InvalidArgument);
      }
    }
    r := Ok(());
  }

  /** The arms of the validation loop. */
  method ExpectedAddress(env: Env, def: Definition, data: Bytes, views: array<Option<AccountView>>,
                         ghost vs: seq<AccountView>, accountCount: nat, entry: AccountEntry)
    returns (r: Result<Address>)
    requires Holds(views, vs) && accountCount == |vs|
    ensures r == NamedAddress(env, def, data, vs, entry)
  {
    hide StaticAddress, PdaAddress, Params.ParamBytes;
    if entry.sourceType == Vault {
      return Ok(env.vaultAddress);
    } else if entry.sourceType == Static {
      r := StaticAddress(def, entry);
      return;
    }
    var s := PoolSlice(def, entry.poolOffset, entry.poolLen);
    if s.Err? {
      return Err(s.error);
    }
    var pool := s.value;
    match entry.sourceType {
      case Param =>
        if pool == [] {
          return Err(InvalidInstructionData);
        }
        var val := Params.ReadParamBytes(def.params, data, pool[0]);
        if val.Err? {
          return Err(val.error);
        }
        r := FirstAddress(val.value);
      case PdaDerived =>
        r := DerivePda(env, def, data, views, vs, accountCount, pool);
      case HasOne =>
        if |pool| < 3 {
          return Err(InvalidInstructionData);
        }
        if pool[0] >= accountCount {
          return Err(NotEnoughAccountKeys);
        }
        var stored := views[pool[0]].value.data;
        var offset := Le16(pool[1], pool[2]);
        if offset + 32 > |stored| {
          return Err(InvalidInstructionData);
        }
        r := Ok(stored[offset..offset + 32]);
    }
  }

  /** `validate_pda_account` up to the comparison: collects the seeds, then derives. */
  method DerivePda(env: Env, def: Definition, data: Bytes, views: array<Option<AccountView>>,
                   ghost vs: seq<AccountView>, accountCount: nat, pool: Bytes)
    returns (r: Result<Address>)
    requires Holds(views, vs) && accountCount == |vs|
    ensures r == PdaAddress(env, def, data, vs, pool)
  {
    if |pool| < 5 {
      return Err(InvalidInstructionData);
    }
    var (seedsStart, seedsCount) := (Le16(pool[1], pool[2]), Le16(pool[3], pool[4]));
    if pool[0] >= accountCount {
      return Err(NotEnoughAccountKeys);
    }
    var program := views[pool[0]].value.address;
    if seedsCount > 16 {
      return Err(InvalidInstructionData);
    }
    var seeds := CollectSeeds(def, data, views, vs, accountCount, seedsStart, seedsCount);
    if seeds.Err? {
      return Err(seeds.error);
    }
    var derived := env.findProgramAddress(seeds.value, program);
    r := if derived.Some? then Ok(derived.value) else Err(Panic);
  }

  /** Fills the seed buffers: at most 16 of at most 32 bytes each. */
  method CollectSeeds(def: Definition, data: Bytes, views: array<Option<AccountView>>, ghost vs: seq<AccountView>,
                      accountCount: nat, seedsStart: nat, seedsCount: nat)
    returns (r: Result<seq<Bytes>>)
    requires Holds(views, vs) && accountCount == |vs| && seedsCount <= 16
    ensures r == SeedsFrom(def, data, vs, seedsStart, seedsCount)
  {
    hide SeedBytes, Prepend;
    var seedBufs := new Bytes[16](_ => []);
    PrependNothing(SeedsFrom(def, data, vs, seedsStart, seedsCount));
    assert seedBufs[..0] == [];
    for s := 0 to seedsCount
      invariant forall k :: 0 <= k < s ==> |seedBufs[k]| <= 32
      invariant SeedsFrom(def, data, vs, seedsStart, seedsCount)
                == Prepend(seedBufs[..s], SeedsFrom(def, data, vs, seedsStart + s, seedsCount - s))
    {
      ghost var done := seedBufs[..s];
      SeedsStep(def, data, vs, done, seedsStart + s, seedsCount - s);
      if seedsStart + s >= |def.seeds| {
        return Err(InvalidInstructionData);
      }
      var seed := ReadSeed(def, data, views, vs, accountCount, def.seeds[seedsStart + s]);
      if seed.Err? {
        return Err(seed.error);
      }
      seedBufs[s] := seed.value;
      assert seedBufs[..s + 1] == done + [seed.value];
    }
    PrependAll(seedBufs[..seedsCount]);
    r := Ok(seedBufs[..seedsCount]);
  }

  lemma SeedsStep(def: Definition, data: Bytes, vs: seq<AccountView>, done: seq<Bytes>, from: nat, count: nat)
    requires count > 0
    ensures var whole := Prepend(done, SeedsFrom(def, data, vs, from, count));
            if from >= |def.seeds| then whole == Err(InvalidInstructionData)
            else
              var seed := SeedBytes(def, data, vs, def.seeds[from]);
              if seed.Err? then whole == Err(seed.error)
              else whole == Prepend(done + [seed.value], SeedsFrom(def, data, vs, from + 1, count - 1))
  {
    hide SeedBytes;
    if from < |def.seeds| && SeedBytes(def, data, vs, def.seeds[from]).Ok? {
      PrependOne(done, SeedBytes(def, data, vs, def.seeds[from]).value, SeedsFrom(def, data, vs, from + 1, count - 1));
    }
  }

  method ReadSeed(def: Definition, data: Bytes, views: array<Option<AccountView>>, ghost vs: seq<AccountView>,
                  accountCount: nat, seed: SeedEntry)
    returns (r: Result<Bytes>)
    requires Holds(views, vs) && accountCount == |vs|
    ensures r == SeedBytes(def, data, vs, seed)
    ensures r.Ok? ==> |r.value| <= 32
  {
    var s := PoolSlice(def, seed.poolOffset, seed.poolLen);
    if s.Err? {
      return Err(s.error);
    }
    var pool := s.value;
    match seed.seedType {
      case LiteralSeed =>
        r := if |pool| <= 32 then Ok(pool) else Err(InvalidInstructionData);
      case ParamRef =>
        if pool == [] {
          return Err(InvalidInstructionData);
        }
        var val := Params.ReadParamBytes(def.params, data, pool[0]);
        if val.Err? {
          return Err(val.error);
        }
        r := if |val.value| <= 32 then Ok(val.value) else Err(InvalidInstructionData);
      case AccountRef =>
        if pool == [] {
          return Err(InvalidInstructionData);
        }
        if pool[0] >= accountCount {
          return Err(NotEnoughAccountKeys);
        }
        r := Ok(views[pool[0]].value.address);
    }
  }

  // ---- The CPI loop ----

  method ExecuteCpiLoop(def: Definition, data: Bytes, views: array<Option<AccountView>>, ghost vs: seq<AccountView>,
                        accountCount: nat)
    returns (r: Result<seq<Call>>)
    requires Holds(views, vs) && accountCount == |vs| == |def.accounts|
    ensures r == CallsFrom(def, data, vs, 0)
  {
    hide Assembled;
    var calls := [];
    PrependNothing(CallsFrom(def, data, vs, 0));
    for i := 0 to |def.instructions|
      invariant CallsFrom(def, data, vs, 0) == Prepend(calls, CallsFrom(def, data, vs, i))
    {
      var call := AssembleCall(def, data, views, vs, accountCount, def.instructions[i]);
      if call.Err? {
        return Err(call.error);
      }
      PrependOne(calls, call.value, CallsFrom(def, data, vs, i + 1));
      calls := calls + [call.value];
    }
    PrependAll(calls);
    r := Ok(calls);
  }

  method AssembleCall(def: Definition, data: Bytes, views: array<Option<AccountView>>, ghost vs: seq<AccountView>,
                      accountCount: nat, entry: InstructionEntry)
    returns (r: Result<Call>)
    requires Holds(views, vs) && accountCount == |vs| == |def.accounts|
    ensures r == Assembled(def, data, vs, entry)
  {
    hide InstructionData;
    if entry.programAccountIndex >= accountCount {
      return Err(NotEnoughAccountKeys);
    }
    var program := views[entry.programAccountIndex].value.address;
    var from: nat := entry.accountIndexesOffset;
    var to := from + entry.accountIndexesLen;
    if to > |def.pool| {
      return Err(Panic);
    }
    var indexes := def.pool[from..to];
    if |indexes| > 16 {
      return Err(InvalidInstructionData);
    }
    var metas: seq<AccountMeta> := [];
    assert indexes[0..] == indexes;
    PrependNothing(Metas(def, vs, indexes));
    for i := 0 to |indexes|
      invariant Metas(def, vs, indexes) == Prepend(metas, Metas(def, vs, indexes[i..]))
    {
      var idx := indexes[i];
      assert indexes[i..][1..] == indexes[i + 1..];
      if idx >= accountCount {
        return Err(NotEnoughAccountKeys);
      }
      var meta := AccountMeta(views[idx].value.address, def.accounts[idx].isWritable, def.accounts[idx].isSigner);
      PrependOne(metas, meta, Metas(def, vs, indexes[i + 1..]));
      metas := metas + [meta];
    }
    assert indexes[|indexes|..] == [];
    PrependAll(metas);
    var ixData := BuildData(def, data, entry);
    if ixData.Err? {
      return Err(ixData.error);
    }
    r := Ok(Call(program, metas, ixData.value));
  }

  /** Instruction data, segment by segment, into a 1024-byte buffer. */
  method BuildData(def: Definition, data: Bytes, entry: InstructionEntry) returns (r: Result<Bytes>)
    ensures r == InstructionData(def, data, entry)
  {
    hide SegmentBytes;
    var ixData := new byte[MAX_DATA](_ => 0);
    var ixLen := 0;
    var (from, to) := (entry.segmentsStart, entry.segmentsStart as nat + entry.segmentsCount as nat);
    if to > |def.segments| {
      return Err(Panic);
    }
    var segments := def.segments[from..to];
    assert segments[0..] == segments;
    for k := 0 to |segments|
      invariant 0 <= ixLen <= MAX_DATA
      invariant DataFrom(def, data, segments, []) == DataFrom(def, data, segments[k..], ixData[..ixLen])
    {
      assert segments[k..][1..] == segments[k + 1..];
      var piece := ReadSegment(def, data, segments[k]);
      if piece.Err? {
        return Err(piece.error);
      }
      var size := |piece.value|;
      if ixLen + size > MAX_DATA {
        return Err(InvalidInstructionData);
      }
      ghost var done := ixData[..ixLen];
      forall j | 0 <= j < size {
        ixData[ixLen + j] := piece.value[j];
      }
      assert ixData[..ixLen + size] == done + piece.value;
      ixLen := ixLen + size;
    }
    r := Ok(ixData[..ixLen]);
  }

  method ReadSegment(def: Definition, data: Bytes, segment: DataSegmentEntry) returns (r: Result<Bytes>)
    ensures r == SegmentBytes(def, data, segment)
  {
    var from, to := segment.poolOffset, (segment.poolOffset as nat + segment.poolLen as nat) % 0x1_0000;
    if from > to || to > |def.pool| {
      return Err(Panic);
    }
    var pool := def.pool[from..to];
    match segment.segmentType {
      case LiteralSegment =>
        r := Ok(pool);
      case ParamSegment =>
        if |pool| < 2 {
          return Err(InvalidInstructionData);
        }
        var encoding := EncodingFromByte(pool[1]);
        if encoding == None {
          return Err(InvalidInstructionData);
        }
        var val := Params.ReadParamBytes(def.params, data, pool[0]);
        if val.Err? {
          return Err(val.error);
        }
        var size := EncodingSize(encoding.value);
        r := if |val.value| < size then Err(InvalidInstructionData) else Ok(val.value[..size]);
    }
  }

  /** `execute_custom`: resolve, validate, then emit the instructions. */
  method ExecuteCustom(env: Env, def: Definition, data: Bytes, declared: Declared, remaining: seq<AccountView>)
    returns (r: Result<seq<Call>>)
    ensures r == Executed(env, def, data, declared, remaining)
  {
    hide ResolvedFrom, CheckedFrom, CallsFrom;
    var views := new Option<AccountView>[MAX_ACCOUNTS](_ => None);
    var count := ResolveAccounts(def, declared, remaining, views);
    if count.Err? {
      return Err(count.error);
    }
    ghost var vs := Resolved(def, declared, remaining).value;
    var checked := ValidateRemainingAccounts(env, def, data, views, vs, count.value);
    if checked.Err? {
      return Err(checked.error);
    }
    r := ExecuteCpiLoop(def, data, views, vs, count.value);
  }
}
