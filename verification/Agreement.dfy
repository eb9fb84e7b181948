/** What a custom execution guarantees, and why what was displayed is what is executed. */
module Agreement {
  import opened Bytes
  import opened Definition
  import opened Interpreter
  import opened MessageText
  import opened MessageMeaning
  import opened Params

  // ---- Account resolution ----

  /** The accounts of the entries from `i` on that were not injected, in entry order. */
  function Taken(def: Definition, declared: Declared, views: seq<AccountView>, i: nat): (r: seq<AccountView>)
    requires i <= |def.accounts| == |views|
    decreases |def.accounts| - i
  {
    if i == |def.accounts| then []
    else
      (if Injected(def, declared, def.accounts[i]) == Ok(None) then [views[i]] else [])
      + Taken(def, declared, views, i + 1)
  }

  /** Every entry that injects an account got that account. */
  predicate InjectedRight(def: Definition, declared: Declared, views: seq<AccountView>, i: nat)
    requires |def.accounts| == |views|
  {
    forall k :: i <= k < |views| ==>
      var injected := Injected(def, declared, def.accounts[k]);
      injected.Ok? && (injected.value.Some? ==> views[k] == injected.value.value)
  }

  /** One unrolling of the resolution. */
  lemma ResolutionStep(def: Definition, declared: Declared, remaining: seq<AccountView>, views: seq<AccountView>,
                       i: nat, next: nat)
    requires i < |def.accounts| == |views| && ResolvedFrom(def, declared, remaining, i, next) == Ok(views[i..])
    ensures Injected(def, declared, def.accounts[i]).Ok?
    ensures var injected := Injected(def, declared, def.accounts[i]).value;
            && (injected.Some? ==> views[i] == injected.value)
            && (injected == None ==> next < |remaining| && views[i] == remaining[next])
            && ResolvedFrom(def, declared, remaining, i + 1, if injected.Some? then next else next + 1)
               == Ok(views[i + 1..])
  {
    hide Injected;
    var injected := Injected(def, declared, def.accounts[i]);
    var rest := ResolvedFrom(def, declared, remaining, i + 1, if injected.value.Some? then next else next + 1);
    FirstAndRest(views[i..], rest.value);
    assert views[i..][1..] == views[i + 1..];
  }

  lemma FirstAndRest<T>(s: seq<T>, rest: seq<T>)
    requires |s| == 1 + |rest|
    ensures [s[0]] + rest == s <==> rest == s[1..]
    ensures forall x :: [x] + rest == s ==> x == s[0] && rest == s[1..]
  {
    assert s == [s[0]] + s[1..];
    forall x | [x] + rest == s
      ensures x == s[0] && rest == s[1..]
    {
      assert ([x] + rest)[0] == x && ([x] + rest)[1..] == rest;
    }
  }

  /** One more account in front of those taken later. */
  lemma TakeFirst<T>(all: seq<T>, next: nat, later: seq<T>)
    requires next < |all|
    requires |later| > 0 ==> next + 1 + |later| <= |all| && later == all[next + 1..next + 1 + |later|]
    ensures next + 1 + |later| <= |all| && [all[next]] + later == all[next..next + 1 + |later|]
  {
    if |later| == 0 {
      assert [all[next]] + later == all[next..next + 1];
    } else {
      assert [all[next]] + all[next + 1..next + 1 + |later|] == all[next..next + 1 + |later|];
    }
  }

  lemma {:induction false} ResolutionFrom(def: Definition, declared: Declared, remaining: seq<AccountView>,
                                          views: seq<AccountView>, i: nat, next: nat)
    requires i <= |def.accounts| == |views|
    requires ResolvedFrom(def, declared, remaining, i, next) == Ok(views[i..])
    ensures InjectedRight(def, declared, views, i)
    ensures var taken := Taken(def, declared, views, i);
            |taken| > 0 ==> next + |taken| <= |remaining| && taken == remaining[next..next + |taken|]
    decreases |views| - i
  {
    hide Injected, ResolvedFrom;
    if i < |def.accounts| {
      ResolutionStep(def, declared, remaining, views, i, next);
      var injected := Injected(def, declared, def.accounts[i]).value;
      var later := Taken(def, declared, views, i + 1);
      if injected.Some? {
        ResolutionFrom(def, declared, remaining, views, i + 1, next);
        assert [] + later == later;
      } else {
        ResolutionFrom(def, declared, remaining, views, i + 1, next + 1);
        TakeFirst(remaining, next, later);
      }
    }
  }

  /**
   Accounts are resolved right: a slot for every entry, the injected accounts where an entry injects one, and the
   remaining accounts consumed in order, without gaps, by exactly the other entries.
   */
  lemma ResolutionRight(def: Definition, declared: Declared, remaining: seq<AccountView>)
    requires Resolved(def, declared, remaining).Ok?
    ensures var views := Resolved(def, declared, remaining).value;
            && |views| == |def.accounts| <= MAX_ACCOUNTS
            && InjectedRight(def, declared, views, 0)
            && Taken(def, declared, views, 0) <= remaining
  {
    var views := Resolved(def, declared, remaining).value;
    assert views[0..] == views;
    ResolutionFrom(def, declared, remaining, views, 0, 0);
    var taken := Taken(def, declared, views, 0);
    if |taken| > 0 {
      assert taken == remaining[..|taken|];
    }
  }

  /** The check passes exactly when every slot holds the account its entry names. */
  lemma {:induction false} CheckedIff(env: Env, def: Definition, data: Bytes, views: seq<AccountView>, i: nat)
    requires i <= |views| == |def.accounts|
    ensures CheckedFrom(env, def, data, views, i).Ok? <==>
            forall k :: i <= k < |views| ==>
              NamedAddress(env, def, data, views, def.accounts[k]) == Ok(views[k].address)
    decreases |views| - i
  {
    hide NamedAddress;
    if i < |views| {
      CheckedIff(env, def, data, views, i + 1);
    }
  }

  // ---- Emitted instructions ----

  lemma {:induction false} MetasAt(def: Definition, views: seq<AccountView>, indexes: Bytes, k: nat)
    requires |views| == |def.accounts| && Metas(def, views, indexes).Ok? && k < |indexes|
    ensures |Metas(def, views, indexes).value| == |indexes| && indexes[k] < |views|
    ensures var entry := def.accounts[indexes[k]];
            Metas(def, views, indexes).value[k]
            == AccountMeta(views[indexes[k]].address, entry.isWritable, entry.isSigner)
  {
    if |indexes| > 1 {
      MetasAt(def, views, indexes[1..], if k > 0 then k - 1 else 0);
    }
  }

  lemma {:induction false} CallsAt(def: Definition, data: Bytes, views: seq<AccountView>, i: nat, j: nat)
    requires |views| == |def.accounts| && i <= j < |def.instructions|
    requires CallsFrom(def, data, views, i).Ok?
    ensures |CallsFrom(def, data, views, i).value| == |def.instructions| - i
    ensures Assembled(def, data, views, def.instructions[j]) == Ok(CallsFrom(def, data, views, i).value[j - i])
    decreases |def.instructions| - i
  {
    hide Assembled;
    if i + 1 < |def.instructions| {
      CallsAt(def, data, views, i + 1, if j > i then j else i + 1);
    }
  }

  /** The segments' bytes one after the other; an error if one of them has none. */
  function Pasted(def: Definition, data: Bytes, segments: seq<DataSegmentEntry>): (r: Result<Bytes>)
    decreases |segments|
  {
    if segments == [] then Ok([])
    else
      var piece :- SegmentBytes(def, data, segments[0]);
      var rest :- Pasted(def, data, segments[1..]);
      Ok(piece + rest)
  }

  /** The bounded buffer holds the plain concatenation exactly when that fits. */
  lemma {:induction false} DataIsPasted(def: Definition, data: Bytes, segments: seq<DataSegmentEntry>, done: Bytes)
    requires |done| <= MAX_DATA
    ensures var (written, pasted) := (DataFrom(def, data, segments, done), Pasted(def, data, segments));
            && (written.Ok? <==> pasted.Ok? && |done| + |pasted.value| <= MAX_DATA)
            && (written.Ok? ==> written.value == done + pasted.value)
    decreases |segments|
  {
    hide SegmentBytes;
    if segments != [] {
      var piece := SegmentBytes(def, data, segments[0]);
      if piece.Ok? && |done| + |piece.value| <= MAX_DATA {
        DataIsPasted(def, data, segments[1..], done + piece.value);
        var rest := Pasted(def, data, segments[1..]);
        if rest.Ok? {
          assert done + piece.value + rest.value == done + (piece.value + rest.value);
        }
      }
    }
  }

  /** What a successful custom execution promises about its accounts and every emitted instruction. */
  predicate ExecutionRight(env: Env, def: Definition, data: Bytes, declared: Declared, remaining: seq<AccountView>,
                           calls: seq<Call>)
  {
    var views := Resolved(def, declared, remaining);
    && views.Ok? && |views.value| == |def.accounts|
    && InjectedRight(def, declared, views.value, 0)
    && Taken(def, declared, views.value, 0) <= remaining
    && (forall k :: 0 <= k < |views.value| ==>
          NamedAddress(env, def, data, views.value, def.accounts[k]) == Ok(views.value[k].address))
    && |calls| == |def.instructions|
    && (forall j :: 0 <= j < |calls| ==> CallRight(def, data, views.value, def.instructions[j], calls[j]))
  }

  /** One instruction: the program, the accounts with the flags of their entries, the pasted segments. */
  predicate CallRight(def: Definition, data: Bytes, views: seq<AccountView>, entry: InstructionEntry, call: Call)
    requires |views| == |def.accounts|
  {
    var indexes := PoolSlice(def, entry.accountIndexesOffset, entry.accountIndexesLen);
    var (from, to) := (entry.segmentsStart, entry.segmentsStart as nat + entry.segmentsCount as nat);
    && entry.programAccountIndex < |views| && call.program == views[entry.programAccountIndex].address
    && indexes.Ok? && |call.accounts| == |indexes.value| <= 16
    && (forall k :: 0 <= k < |indexes.value| ==>
          && indexes.value[k] < |views|
          && call.accounts[k] == AccountMeta(views[indexes.value[k]].address,
                                             def.accounts[indexes.value[k]].isWritable,
                                             def.accounts[indexes.value[k]].isSigner))
    && to <= |def.segments| && Pasted(def, data, def.segments[from..to]) == Ok(call.data)
    && |call.data| <= MAX_DATA
  }

  lemma AssembledRight(def: Definition, data: Bytes, views: seq<AccountView>, entry: InstructionEntry)
    requires |views| == |def.accounts| && Assembled(def, data, views, entry).Ok?
    ensures CallRight(def, data, views, entry, Assembled(def, data, views, entry).value)
  {
    var indexes := PoolSlice(def, entry.accountIndexesOffset, entry.accountIndexesLen).value;
    forall k | 0 <= k < |indexes|
      ensures indexes[k] < |views|
      ensures |Metas(def, views, indexes).value| == |indexes|
      ensures Metas(def, views, indexes).value[k]
              == AccountMeta(views[indexes[k]].address, def.accounts[indexes[k]].isWritable,
                             def.accounts[indexes[k]].isSigner)
    {
      MetasAt(def, views, indexes, k);
    }
    var (from, to) := (entry.segmentsStart, entry.segmentsStart as nat + entry.segmentsCount as nat);
    var segments := def.segments[from..to];
    DataIsPasted(def, data, segments, []);
    assert [] + Pasted(def, data, segments).value == Pasted(def, data, segments).value;
  }

  lemma CallsRight(def: Definition, data: Bytes, views: seq<AccountView>)
    requires |views| == |def.accounts| && CallsFrom(def, data, views, 0).Ok?
    ensures var calls := CallsFrom(def, data, views, 0).value;
            && |calls| == |def.instructions|
            && forall j :: 0 <= j < |calls| ==> CallRight(def, data, views, def.instructions[j], calls[j])
  {
    hide Assembled, CallRight;
    var calls := CallsFrom(def, data, views, 0).value;
    forall j | 0 <= j < |def.instructions|
      ensures |calls| == |def.instructions| && CallRight(def, data, views, def.instructions[j], calls[j])
    {
      CallsAt(def, data, views, 0, j);
      AssembledRight(def, data, views, def.instructions[j]);
    }
  }

  lemma ExecutedRight(env: Env, def: Definition, data: Bytes, declared: Declared, remaining: seq<AccountView>)
    requires Executed(env, def, data, declared, remaining).Ok?
    ensures ExecutionRight(env, def, data, declared, remaining, Executed(env, def, data, declared, remaining).value)
  {
    hide Resolved, NamedAddress, CallRight, CheckedFrom, CallsFrom, InjectedRight, Taken;
    var views := Resolved(def, declared, remaining).value;
    ResolutionRight(def, declared, remaining);
    CheckedIff(env, def, data, views, 0);
    CallsRight(def, data, views);
  }

  // ---- Display and execution ----

  /** The encoding that keeps all bytes of a parameter type. */
  function MatchingEncoding(paramType: ParamType): (r: Option<DataEncoding>)
  {
    match paramType
    case AddressParam => Some(RawAddress)
    case U64Param => Some(LittleEndianU64)
    case I64Param => Some(LittleEndianI64)
    case BoolParam => Some(BoolEncoding)
    case U8Param => Some(LittleEndianU8)
    case U16Param => Some(LittleEndianU16)
    case U32Param => Some(LittleEndianU32)
    case U128Param => Some(LittleEndianU128)
    case StringParam => None
  }

  /** A segment that emits parameter `index` in `encoding`. */
  predicate EmitsParam(def: Definition, segment: DataSegmentEntry, index: byte, encoding: DataEncoding)
  {
    var s := SegmentPool(def, segment);
    && segment.segmentType == ParamSegment && s.Ok? && |s.value| >= 2
    && s.value[0] == index && EncodingFromByte(s.value[1]) == Some(encoding)
  }

  /** After validation a parameter of fixed size has exactly the bytes its own encoding needs. */
  lemma MatchingWidth(params: seq<ParamEntry>, data: Bytes, utf8: Bytes -> bool, i: byte)
    requires Validated(params, data, utf8).Ok? && i < |params| && MatchingEncoding(params[i].paramType).Some?
    ensures ParamBytes(params, data, i).Ok?
    ensures |ParamBytes(params, data, i).value| == EncodingSize(MatchingEncoding(params[i].paramType).value)
  {
    SliceOf(params, data, utf8, i);
    hide Validated;
  }

  /**
   Display and execution agree: a validated parameter that is both a placeholder of the template and a segment in
   its own encoding is emitted as the very bytes whose value the signers read.
   */
  lemma DisplayedIsExecuted(env: Env, def: Definition, data: Bytes, piece: Piece, segment: DataSegmentEntry)
    requires Validated(def.params, data, env.utf8).Ok?
    requires piece.Placeholder? && piece.index % 0x100 < |def.params|
    requires MatchingEncoding(def.params[piece.index % 0x100].paramType).Some?
    requires EmitsParam(def, segment, piece.index % 0x100,
                        MatchingEncoding(def.params[piece.index % 0x100].paramType).value)
    ensures var paramType := def.params[piece.index % 0x100].paramType;
            var (text, emitted) := (PieceText(def.params, data, piece, env.utf8), SegmentBytes(def, data, segment));
            && text.Ok? && emitted.Ok?
            && emitted == ParamBytes(def.params, data, piece.index % 0x100)
            && ReadText(paramType, text.value) == Some(RawValue(paramType, emitted.value))
  {
    var i: byte := piece.index % 0x100;
    ValidatedRenders(def.params, data, env.utf8, i);
    MatchingWidth(def.params, data, env.utf8, i);
    var s := ParamBytes(def.params, data, i).value;
    assert s[..|s|] == s;
    DisplayReads(def.params[i].paramType, s);
    hide Validated, ParamText, ReadText, RawValue, RenderParam, ParamBytes;
  }

  /** An account entry that takes its address from parameter `index`. */
  predicate TakesParam(def: Definition, entry: AccountEntry, index: byte)
  {
    var s := PoolSlice(def, entry.poolOffset, entry.poolLen);
    entry.sourceType == Param && s.Ok? && s.value != [] && s.value[0] == index
  }

  /** The account entry behind account `x` of instruction `j`. */
  function EntryBehind(def: Definition, j: nat, x: nat): (r: Option<AccountEntry>)
  {
    if j >= |def.instructions| then None
    else
      var indexes := PoolSlice(def, def.instructions[j].accountIndexesOffset, def.instructions[j].accountIndexesLen);
      if indexes.Err? || x >= |indexes.value| || indexes.value[x] >= |def.accounts| then None
      else Some(def.accounts[indexes.value[x]])
  }

  /** The address read from a placeholder is the address of every emitted account taken from the same parameter. */
  lemma DisplayedIsAddressed(env: Env, def: Definition, data: Bytes, declared: Declared, remaining: seq<AccountView>,
                             calls: seq<Call>, piece: Piece, j: nat, x: nat)
    requires Validated(def.params, data, env.utf8).Ok? && ExecutionRight(env, def, data, declared, remaining, calls)
    requires piece.Placeholder? && piece.index % 0x100 < |def.params|
    requires def.params[piece.index % 0x100].paramType == AddressParam
    requires EntryBehind(def, j, x).Some? && TakesParam(def, EntryBehind(def, j, x).value, piece.index % 0x100)
    ensures var text := PieceText(def.params, data, piece, env.utf8);
            && text.Ok? && j < |calls| && x < |calls[j].accounts|
            && ReadText(AddressParam, text.value) == Some(AddressValue(calls[j].accounts[x].address))
  {
    var i: byte := piece.index % 0x100;
    ParamAddress(env, def, data, declared, remaining, calls, i, j, x);
    ValidatedRenders(def.params, data, env.utf8, i);
    DisplayReads(AddressParam, calls[j].accounts[x].address);
    hide Validated, ExecutionRight, ParamText, ReadText, RenderParam, ParamBytes, EntryBehind, TakesParam;
  }

  lemma ParamAddress(env: Env, def: Definition, data: Bytes, declared: Declared, remaining: seq<AccountView>,
                     calls: seq<Call>, i: byte, j: nat, x: nat)
    requires Validated(def.params, data, env.utf8).Ok? && ExecutionRight(env, def, data, declared, remaining, calls)
    requires i < |def.params| && def.params[i].paramType == AddressParam
    requires EntryBehind(def, j, x).Some? && TakesParam(def, EntryBehind(def, j, x).value, i)
    ensures j < |calls| && x < |calls[j].accounts|
    ensures ParamBytes(def.params, data, i) == Ok(calls[j].accounts[x].address)
  {
    hide Resolved, NamedAddress, InjectedRight, Taken, Pasted, Validated, ParamBytes;
    var views := Resolved(def, declared, remaining).value;
    assert CallRight(def, data, views, def.instructions[j], calls[j]);
    var y := PoolSlice(def, def.instructions[j].accountIndexesOffset, def.instructions[j].accountIndexesLen).value[x];
    assert NamedAddress(env, def, data, views, def.accounts[y]) == Ok(views[y].address);
    NamedByParam(env, def, data, views, def.accounts[y], i);
  }

  lemma NamedByParam(env: Env, def: Definition, data: Bytes, views: seq<AccountView>, entry: AccountEntry, i: byte)
    requires Validated(def.params, data, env.utf8).Ok?
    requires i < |def.params| && def.params[i].paramType == AddressParam && TakesParam(def, entry, i)
    ensures ParamBytes(def.params, data, i).Ok?
    ensures NamedAddress(env, def, data, views, entry) == Ok(ParamBytes(def.params, data, i).value)
  {
    MatchingWidth(def.params, data, env.utf8, i);
    hide Validated, ParamBytes, PoolSlice;
    var s := ParamBytes(def.params, data, i).value;
    assert s[..32] == s;
  }

  // ---- Derived accounts ----

  /** The program account, the first seed and the number of seeds of an entry that is derived. */
  function Derivation(def: Definition, entry: AccountEntry): (r: Option<(byte, nat, nat)>)
  {
    match PoolSlice(def, entry.poolOffset, entry.poolLen)
    case Err(_) => None
    case Ok(s) =>
      if entry.sourceType != PdaDerived || |s| < 5 then None else Some((s[0], Le16(s[1], s[2]), Le16(s[3], s[4])))
  }

  /** The parameter a seed refers to. */
  function SeedParam(def: Definition, seed: SeedEntry): (r: Option<byte>)
  {
    match PoolSlice(def, seed.poolOffset, seed.poolLen)
    case Err(_) => None
    case Ok(s) => if seed.seedType != ParamRef || s == [] then None else Some(s[0])
  }

  /** A seed that refers to a parameter is the parameter's bytes, to whose value the text shown for it reads back. */
  predicate SeedShown(env: Env, def: Definition, data: Bytes, seed: SeedEntry, bytes: Bytes)
  {
    var i := SeedParam(def, seed);
    i.Some? ==>
      && i.value < |def.params| && ParamBytes(def.params, data, i.value) == Ok(bytes) && |bytes| <= 32
      && var text := RenderParam(def.params, data, i.value, env.utf8);
      && text.Ok?
      && ReadText(def.params[i.value].paramType, text.value)
         == Some(RawValue(def.params[i.value].paramType, bytes))
  }

  lemma {:induction false} SeedsAt(def: Definition, data: Bytes, views: seq<AccountView>, from: nat, count: nat, q: nat)
    requires SeedsFrom(def, data, views, from, count).Ok? && q < count
    ensures |SeedsFrom(def, data, views, from, count).value| == count && from + q < |def.seeds|
    ensures SeedBytes(def, data, views, def.seeds[from + q]) == Ok(SeedsFrom(def, data, views, from, count).value[q])
    decreases count
  {
    hide SeedBytes;
    if count > 1 {
      SeedsAt(def, data, views, from + 1, count - 1, if q > 0 then q - 1 else 0);
    }
  }

  lemma SeedIsShown(env: Env, def: Definition, data: Bytes, views: seq<AccountView>, seed: SeedEntry, bytes: Bytes)
    requires Validated(def.params, data, env.utf8).Ok? && SeedBytes(def, data, views, seed) == Ok(bytes)
    ensures SeedShown(env, def, data, seed, bytes)
  {
    hide Validated, RenderParam, ReadText, RawValue, ParamText, ParamBytes, PoolSlice;
    var i := SeedParam(def, seed);
    if i.Some? {
      ReadIsDeclared(def.params, data, i.value);
      ValidatedRenders(def.params, data, env.utf8, i.value);
      DisplayReads(def.params[i.value].paramType, bytes);
    }
  }

  lemma ReadIsDeclared(params: seq<ParamEntry>, data: Bytes, i: nat)
    requires ParamBytes(params, data, i).Ok?
    ensures i < |params|
  {
    hide ParamStart;
  }

  predicate SeedShownAt(env: Env, def: Definition, data: Bytes, start: nat, seeds: seq<Bytes>, q: nat)
    requires q < |seeds|
  {
    start + q < |def.seeds| && SeedShown(env, def, data, def.seeds[start + q], seeds[q])
  }

  predicate SeedsShown(env: Env, def: Definition, data: Bytes, start: nat, seeds: seq<Bytes>)
  {
    forall q :: 0 <= q < |seeds| ==> SeedShownAt(env, def, data, start, seeds, q)
  }

  /** The address is derived from the entry's seeds under the entry's program, and each seed is what is shown of it. */
  predicate DerivedRight(env: Env, def: Definition, data: Bytes, views: seq<AccountView>, entry: AccountEntry,
                         seeds: seq<Bytes>, address: Address)
  {
    var d := Derivation(def, entry);
    && d.Some? && d.value.0 < |views| && |seeds| == d.value.2 <= 16
    && env.findProgramAddress(seeds, views[d.value.0].address) == Some(address)
    && SeedsShown(env, def, data, d.value.1, seeds)
  }

  /**
   Every emitted account whose entry is derived is the program address of the entry's seeds, and each seed that refers
   to a parameter is the bytes whose value the signers read where the parameter is shown.
   */
  lemma DerivedIsDisplayed(env: Env, def: Definition, data: Bytes, declared: Declared, remaining: seq<AccountView>,
                           calls: seq<Call>, j: nat, x: nat) returns (seeds: seq<Bytes>)
    requires Validated(def.params, data, env.utf8).Ok? && ExecutionRight(env, def, data, declared, remaining, calls)
    requires EntryBehind(def, j, x).Some? && EntryBehind(def, j, x).value.sourceType == PdaDerived
    ensures j < |calls| && x < |calls[j].accounts| && Resolved(def, declared, remaining).Ok?
    ensures DerivedRight(env, def, data, Resolved(def, declared, remaining).value, EntryBehind(def, j, x).value, seeds,
                         calls[j].accounts[x].address)
  {
    hide Resolved, NamedAddress, InjectedRight, Taken, Pasted, Validated, DerivedRight;
    var views := Resolved(def, declared, remaining).value;
    assert CallRight(def, data, views, def.instructions[j], calls[j]);
    var y := PoolSlice(def, def.instructions[j].accountIndexesOffset, def.instructions[j].accountIndexesLen).value[x];
    assert NamedAddress(env, def, data, views, def.accounts[y]) == Ok(views[y].address);
    seeds := DerivedFrom(env, def, data, views, def.accounts[y]);
  }

  lemma DerivedFrom(env: Env, def: Definition, data: Bytes, views: seq<AccountView>, entry: AccountEntry)
    returns (seeds: seq<Bytes>)
    requires Validated(def.params, data, env.utf8).Ok? && entry.sourceType == PdaDerived
    requires NamedAddress(env, def, data, views, entry).Ok?
    ensures DerivedRight(env, def, data, views, entry, seeds, NamedAddress(env, def, data, views, entry).value)
  {
    hide Validated, SeedsShown, SeedsFrom, PoolSlice, Le16;
    var d := Derivation(def, entry).value;
    seeds := SeedsFrom(def, data, views, d.1, d.2).value;
    SeedsCount(def, data, views, d.1, d.2);
    SeedsAreShown(env, def, data, views, d.1, d.2);
  }

  lemma SeedsAreShown(env: Env, def: Definition, data: Bytes, views: seq<AccountView>, start: nat, count: nat)
    requires Validated(def.params, data, env.utf8).Ok? && SeedsFrom(def, data, views, start, count).Ok?
    ensures SeedsShown(env, def, data, start, SeedsFrom(def, data, views, start, count).value)
  {
    hide Validated, SeedShown, SeedBytes, SeedsFrom;
    var seeds := SeedsFrom(def, data, views, start, count).value;
    SeedsCount(def, data, views, start, count);
    forall q | 0 <= q < |seeds|
      ensures SeedShownAt(env, def, data, start, seeds, q)
    {
      SeedsAt(def, data, views, start, count, q);
      SeedIsShown(env, def, data, views, def.seeds[start + q], seeds[q]);
    }
  }

  lemma SeedsCount(def: Definition, data: Bytes, views: seq<AccountView>, from: nat, count: nat)
    requires SeedsFrom(def, data, views, from, count).Ok?
    ensures |SeedsFrom(def, data, views, from, count).value| == count
  {
    hide SeedBytes;
    if count > 0 {
      SeedsAt(def, data, views, from, count, 0);
    }
  }

  predicate Unsigned(paramType: ParamType)
  {
    paramType.U8Param? || paramType.U16Param? || paramType.U32Param? || paramType.U64Param? || paramType.U128Param?
  }

  /**
   With a narrower encoding an unsigned parameter loses its high bytes: the emitted number is the shown one exactly
   when the shown one fits the encoding.
   */
  lemma NarrowEncoding(env: Env, def: Definition, data: Bytes, i: byte, segment: DataSegmentEntry,
                       encoding: DataEncoding)
    requires Validated(def.params, data, env.utf8).Ok? && i < |def.params| && Unsigned(def.params[i].paramType)
    requires EmitsParam(def, segment, i, encoding) && SegmentBytes(def, data, segment).Ok?
    ensures var text := RenderParam(def.params, data, i, env.utf8);
            var emitted := SegmentBytes(def, data, segment).value;
            && text.Ok?
            && (ReadText(def.params[i].paramType, text.value) == Some(Number(FromLE(emitted)))
                <==> FromLE(ParamBytes(def.params, data, i).value) < Pow(0x100, EncodingSize(encoding)))
  {
    ValidatedRenders(def.params, data, env.utf8, i);
    var s, size := ParamBytes(def.params, data, i).value, EncodingSize(encoding);
    DisplayReads(def.params[i].paramType, s);
    FromLEPrefix(s, size);
    FromLEBound(s[..size]);
    PowPositive(0x100, size);
    LowPart(FromLE(s[..size]), Pow(0x100, size), FromLE(s[size..]));
    hide Validated, FromLE, Pow, RenderParam, ParamText, ParamBytes;
  }

  lemma LowPart(low: nat, p: nat, high: nat)
    requires low < p
    ensures low == low + p * high <==> low + p * high < p
  {
    if high >= 1 {
      assert p * high >= p;
    } else {
      assert p * high == 0;
    }
  }
}
