/**
 What a custom execution asks and emits, said of each account, segment and instruction by itself: no walk over the
 definition, no running buffer, every offset and width written out.
 */
module Emission {
  import opened Agreement
  import opened Bytes
  import opened Definition
  import opened Interpreter
  import opened Params

  /** The pool has the `len` bytes from `offset` on. */
  predicate InPool(def: Definition, offset: u16, len: u16)
  {
    offset as int + len as int <= |def.pool|
  }

  /** Two pool bytes as a number, low byte first. */
  function TwoBytes(low: byte, high: byte): (n: nat)
  {
    low + 256 * high
  }

  // ---- Instruction data ----

  /** The bytes each encoding code takes: address, u64, i64, bool, u8, u16, u32, u128. */
  function CodeWidth(code: byte): (n: nat)
    requires code < 8
  {
    [32, 8, 8, 1, 1, 2, 4, 16][code]
  }

  /**
   A segment can be emitted: it is in the pool, without passing 16 bits, and if it names a parameter and a code,
   there is
   such a code and the parameter has the bytes for it.
   */
  predicate SegmentGood(def: Definition, data: Bytes, segment: DataSegmentEntry)
  {
    && segment.poolOffset as int + segment.poolLen as int < 0x1_0000
    && InPool(def, segment.poolOffset, segment.poolLen)
    && (segment.segmentType == ParamSegment ==>
          && segment.poolLen >= 2 && def.pool[segment.poolOffset + 1] < 8
          && var val := ParamBytes(def.params, data, def.pool[segment.poolOffset]);
          && val.Ok? && CodeWidth(def.pool[segment.poolOffset + 1]) <= |val.value|)
  }

  /** How many bytes a segment emits. */
  function Width(def: Definition, data: Bytes, segment: DataSegmentEntry): (n: nat)
    requires SegmentGood(def, data, segment)
  {
    match segment.segmentType
    case LiteralSegment => segment.poolLen
    case ParamSegment => CodeWidth(def.pool[segment.poolOffset + 1])
  }

  /** Which bytes: those of the pool, or the first bytes of the parameter. */
  function Bytewise(def: Definition, data: Bytes, segment: DataSegmentEntry): (r: Bytes)
    requires SegmentGood(def, data, segment)
    ensures |r| == Width(def, data, segment)
  {
    match segment.segmentType
    case LiteralSegment => def.pool[segment.poolOffset..segment.poolOffset as int + segment.poolLen as int]
    case ParamSegment =>
      ParamBytes(def.params, data, def.pool[segment.poolOffset]).value[..CodeWidth(def.pool[segment.poolOffset + 1])]
  }

  predicate AllGood(def: Definition, data: Bytes, segments: seq<DataSegmentEntry>)
  {
    forall g :: 0 <= g < |segments| ==> SegmentGood(def, data, segments[g])
  }

  /** The widths of the first `g` segments, added up. */
  function Place(def: Definition, data: Bytes, segments: seq<DataSegmentEntry>, g: nat): (n: nat)
    requires g <= |segments| && AllGood(def, data, segments)
  {
    if g == 0 then 0 else Place(def, data, segments, g - 1) + Width(def, data, segments[g - 1])
  }

  /** The data has the segments' widths together, and each segment's bytes at its place. */
  predicate LaidOut(def: Definition, data: Bytes, segments: seq<DataSegmentEntry>, ixData: Bytes)
    requires AllGood(def, data, segments)
  {
    && |ixData| == Place(def, data, segments, |segments|)
    && forall g :: 0 <= g < |segments| ==> InPlace(def, data, segments, ixData, g)
  }

  predicate InPlace(def: Definition, data: Bytes, segments: seq<DataSegmentEntry>, ixData: Bytes, g: nat)
    requires g < |segments| && AllGood(def, data, segments)
  {
    var from := Place(def, data, segments, g);
    && from + Width(def, data, segments[g]) <= |ixData|
    && ixData[from..from + Width(def, data, segments[g])] == Bytewise(def, data, segments[g])
  }

  lemma SegmentIff(def: Definition, data: Bytes, segment: DataSegmentEntry)
    ensures SegmentBytes(def, data, segment).Ok? <==> SegmentGood(def, data, segment)
    ensures SegmentGood(def, data, segment) ==> SegmentBytes(def, data, segment).value == Bytewise(def, data, segment)
  {
    hide ParamBytes;
  }

  /** Pasting succeeds exactly when every segment is good, and then lays them out. */
  lemma {:induction false} PastedIff(def: Definition, data: Bytes, segments: seq<DataSegmentEntry>)
    ensures Pasted(def, data, segments).Ok? <==> AllGood(def, data, segments)
    ensures AllGood(def, data, segments) ==> LaidOut(def, data, segments, Pasted(def, data, segments).value)
    decreases |segments|
  {
    hide SegmentBytes, SegmentGood, Width, Bytewise;
    if segments != [] {
      var (most, last) := (segments[..|segments| - 1], segments[|segments| - 1]);
      assert segments == most + [last];
      PastedIff(def, data, most);
      PastedLast(def, data, most, last);
      SegmentIff(def, data, last);
      assert AllGood(def, data, segments) <==> AllGood(def, data, most) && SegmentGood(def, data, last);
      if AllGood(def, data, segments) {
        LastLaidOut(def, data, most, last, Pasted(def, data, most).value);
      }
    }
  }

  lemma {:induction false} PastedLast(def: Definition, data: Bytes, most: seq<DataSegmentEntry>, last: DataSegmentEntry)
    ensures var (whole, front, piece) := (Pasted(def, data, most + [last]), Pasted(def, data, most),
                                          SegmentBytes(def, data, last));
            && (whole.Ok? <==> front.Ok? && piece.Ok?)
            && (whole.Ok? ==> whole.value == front.value + piece.value)
    decreases |most|
  {
    hide SegmentBytes;
    if most == [] {
      assert [last][1..] == [] && [] + [last] == [last];
      assert Pasted(def, data, []) == Ok([]);
    } else {
      PastedLast(def, data, most[1..], last);
      assert (most + [last])[1..] == most[1..] + [last];
    }
  }

  lemma {:induction false} PlaceStays(def: Definition, data: Bytes, most: seq<DataSegmentEntry>, last: DataSegmentEntry,
                                      g: nat)
    requires AllGood(def, data, most) && AllGood(def, data, most + [last]) && g <= |most|
    ensures Place(def, data, most + [last], g) == Place(def, data, most, g)
  {
    hide SegmentGood, Width;
    if g > 0 {
      PlaceStays(def, data, most, last, g - 1);
    }
  }

  lemma LastLaidOut(def: Definition, data: Bytes, most: seq<DataSegmentEntry>, last: DataSegmentEntry, front: Bytes)
    requires AllGood(def, data, most) && SegmentGood(def, data, last) && LaidOut(def, data, most, front)
    ensures AllGood(def, data, most + [last])
    ensures LaidOut(def, data, most + [last], front + Bytewise(def, data, last))
  {
    hide SegmentGood, Width, Bytewise, Place;
    var (all, whole) := (most + [last], front + Bytewise(def, data, last));
    PlaceLast(def, data, most, last);
    forall g | 0 <= g < |all|
      ensures InPlace(def, data, all, whole, g)
    {
      PlaceStays(def, data, most, last, if g < |most| then g else |most|);
      if g < |most| {
        assert InPlace(def, data, most, front, g);
        var (from, to) := (Place(def, data, most, g), Place(def, data, most, g) + Width(def, data, most[g]));
        assert whole[from..to] == front[from..to];
      } else {
        assert whole[|front|..] == Bytewise(def, data, last);
      }
    }
  }

  lemma PlaceLast(def: Definition, data: Bytes, most: seq<DataSegmentEntry>, last: DataSegmentEntry)
    requires AllGood(def, data, most) && SegmentGood(def, data, last) && AllGood(def, data, most + [last])
    ensures Place(def, data, most + [last], |most + [last]|)
            == Place(def, data, most, |most|) + Width(def, data, last)
  {
    hide SegmentGood, Width;
    PlaceStays(def, data, most, last, |most|);
    assert (most + [last])[|most|] == last;
  }

  // ---- One instruction ----

  /** The segments of an instruction. */
  function Segments(def: Definition, entry: InstructionEntry): (r: seq<DataSegmentEntry>)
    requires entry.segmentsStart as int + entry.segmentsCount as int <= |def.segments|
  {
    def.segments[entry.segmentsStart..entry.segmentsStart as int + entry.segmentsCount as int]
  }

  /** The numbers of an instruction's accounts. */
  function Indexes(def: Definition, entry: InstructionEntry): (r: Bytes)
    requires InPool(def, entry.accountIndexesOffset, entry.accountIndexesLen)
  {
    def.pool[entry.accountIndexesOffset..entry.accountIndexesOffset as int + entry.accountIndexesLen as int]
  }

  predicate AllBelow(s: Bytes, bound: nat)
  {
    forall x :: 0 <= x < |s| ==> s[x] < bound
  }

  /**
   An instruction can be emitted: its program is one of the accounts, its at most 16 account numbers are in the pool and
   each is of an account, its segments are there and good, and together they have at most 1024 bytes.
   */
  predicate InstructionGood(def: Definition, data: Bytes, views: seq<AccountView>, entry: InstructionEntry)
  {
    && entry.programAccountIndex < |views|
    && InPool(def, entry.accountIndexesOffset, entry.accountIndexesLen) && entry.accountIndexesLen <= 16
    && AllBelow(Indexes(def, entry), |views|)
    && entry.segmentsStart as int + entry.segmentsCount as int <= |def.segments|
    && AllGood(def, data, Segments(def, entry))
    && Place(def, data, Segments(def, entry), entry.segmentsCount) <= 1024
  }

  /** What is emitted: the program, the accounts with their entries' flags, the segments laid out. */
  predicate CallIs(def: Definition, data: Bytes, views: seq<AccountView>, entry: InstructionEntry, call: Call)
    requires |views| == |def.accounts| && InstructionGood(def, data, views, entry)
  {
    && call.program == views[entry.programAccountIndex].address
    && |call.accounts| == entry.accountIndexesLen
    && (forall x :: 0 <= x < |call.accounts| ==>
          var y := Indexes(def, entry)[x];
          call.accounts[x] == AccountMeta(address := views[y].address, isWritable := def.accounts[y].isWritable,
                                          isSigner := def.accounts[y].isSigner))
    && LaidOut(def, data, Segments(def, entry), call.data)
  }

  lemma DataIff(def: Definition, data: Bytes, entry: InstructionEntry)
    ensures InstructionData(def, data, entry).Ok? <==>
            && entry.segmentsStart as int + entry.segmentsCount as int <= |def.segments|
            && AllGood(def, data, Segments(def, entry))
            && Place(def, data, Segments(def, entry), entry.segmentsCount) <= 1024
    ensures InstructionData(def, data, entry).Ok? ==>
              LaidOut(def, data, Segments(def, entry), InstructionData(def, data, entry).value)
  {
    hide SegmentGood, Pasted, DataFrom, Place;
    if entry.segmentsStart as int + entry.segmentsCount as int <= |def.segments| {
      var segments := Segments(def, entry);
      DataIsPasted(def, data, segments, []);
      PastedIff(def, data, segments);
      if Pasted(def, data, segments).Ok? {
        assert [] + Pasted(def, data, segments).value == Pasted(def, data, segments).value;
      }
    }
  }

  lemma {:induction false} MetasIff(def: Definition, views: seq<AccountView>, indexes: Bytes)
    requires |views| == |def.accounts|
    ensures Metas(def, views, indexes).Ok? <==> AllBelow(indexes, |views|)
    decreases |indexes|
  {
    if indexes != [] {
      MetasIff(def, views, indexes[1..]);
      assert forall x :: 1 <= x < |indexes| ==> indexes[x] == indexes[1..][x - 1];
    }
  }

  lemma AssembledIff(def: Definition, data: Bytes, views: seq<AccountView>, entry: InstructionEntry)
    requires |views| == |def.accounts|
    ensures Assembled(def, data, views, entry).Ok? <==> InstructionGood(def, data, views, entry)
    ensures InstructionGood(def, data, views, entry) ==>
              CallIs(def, data, views, entry, Assembled(def, data, views, entry).value)
  {
    hide InstructionData, AllGood, LaidOut, Place, Metas, AllBelow;
    DataIff(def, data, entry);
    if InPool(def, entry.accountIndexesOffset, entry.accountIndexesLen) {
      MetasIff(def, views, Indexes(def, entry));
      if Metas(def, views, Indexes(def, entry)).Ok? {
        MetasAre(def, views, Indexes(def, entry));
      }
    }
  }

  lemma MetasAre(def: Definition, views: seq<AccountView>, indexes: Bytes)
    requires |views| == |def.accounts| && Metas(def, views, indexes).Ok?
    ensures |Metas(def, views, indexes).value| == |indexes|
    ensures forall x :: 0 <= x < |indexes| ==>
              && indexes[x] < |views|
              && Metas(def, views, indexes).value[x]
                 == AccountMeta(views[indexes[x]].address, def.accounts[indexes[x]].isWritable,
                                def.accounts[indexes[x]].isSigner)
  {
    forall x | 0 <= x < |indexes|
      ensures |Metas(def, views, indexes).value| == |indexes| && indexes[x] < |views|
      ensures Metas(def, views, indexes).value[x]
              == AccountMeta(views[indexes[x]].address, def.accounts[indexes[x]].isWritable,
                             def.accounts[indexes[x]].isSigner)
    {
      MetasAt(def, views, indexes, x);
    }
  }

  // ---- Accounts ----

  /** The 32 bytes a static entry keeps in the pool. */
  predicate StaticGood(def: Definition, entry: AccountEntry)
  {
    InPool(def, entry.poolOffset, entry.poolLen) && entry.poolLen >= 32
  }

  function StaticAt(def: Definition, entry: AccountEntry): (a: Address)
    requires StaticGood(def, entry)
  {
    def.pool[entry.poolOffset..entry.poolOffset + 32]
  }

  /** The declared account that an entry stands for: the vault, or the first with a static entry's address. */
  function StandsFor(def: Definition, declared: Declared, entry: AccountEntry): (r: Option<AccountView>)
  {
    if entry.sourceType == Vault then Some(declared.vault)
    else if entry.sourceType != Static || !StaticGood(def, entry) then None
    else if StaticAt(def, entry) == declared.vault.address then Some(declared.vault)
    else if StaticAt(def, entry) == declared.system.address then Some(declared.system)
    else if StaticAt(def, entry) == declared.wallet.address then Some(declared.wallet)
    else None
  }

  /** How many of the first `k` entries take an account that is handed in. */
  function HandedIn(def: Definition, declared: Declared, k: nat): (n: nat)
    requires k <= |def.accounts|
    ensures n <= k
  {
    if k == 0 then 0
    else HandedIn(def, declared, k - 1) + if StandsFor(def, declared, def.accounts[k - 1]) == None then 1 else 0
  }

  /** There are at most 32 entries, static ones have their bytes, and enough accounts are handed in. */
  predicate Resolvable(def: Definition, declared: Declared, remaining: seq<AccountView>)
  {
    && |def.accounts| <= 32
    && (forall k :: 0 <= k < |def.accounts| && def.accounts[k].sourceType == Static ==> StaticGood(def,
                                                                                                   def.accounts[k]))
    && HandedIn(def, declared, |def.accounts|) <= |remaining|
  }

  /** The account of entry `k`: the one it stands for, or the next of those handed in. */
  predicate SlotIs(def: Definition, declared: Declared, remaining: seq<AccountView>, k: nat, view: AccountView)
    requires k < |def.accounts|
  {
    match StandsFor(def, declared, def.accounts[k])
    case Some(account) => view == account
    case None => HandedIn(def, declared, k) < |remaining| && view == remaining[HandedIn(def, declared, k)]
  }

  lemma InjectedIff(def: Definition, declared: Declared, entry: AccountEntry)
    ensures Injected(def, declared, entry).Ok? <==> (entry.sourceType == Static ==> StaticGood(def, entry))
    ensures Injected(def, declared, entry).Ok? ==>
              Injected(def, declared, entry).value == StandsFor(def, declared, entry)
  {
    if entry.sourceType == Static && StaticGood(def, entry) {
      var (o, l) := (entry.poolOffset, entry.poolLen);
      assert def.pool[o..o as int + l as int][..32] == def.pool[o..o + 32];
    }
  }

  /** From entry `i` on, when `next` accounts have been taken. */
  predicate ResolvableFrom(def: Definition, declared: Declared, remaining: seq<AccountView>, i: nat)
    requires i <= |def.accounts|
  {
    && (i < |def.accounts| ==> |def.accounts| <= 32)
    && (forall k :: i <= k < |def.accounts| && def.accounts[k].sourceType == Static ==> StaticGood(def,
                                                                                                   def.accounts[k]))
    && (HandedIn(def, declared, |def.accounts|) > HandedIn(def, declared, i) ==>
          HandedIn(def, declared, |def.accounts|) <= |remaining|)
  }

  lemma {:induction false} HandedInGrows(def: Definition, declared: Declared, i: nat, k: nat)
    requires i <= k <= |def.accounts|
    ensures HandedIn(def, declared, i) <= HandedIn(def, declared, k)
    decreases k
  {
    hide StandsFor;
    if i < k {
      HandedInGrows(def, declared, i, k - 1);
    }
  }

  lemma {:induction false} ResolvedFromIff(def: Definition, declared: Declared, remaining: seq<AccountView>, i: nat)
    requires i <= |def.accounts|
    ensures ResolvedFrom(def, declared, remaining, i, HandedIn(def, declared, i)).Ok?
            <==> ResolvableFrom(def, declared, remaining, i)
    decreases |def.accounts| - i
  {
    hide Injected, StandsFor, StaticGood;
    if i < |def.accounts| {
      ResolvedFromIff(def, declared, remaining, i + 1);
      InjectedIff(def, declared, def.accounts[i]);
      HandedInGrows(def, declared, i + 1, |def.accounts|);
    }
  }

  lemma {:induction false} SlotsRight(def: Definition, declared: Declared, remaining: seq<AccountView>,
                                      views: seq<AccountView>, i: nat)
    requires i <= |def.accounts| == |views|
    requires ResolvedFrom(def, declared, remaining, i, HandedIn(def, declared, i)) == Ok(views[i..])
    ensures forall k :: i <= k < |views| ==> SlotIs(def, declared, remaining, k, views[k])
    decreases |views| - i
  {
    hide Injected, StandsFor, StaticGood, ResolvedFrom;
    if i < |views| {
      ResolutionStep(def, declared, remaining, views, i, HandedIn(def, declared, i));
      InjectedIff(def, declared, def.accounts[i]);
      SlotsRight(def, declared, remaining, views, i + 1);
    }
  }

  /** The entries resolve exactly when they can, each to its own account. */
  lemma ResolvedIff(def: Definition, declared: Declared, remaining: seq<AccountView>)
    ensures Resolved(def, declared, remaining).Ok? <==> Resolvable(def, declared, remaining)
    ensures var r := Resolved(def, declared, remaining);
            r.Ok? ==>
              && |r.value| == |def.accounts|
              && forall k :: 0 <= k < |def.accounts| ==> SlotIs(def, declared, remaining, k, r.value[k])
  {
    hide ResolvedFrom, StaticGood, SlotIs, StandsFor;
    ResolvedFromIff(def, declared, remaining, 0);
    var r := Resolved(def, declared, remaining);
    if r.Ok? {
      assert r.value[0..] == r.value;
      SlotsRight(def, declared, remaining, r.value, 0);
    }
  }

  /** A seed: at most 32 pool bytes, at most 32 bytes of the parameter named there, or the address of the account. */
  predicate SeedIs(def: Definition, data: Bytes, views: seq<AccountView>, seed: SeedEntry, bytes: Bytes)
  {
    && InPool(def, seed.poolOffset, seed.poolLen)
    && var (o, l) := (seed.poolOffset as int, seed.poolLen as int);
    match seed.seedType
    case LiteralSeed => l <= 32 && bytes == def.pool[o..o + l]
    case ParamRef => l >= 1 && ParamBytes(def.params, data, def.pool[o]) == Ok(bytes) && |bytes| <= 32
    case AccountRef => l >= 1 && def.pool[o] < |views| && bytes == views[def.pool[o]].address
  }

  lemma SeedIff(def: Definition, data: Bytes, views: seq<AccountView>, seed: SeedEntry, bytes: Bytes)
    ensures SeedBytes(def, data, views, seed) == Ok(bytes) <==> SeedIs(def, data, views, seed, bytes)
  {
    hide ParamBytes;
  }

  /** The address is derived under the program from seeds `from` to `from + |seeds|`. */
  predicate DerivedWith(env: Env, def: Definition, data: Bytes, views: seq<AccountView>, s: Bytes, seeds: seq<Bytes>,
                        address: Address)
  {
    && |s| >= 5 && s[0] < |views| && |seeds| == TwoBytes(s[3], s[4]) <= 16
    && (|seeds| > 0 ==> TwoBytes(s[1], s[2]) + |seeds| <= |def.seeds|)
    && (forall q :: 0 <= q < |seeds| ==> SeedIs(def, data, views, def.seeds[TwoBytes(s[1], s[2]) + q], seeds[q]))
    && env.findProgramAddress(seeds, views[s[0]].address) == Some(address)
  }

  ghost predicate Derived(env: Env, def: Definition, data: Bytes, views: seq<AccountView>, s: Bytes, address: Address)
  {
    exists seeds :: DerivedWith(env, def, data, views, s, seeds, address)
  }

  /** The account has the address that its entry names, kind by kind. */
  ghost predicate Named(env: Env, def: Definition, data: Bytes, views: seq<AccountView>, entry: AccountEntry,
                        address: Address)
  {
    var (o, l) := (entry.poolOffset as int, entry.poolLen as int);
    match entry.sourceType
    case Vault => address == env.vaultAddress
    case Static => StaticGood(def, entry) && address == StaticAt(def, entry)
    case Param =>
      && InPool(def, entry.poolOffset, entry.poolLen) && l >= 1
      && var val := ParamBytes(def.params, data, def.pool[o]);
      && val.Ok? && |val.value| >= 32 && address == val.value[..32]
    case HasOne =>
      && InPool(def, entry.poolOffset, entry.poolLen) && l >= 3 && def.pool[o] < |views|
      && var (from, stored) := (TwoBytes(def.pool[o + 1], def.pool[o + 2]), views[def.pool[o]].data);
      && from + 32 <= |stored| && address == stored[from..from + 32]
    case PdaDerived =>
      InPool(def, entry.poolOffset, entry.poolLen) && Derived(env, def, data, views, def.pool[o..o + l], address)
  }

  lemma {:induction false} SeedsIff(def: Definition, data: Bytes, views: seq<AccountView>, from: nat, seeds: seq<Bytes>)
    ensures SeedsFrom(def, data, views, from, |seeds|) == Ok(seeds) <==>
            && (|seeds| > 0 ==> from + |seeds| <= |def.seeds|)
            && forall q :: 0 <= q < |seeds| ==> SeedIs(def, data, views, def.seeds[from + q], seeds[q])
    decreases |seeds|
  {
    hide SeedBytes, SeedIs;
    if seeds != [] && from < |def.seeds| {
      SeedsIff(def, data, views, from + 1, seeds[1..]);
      SeedIff(def, data, views, def.seeds[from], seeds[0]);
      assert seeds == [seeds[0]] + seeds[1..];
      SeedsUnfold(def, data, views, from, seeds);
      if from + |seeds| <= |def.seeds| {
        SeedsShift(def, data, views, from, seeds);
      }
    }
  }

  lemma SeedsUnfold(def: Definition, data: Bytes, views: seq<AccountView>, from: nat, seeds: seq<Bytes>)
    requires seeds != [] && from < |def.seeds|
    ensures SeedsFrom(def, data, views, from, |seeds|) == Ok(seeds) <==>
            && SeedBytes(def, data, views, def.seeds[from]) == Ok(seeds[0])
            && SeedsFrom(def, data, views, from + 1, |seeds| - 1) == Ok(seeds[1..])
  {
    hide SeedBytes;
    var seed := SeedBytes(def, data, views, def.seeds[from]);
    var rest := SeedsFrom(def, data, views, from + 1, |seeds| - 1);
    assert seeds == [seeds[0]] + seeds[1..];
    if seed.Ok? && rest.Ok? && [seed.value] + rest.value == seeds {
      assert ([seed.value] + rest.value)[0] == seed.value && ([seed.value] + rest.value)[1..] == rest.value;
    }
  }

  lemma SeedsShift(def: Definition, data: Bytes, views: seq<AccountView>, from: nat, seeds: seq<Bytes>)
    requires seeds != [] && from + |seeds| <= |def.seeds|
    ensures (forall q :: 0 <= q < |seeds| ==> SeedIs(def, data, views, def.seeds[from + q], seeds[q])) <==>
            && SeedIs(def, data, views, def.seeds[from], seeds[0])
            && forall q :: 0 <= q < |seeds| - 1 ==> SeedIs(def, data, views, def.seeds[from + 1 + q], seeds[1..][q])
  {
    hide SeedIs;
    if SeedIs(def, data, views, def.seeds[from], seeds[0])
       && forall q :: 0 <= q < |seeds| - 1 ==> SeedIs(def, data, views, def.seeds[from + 1 + q], seeds[1..][q]) {
      forall q | 0 <= q < |seeds|
        ensures SeedIs(def, data, views, def.seeds[from + q], seeds[q])
      {
        if q > 0 {
          assert SeedIs(def, data, views, def.seeds[from + 1 + (q - 1)], seeds[1..][q - 1]);
        }
      }
    }
  }

  lemma PdaIff(env: Env, def: Definition, data: Bytes, views: seq<AccountView>, s: Bytes, address: Address)
    ensures PdaAddress(env, def, data, views, s) == Ok(address) <==> Derived(env, def, data, views, s, address)
  {
    hide SeedsFrom, SeedIs;
    if |s| >= 5 && s[0] < |views| && TwoBytes(s[3], s[4]) <= 16 {
      var (start, count) := (TwoBytes(s[1], s[2]), TwoBytes(s[3], s[4]));
      var r := SeedsFrom(def, data, views, start, count);
      if r.Ok? {
        SeedsCount(def, data, views, start, count);
        SeedsIff(def, data, views, start, r.value);
        assert DerivedWith(env, def, data, views, s, r.value, address)
               <==> env.findProgramAddress(r.value, views[s[0]].address) == Some(address);
      }
      forall seeds | DerivedWith(env, def, data, views, s, seeds, address)
        ensures r == Ok(seeds)
      {
        SeedsIff(def, data, views, start, seeds);
      }
    }
  }

  lemma NamedIff(env: Env, def: Definition, data: Bytes, views: seq<AccountView>, entry: AccountEntry,
                 address: Address)
    ensures NamedAddress(env, def, data, views, entry) == Ok(address)
            <==> Named(env, def, data, views, entry, address)
  {
    hide PdaAddress, ParamBytes, Derived;
    var (o, l) := (entry.poolOffset as int, entry.poolLen as int);
    if InPool(def, entry.poolOffset, entry.poolLen) {
      PdaIff(env, def, data, views, def.pool[o..o + l], address);
      if l >= 32 {
        assert def.pool[o..o + l][..32] == def.pool[o..o + 32];
      }
    }
  }

  // ---- The whole execution ----

  /** Every account has the address its entry names. */
  ghost predicate AllNamed(env: Env, def: Definition, data: Bytes, views: seq<AccountView>)
    requires |views| == |def.accounts|
  {
    forall k :: 0 <= k < |views| ==> Named(env, def, data, views, def.accounts[k], views[k].address)
  }

  predicate AllSlots(def: Definition, declared: Declared, remaining: seq<AccountView>, views: seq<AccountView>)
  {
    |views| == |def.accounts| && forall k :: 0 <= k < |views| ==> SlotIs(def, declared, remaining, k, views[k])
  }

  predicate AllInstructionsGood(def: Definition, data: Bytes, views: seq<AccountView>)
  {
    forall j :: 0 <= j < |def.instructions| ==> InstructionGood(def, data, views, def.instructions[j])
  }

  predicate AllCalls(def: Definition, data: Bytes, views: seq<AccountView>, calls: seq<Call>)
    requires |views| == |def.accounts| && AllInstructionsGood(def, data, views)
  {
    && |calls| == |def.instructions|
    && forall j :: 0 <= j < |calls| ==> CallIs(def, data, views, def.instructions[j], calls[j])
  }

  lemma {:induction false} CallsFromIff(def: Definition, data: Bytes, views: seq<AccountView>, i: nat)
    requires |views| == |def.accounts| && i <= |def.instructions|
    ensures CallsFrom(def, data, views, i).Ok?
            <==> forall j :: i <= j < |def.instructions| ==> InstructionGood(def, data, views, def.instructions[j])
    decreases |def.instructions| - i
  {
    hide Assembled, InstructionGood;
    if i < |def.instructions| {
      CallsFromIff(def, data, views, i + 1);
      AssembledIff(def, data, views, def.instructions[i]);
    }
  }

  lemma CallsIff(def: Definition, data: Bytes, views: seq<AccountView>)
    requires |views| == |def.accounts|
    ensures CallsFrom(def, data, views, 0).Ok? <==> AllInstructionsGood(def, data, views)
    ensures AllInstructionsGood(def, data, views) ==> AllCalls(def, data, views, CallsFrom(def, data, views, 0).value)
  {
    hide Assembled, InstructionGood, CallIs, CallsFrom;
    CallsFromIff(def, data, views, 0);
    if AllInstructionsGood(def, data, views) {
      var calls := CallsFrom(def, data, views, 0).value;
      CallsRight(def, data, views);
      forall j | 0 <= j < |def.instructions|
        ensures CallIs(def, data, views, def.instructions[j], calls[j])
      {
        CallsAt(def, data, views, 0, j);
        AssembledIff(def, data, views, def.instructions[j]);
      }
    }
  }

  lemma CheckedIsNamed(env: Env, def: Definition, data: Bytes, views: seq<AccountView>)
    requires |views| == |def.accounts|
    ensures CheckedFrom(env, def, data, views, 0).Ok? <==> AllNamed(env, def, data, views)
  {
    hide NamedAddress, Named, CheckedFrom;
    CheckedIff(env, def, data, views, 0);
    forall k | 0 <= k < |views|
      ensures NamedAddress(env, def, data, views, def.accounts[k]) == Ok(views[k].address)
              <==> Named(env, def, data, views, def.accounts[k], views[k].address)
    {
      NamedIff(env, def, data, views, def.accounts[k], views[k].address);
    }
  }

  /**
   A custom execution succeeds if and only if its entries resolve, every account has the address its entry names and
   every instruction can be emitted; what it emits is then, for each instruction, the program, accounts and bytes that
   its entries say.
   */
  lemma ExecutedIff(env: Env, def: Definition, data: Bytes, declared: Declared, remaining: seq<AccountView>)
    returns (views: seq<AccountView>)
    ensures Executed(env, def, data, declared, remaining).Ok? <==>
            && Resolvable(def, declared, remaining) && |views| == |def.accounts|
            && AllNamed(env, def, data, views) && AllInstructionsGood(def, data, views)
    ensures Resolvable(def, declared, remaining) ==> AllSlots(def, declared, remaining, views)
    ensures Executed(env, def, data, declared, remaining).Ok? ==>
              AllCalls(def, data, views, Executed(env, def, data, declared, remaining).value)
  {
    hide Resolved, Resolvable, AllNamed, CheckedFrom, CallsFrom, AllInstructionsGood, AllCalls, SlotIs;
    ResolvedIff(def, declared, remaining);
    if Resolved(def, declared, remaining).Ok? {
      views := Resolved(def, declared, remaining).value;
      CheckedIsNamed(env, def, data, views);
      CallsIff(def, data, views);
    } else {
      views := [];
    }
  }

  /** Which accounts the entries resolve to is settled by what each one says. */
  lemma SlotsDetermine(def: Definition, declared: Declared, remaining: seq<AccountView>, v1: seq<AccountView>,
                       v2: seq<AccountView>)
    requires AllSlots(def, declared, remaining, v1) && AllSlots(def, declared, remaining, v2)
    ensures v1 == v2
  {
    hide StandsFor;
  }
}
