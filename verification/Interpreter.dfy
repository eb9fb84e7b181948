/** The custom-intent interpreter of instructions/execute.rs: account resolution, validation and CPI assembly. */
module Interpreter {
  import opened Bytes
  import opened Definition
  import Params

  datatype AccountView = AccountView(address: Address, data: Bytes, isSigner: bool, isWritable: bool)

  /** The accounts `Execute` declares itself. */
  datatype Declared = Declared(vault: AccountView, system: AccountView, wallet: AccountView)

  datatype AccountMeta = AccountMeta(address: Address, isWritable: bool, isSigner: bool)

  /** One instruction handed to `invoke_signed_unchecked`. */
  datatype Call = Call(program: Address, accounts: seq<AccountMeta>, data: Bytes)

  const MAX_ACCOUNTS: nat := 32
  const MAX_DATA: nat := 1024

  // ---- Pool slices ----

  function PoolSlice(def: Definition, offset: u16, len: u16): (r: Result<Bytes>)
  {
    match GetSlice(def.pool, offset, offset as nat + len as nat)
    case Some(s) => Ok(s)
    case None => Err(InvalidInstructionData)
  }

  function FirstAddress(s: Bytes): (r: Result<Address>)
  {
    if |s| >= 32 then Ok(s[..32]) else Err(InvalidInstructionData)
  }

  function Le16(lo: byte, hi: byte): (r: nat)
  {
    lo + 0x100 * hi
  }

  // ---- Account resolution ----

  function FindDeclared(declared: Declared, address: Address): (r: Option<AccountView>)
  {
    if declared.vault.address == address then Some(declared.vault)
    else if declared.system.address == address then Some(declared.system)
    else if declared.wallet.address == address then Some(declared.wallet)
    else None
  }

  function StaticAddress(def: Definition, entry: AccountEntry): (r: Result<Address>)
  {
    var s :- PoolSlice(def, entry.poolOffset, entry.poolLen);
    FirstAddress(s)
  }

  /** The account an entry injects, or `None` when it takes the next remaining account. */
  function Injected(def: Definition, declared: Declared, entry: AccountEntry): (r: Result<Option<AccountView>>)
  {
    match entry.sourceType
    case Vault => Ok(Some(declared.vault))
    case Static =>
      var address :- StaticAddress(def, entry);
      Ok(FindDeclared(declared, address))
    case _ => Ok(None)
  }

  /** The accounts of entries `i`.., taking remaining accounts from `next` on. */
  function ResolvedFrom(def: Definition, declared: Declared, remaining: seq<AccountView>, i: nat, next: nat)
    : (r: Result<seq<AccountView>>)
    requires i <= |def.accounts|
    ensures r.Ok? ==> |r.value| == |def.accounts| - i
    ensures r.Ok? && i <= MAX_ACCOUNTS ==> |def.accounts| <= MAX_ACCOUNTS
    decreases |def.accounts| - i
  {
    if i == |def.accounts| then Ok([])
    else if i >= MAX_ACCOUNTS then Err(InvalidArgument)
    else
      var injected :- Injected(def, declared, def.accounts[i]);
      if injected == None && next >= |remaining| then Err(NotEnoughAccountKeys)
      else
        var view := if injected.Some? then injected.value else remaining[next];
        var rest :- ResolvedFrom(def, declared, remaining, i + 1, if injected.Some? then next else next + 1);
        Ok([view] + rest)
  }

  function Resolved(def: Definition, declared: Declared, remaining: seq<AccountView>): (r: Result<seq<AccountView>>)
  {
    ResolvedFrom(def, declared, remaining, 0, 0)
  }

  // ---- The address each entry names ----

  function SeedBytes(def: Definition, data: Bytes, views: seq<AccountView>, seed: SeedEntry): (r: Result<Bytes>)
  {
    var s :- PoolSlice(def, seed.poolOffset, seed.poolLen);
    match seed.seedType
    case LiteralSeed => if |s| <= 32 then Ok(s) else Err(InvalidInstructionData)
    case ParamRef =>
      if s == [] then Err(InvalidInstructionData)
      else
        var val :- Params.ParamBytes(def.params, data, s[0]);
        if |val| <= 32 then Ok(val) else Err(InvalidInstructionData)
    case AccountRef =>
      if s == [] then Err(InvalidInstructionData)
      else if s[0] >= |views| then Err(NotEnoughAccountKeys)
      else Ok(views[s[0]].address)
  }

  /** `count` seeds of the seed table, starting at `from`. */
  function SeedsFrom(def: Definition, data: Bytes, views: seq<AccountView>, from: nat, count: nat)
    : (r: Result<seq<Bytes>>)
    decreases count
  {
    if count == 0 then Ok([])
    else if from >= |def.seeds| then Err(InvalidInstructionData)
    else
      var seed :- SeedBytes(def, data, views, def.seeds[from]);
      var rest :- SeedsFrom(def, data, views, from + 1, count - 1);
      Ok([seed] + rest)
  }

  function PdaAddress(env: Env, def: Definition, data: Bytes, views: seq<AccountView>, s: Bytes): (r: Result<Address>)
  {
    if |s| < 5 then Err(InvalidInstructionData)
    else if s[0] >= |views| then Err(NotEnoughAccountKeys)
    else if Le16(s[3], s[4]) > 16 then Err(InvalidInstructionData)
    else
      var start := Le16(s[1], s[2]);
      var seeds :- SeedsFrom(def, data, views, start, Le16(s[3], s[4]));
      match env.findProgramAddress(seeds, views[s[0]].address)
      case Some(address) => Ok(address)
      case None => Err(Panic)
  }

  function HasOneAddress(views: seq<AccountView>, s: Bytes): (r: Result<Address>)
  {
    if |s| < 3 then Err(InvalidInstructionData)
    else if s[0] >= |views| then Err(NotEnoughAccountKeys)
    else
      var offset := Le16(s[1], s[2]);
      match GetSlice(views[s[0]].data, offset, offset + 32)
      case Some(address) => Ok(address)
      case None => Err(InvalidInstructionData)
  }

  /** The address an entry names: vault, static, parameter, derived, or stored in another account. */
  function NamedAddress(env: Env, def: Definition, data: Bytes, views: seq<AccountView>, entry: AccountEntry)
    : (r: Result<Address>)
  {
    match entry.sourceType
    case Vault => Ok(env.vaultAddress)
    case Static => StaticAddress(def, entry)
    case Param =>
      var s :- PoolSlice(def, entry.poolOffset, entry.poolLen);
      if s == [] then Err(InvalidInstructionData)
      else
        var val :- Params.ParamBytes(def.params, data, s[0]);
        FirstAddress(val)
    case PdaDerived =>
      var s :- PoolSlice(def, entry.poolOffset, entry.poolLen);
      PdaAddress(env, def, data, views, s)
    case HasOne =>
      var s :- PoolSlice(def, entry.poolOffset, entry.poolLen);
      HasOneAddress(views, s)
  }

  function CheckedFrom(env: Env, def: Definition, data: Bytes, views: seq<AccountView>, i: nat): (r: Result<()>)
    requires i <= |views| == |def.accounts|
    decreases |views| - i
  {
    if i == |views| then Ok(())
    else
      var expected :- NamedAddress(env, def, data, views, def.accounts[i]);
      if views[i].address != expected then Err(InvalidArgument)
      else CheckedFrom(env, def, data, views, i + 1)
  }

  // ---- CPI assembly ----

  /** `pool[a..(a + len) as u16]`, whose end wraps at 16 bits and whose slicing aborts out of range. */
  function SegmentPool(def: Definition, segment: DataSegmentEntry): (r: Result<Bytes>)
  {
    match GetSlice(def.pool, segment.poolOffset, (segment.poolOffset as nat + segment.poolLen as nat) % 0x1_0000)
    case Some(s) => Ok(s)
    case None => Err(Panic)
  }

  /** The bytes a segment contributes to the instruction data. */
  function SegmentBytes(def: Definition, data: Bytes, segment: DataSegmentEntry): (r: Result<Bytes>)
  {
    var s :- SegmentPool(def, segment);
    match segment.segmentType
    case LiteralSegment => Ok(s)
    case ParamSegment =>
      if |s| < 2 then Err(InvalidInstructionData)
      else
        match EncodingFromByte(s[1])
        case None => Err(InvalidInstructionData)
        case Some(encoding) =>
          var val :- Params.ParamBytes(def.params, data, s[0]);
          if |val| < EncodingSize(encoding) then Err(InvalidInstructionData) else Ok(val[..EncodingSize(encoding)])
  }

  /** The instruction data once `done` has been written and `segments` are still to come. */
  function DataFrom(def: Definition, data: Bytes, segments: seq<DataSegmentEntry>, done: Bytes): (r: Result<Bytes>)
    decreases |segments|
  {
    if segments == [] then Ok(done)
    else
      var piece :- SegmentBytes(def, data, segments[0]);
      if |done| + |piece| > MAX_DATA then Err(InvalidInstructionData)
      else DataFrom(def, data, segments[1..], done + piece)
  }

  function InstructionData(def: Definition, data: Bytes, entry: InstructionEntry): (r: Result<Bytes>)
  {
    var (from, to) := (entry.segmentsStart, entry.segmentsStart as nat + entry.segmentsCount as nat);
    if to > |def.segments| then Err(Panic) else DataFrom(def, data, def.segments[from..to], [])
  }

  function Metas(def: Definition, views: seq<AccountView>, indexes: Bytes): (r: Result<seq<AccountMeta>>)
    requires |views| == |def.accounts|
  {
    if indexes == [] then Ok([])
    else if indexes[0] >= |views| then Err(NotEnoughAccountKeys)
    else
      var entry := def.accounts[indexes[0]];
      var rest :- Metas(def, views, indexes[1..]);
      Ok([AccountMeta(views[indexes[0]].address, entry.isWritable, entry.isSigner)] + rest)
  }

  function Assembled(def: Definition, data: Bytes, views: seq<AccountView>, entry: InstructionEntry): (r: Result<Call>)
    requires |views| == |def.accounts|
  {
    if entry.programAccountIndex >= |views| then Err(NotEnoughAccountKeys)
    else
      var from := entry.accountIndexesOffset;
      match GetSlice(def.pool, from, from as nat + entry.accountIndexesLen as nat)
      case None => Err(Panic)
      case Some(indexes) =>
        if |indexes| > 16 then Err(InvalidInstructionData)
        else
          var metas :- Metas(def, views, indexes);
          var ixData :- InstructionData(def, data, entry);
          Ok(Call(views[entry.programAccountIndex].address, metas, ixData))
  }

  function CallsFrom(def: Definition, data: Bytes, views: seq<AccountView>, i: nat): (r: Result<seq<Call>>)
    requires |views| == |def.accounts| && i <= |def.instructions|
    decreases |def.instructions| - i
  {
    if i == |def.instructions| then Ok([])
    else
      var call :- Assembled(def, data, views, def.instructions[i]);
      var rest :- CallsFrom(def, data, views, i + 1);
      Ok([call] + rest)
  }

  /** What executing a custom proposal emits. */
  function Executed(env: Env, def: Definition, data: Bytes, declared: Declared, remaining: seq<AccountView>)
    : (r: Result<seq<Call>>)
  {
    var views :- Resolved(def, declared, remaining);
    var checked :- CheckedFrom(env, def, data, views, 0);
    CallsFrom(def, data, views, 0)
  }
}
