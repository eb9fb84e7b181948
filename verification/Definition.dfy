/** utils/definition.rs and the record part of state/intent.rs: what an intent account defines. */
module Definition {
  import opened Bytes

  datatype ParamType =
    | AddressParam | U64Param | I64Param | StringParam | BoolParam | U8Param | U16Param | U32Param | U128Param

  datatype ConstraintType = Unconstrained | LessThanU64 | GreaterThanU64

  datatype AccountSourceType = Static | Param | PdaDerived | HasOne | Vault

  datatype SegmentType = LiteralSegment | ParamSegment

  datatype SeedType = LiteralSeed | ParamRef | AccountRef

  datatype DataEncoding =
    | RawAddress | LittleEndianU64 | LittleEndianI64 | BoolEncoding
    | LittleEndianU8 | LittleEndianU16 | LittleEndianU32 | LittleEndianU128

  datatype ParamEntry = ParamEntry(paramType: ParamType, constraintType: ConstraintType, constraintValue: u64)

  datatype AccountEntry =
    AccountEntry(isSigner: bool, isWritable: bool, sourceType: AccountSourceType, poolOffset: u16, poolLen: u16)

  datatype InstructionEntry =
    InstructionEntry(programAccountIndex: byte, accountIndexesOffset: u16, accountIndexesLen: u16,
                     segmentsStart: u16, segmentsCount: u16)

  datatype DataSegmentEntry = DataSegmentEntry(segmentType: SegmentType, poolOffset: u16, poolLen: u16)

  datatype SeedEntry = SeedEntry(seedType: SeedType, poolOffset: u16, poolLen: u16)

  datatype IntentType = AddIntent | RemoveIntent | UpdateIntent | Custom

  /** Every field of an intent that only a whole-account write can change. */
  datatype Definition = Definition(
    wallet: Address,
    intentType: IntentType,
    approvalThreshold: byte,
    cancellationThreshold: byte,
    timelockSeconds: u32,
    templateOffset: u16,
    templateLen: u16,
    proposers: seq<Address>,
    approvers: seq<Address>,
    params: seq<ParamEntry>,
    accounts: seq<AccountEntry>,
    instructions: seq<InstructionEntry>,
    segments: seq<DataSegmentEntry>,
    seeds: seq<SeedEntry>,
    pool: Bytes)

  /** An intent account: its definition, its on/off switch and its count of open proposals. */
  datatype Intent = Intent(def: Definition, approved: byte, activeProposalCount: u16)

  /**
   What the program takes from its surroundings: hashing, UTF-8 validity, signature checks, address derivation,
   the reading of raw account bytes, the addresses of its own seeds, and the two size constants.
   */
  datatype Env = Env(
    sha256: Bytes -> Digest,
    utf8: Bytes -> bool,
    verifies: (Address, Bytes, Bytes) -> bool,
    findProgramAddress: (seq<Bytes>, Address) -> Option<Address>,
    intentAddress: byte -> Address,
    decodeIntent: Bytes -> Intent,
    walletAddress: Address,
    vaultAddress: Address,
    systemAddress: Address,
    paramsCap: nat,
    intentBodySize: nat)

  function ParamByteSize(paramType: ParamType, data: Bytes, offset: nat): (r: Result<nat>)
  {
    match paramType
    case AddressParam => Ok(32)
    case U64Param => Ok(8)
    case I64Param => Ok(8)
    case StringParam =>
      if offset < |data| then
        var len: nat := data[offset];
        Ok(1 + len)
      else Err(InvalidInstructionData)
    case BoolParam => Ok(1)
    case U8Param => Ok(1)
    case U16Param => Ok(2)
    case U32Param => Ok(4)
    case U128Param => Ok(16)
  }

  /** `DataEncoding::from_u8`. */
  function EncodingFromByte(v: byte): (r: Option<DataEncoding>)
  {
    match v
    case 0 => Some(RawAddress)
    case 1 => Some(LittleEndianU64)
    case 2 => Some(LittleEndianI64)
    case 3 => Some(BoolEncoding)
    case 4 => Some(LittleEndianU8)
    case 5 => Some(LittleEndianU16)
    case 6 => Some(LittleEndianU32)
    case 7 => Some(LittleEndianU128)
    case _ => None
  }

  /** `DataEncoding::byte_size`. */
  function EncodingSize(encoding: DataEncoding): (r: nat)
  {
    match encoding
    case RawAddress => 32
    case LittleEndianU64 => 8
    case LittleEndianI64 => 8
    case BoolEncoding => 1
    case LittleEndianU8 => 1
    case LittleEndianU16 => 2
    case LittleEndianU32 => 4
    case LittleEndianU128 => 16
  }
}
