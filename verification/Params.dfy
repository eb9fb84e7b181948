/** The walkers over `params_data` in state/intent.rs and utils/message.rs, and why they agree. */
module Params {
  import opened Bytes
  import opened Definition

  // ---- What the walkers compute ----

  /** Where parameter `target` starts: the sizes of the earlier parameters, added up. */
  function ParamStart(params: seq<ParamEntry>, data: Bytes, target: nat): (r: Result<nat>)
  {
    if target == 0 then Ok(0)
    else
      var start :- ParamStart(params, data, target - 1);
      var size :- ParamSizeAt(params, data, target - 1, start);
      Ok(start + size)
  }

  function ParamSizeAt(params: seq<ParamEntry>, data: Bytes, index: nat, offset: nat): (r: Result<nat>)
  {
    if index < |params| then ParamByteSize(params[index].paramType, data, offset) else Err(InvalidInstructionData)
  }

  /** The raw bytes of a parameter. */
  function ParamBytes(params: seq<ParamEntry>, data: Bytes, index: nat): (r: Result<Bytes>)
  {
    var start :- ParamStart(params, data, index);
    var size :- ParamSizeAt(params, data, index, start);
    match GetSlice(data, start, start + size)
    case Some(s) => Ok(s)
    case None => Err(InvalidInstructionData)
  }

  /** The check of one parameter at `offset`, giving the offset of the next. */
  function CheckParam(param: ParamEntry, data: Bytes, offset: nat, utf8: Bytes -> bool): (r: Result<nat>)
  {
    var size :- ParamByteSize(param.paramType, data, offset);
    match GetSlice(data, offset, offset + size)
    case None => Err(InvalidInstructionData)
    case Some(s) =>
      if param.paramType == U64Param && !WithinBound(param, FromLE(s)) then Err(InvalidArgument)
      else if param.paramType == StringParam && !utf8(s[1..]) then Err(InvalidInstructionData)
      else Ok(offset + size)
  }

  predicate WithinBound(param: ParamEntry, val: nat)
  {
    match param.constraintType
    case Unconstrained => true
    case LessThanU64 => val < param.constraintValue
    case GreaterThanU64 => val > param.constraintValue
  }

  function CheckFrom(params: seq<ParamEntry>, data: Bytes, index: nat, offset: nat, utf8: Bytes -> bool)
    : (r: Result<nat>)
    requires index <= |params|
    decreases |params| - index
  {
    if index == |params| then Ok(offset)
    else
      var next :- CheckParam(params[index], data, offset, utf8);
      CheckFrom(params, data, index + 1, next, utf8)
  }

  /** The verdict of `validate_param_constraints`. */
  function Validated(params: seq<ParamEntry>, data: Bytes, utf8: Bytes -> bool): (r: Result<()>)
  {
    match CheckFrom(params, data, 0, 0, utf8)
    case Ok(_) => Ok(())
    case Err(e) => Err(e)
  }

  // ---- The loops ----

  /** `param_offset` in utils/message.rs. */
  method ParamOffset(params: seq<ParamEntry>, data: Bytes, target: byte) returns (r: Result<nat>)
    ensures r == ParamStart(params, data, target)
  {
    var off: nat := 0;
    for i := 0 to target
      invariant ParamStart(params, data, i) == Ok(off)
    {
      if i >= |params| {
        StartErrorStays(params, data, i + 1, target);
        return Err(InvalidInstructionData);
      }
      var size := ParamByteSize(params[i].paramType, data, off);
      if size.Err? {
        StartErrorStays(params, data, i + 1, target);
        return Err(size.error);
      }
      off := off + size.value;
    }
    r := Ok(off);
  }

  lemma {:induction false} StartErrorStays(params: seq<ParamEntry>, data: Bytes, i: nat, target: nat)
    requires i <= target && ParamStart(params, data, i).Err?
    ensures ParamStart(params, data, target) == ParamStart(params, data, i)
    decreases target
  {
    if i < target {
      StartErrorStays(params, data, i, target - 1);
    }
  }

  /** `read_param_bytes`, which walks the earlier parameters with a loop of its own. */
  method ReadParamBytes(params: seq<ParamEntry>, data: Bytes, index: byte) returns (r: Result<Bytes>)
    ensures r == ParamBytes(params, data, index)
  {
    var offset: nat := 0;
    for i := 0 to index
      invariant ParamStart(params, data, i) == Ok(offset)
    {
      if i >= |params| {
        StartErrorStays(params, data, i + 1, index);
        return Err(InvalidInstructionData);
      }
      var size := ParamByteSize(params[i].paramType, data, offset);
      if size.Err? {
        StartErrorStays(params, data, i + 1, index);
        return Err(size.error);
      }
      offset := offset + size.value;
    }
    if index >= |params| {
      return Err(InvalidInstructionData);
    }
    var size := ParamByteSize(params[index].paramType, data, offset);
    if size.Err? {
      return Err(size.error);
    }
    if offset + size.value > |data| {
      return Err(InvalidInstructionData);
    }
    r := Ok(data[offset..offset + size.value]);
  }

  /** `validate_param_constraints`. */
  method ValidateParamConstraints(params: seq<ParamEntry>, data: Bytes, utf8: Bytes -> bool) returns (r: Result<()>)
    ensures r == Validated(params, data, utf8)
  {
    var offset: nat := 0;
    for i := 0 to |params|
      invariant CheckFrom(params, data, 0, 0, utf8) == CheckFrom(params, data, i, offset, utf8)
    {
      var next := ValidateParam(params[i], data, offset, utf8);
      if next.Err? {
        return Err(next.error);
      }
      offset := next.value;
    }
    r := Ok(());
  }

  /** The body of the validation loop: every parameter type has its own bounds check. */
  method ValidateParam(param: ParamEntry, data: Bytes, offset: nat, utf8: Bytes -> bool) returns (r: Result<nat>)
    ensures r == CheckParam(param, data, offset, utf8)
  {
    match param.paramType {
      case U64Param =>
        if offset + 8 > |data| {
          return Err(InvalidInstructionData);
        }
        var val := FromLE(data[offset..offset + 8]);
        if param.constraintType == LessThanU64 {
          if !(val < param.constraintValue) {
            return Err(InvalidArgument);
          }
        } else if param.constraintType == GreaterThanU64 {
          if !(val > param.constraintValue) {
            return Err(InvalidArgument);
          }
        }
        r := Ok(offset + 8);
      case StringParam =>
        if offset >= |data| {
          return Err(InvalidInstructionData);
        }
        var len: nat := data[offset];
        var start := offset + 1;
        if start + len > |data| {
          return Err(InvalidInstructionData);
        }
        assert data[offset..start + len][1..] == data[start..start + len];
        if !utf8(data[start..start + len]) {
          return Err(InvalidInstructionData);
        }
        r := Ok(start + len);
      case AddressParam =>
        r := if offset + 32 <= |data| then Ok(offset + 32) else Err(InvalidInstructionData);
      case I64Param =>
        r := if offset + 8 <= |data| then Ok(offset + 8) else Err(InvalidInstructionData);
      case BoolParam =>
        r := if offset < |data| then Ok(offset + 1) else Err(InvalidInstructionData);
      case U8Param =>
        r := if offset < |data| then Ok(offset + 1) else Err(InvalidInstructionData);
      case U16Param =>
        r := if offset + 2 <= |data| then Ok(offset + 2) else Err(InvalidInstructionData);
      case U32Param =>
        r := if offset + 4 <= |data| then Ok(offset + 4) else Err(InvalidInstructionData);
      case U128Param =>
        r := if offset + 16 <= |data| then Ok(offset + 16) else Err(InvalidInstructionData);
    }
  }

  // ---- Why they agree ----

  /** What validation promises of one parameter's bytes: an exclusive bound on a u64, and text behind a length byte. */
  predicate Admissible(param: ParamEntry, s: Bytes, utf8: Bytes -> bool)
  {
    && (param.paramType == U64Param && param.constraintType == LessThanU64 ==> FromLE(s) < param.constraintValue)
    && (param.paramType == U64Param && param.constraintType == GreaterThanU64 ==> FromLE(s) > param.constraintValue)
    && (param.paramType == StringParam ==> s != [] && utf8(s[1..]))
  }

  /** Parameters `from`.. start where the walk left off, are readable and admissible. */
  predicate ReadableFrom(params: seq<ParamEntry>, data: Bytes, from: nat, utf8: Bytes -> bool)
  {
    forall i :: from <= i < |params| ==>
      ParamBytes(params, data, i).Ok? && Admissible(params[i], ParamBytes(params, data, i).value, utf8)
  }

  lemma CheckStep(params: seq<ParamEntry>, data: Bytes, i: nat, offset: nat, utf8: Bytes -> bool)
    requires i < |params| && ParamStart(params, data, i) == Ok(offset)
    ensures var c := CheckParam(params[i], data, offset, utf8);
            && (c.Ok? <==> ParamBytes(params, data, i).Ok? && Admissible(params[i], ParamBytes(params, data, i).value,
                                                                         utf8))
            && (c.Ok? ==> ParamStart(params, data, i + 1) == Ok(c.value)
                          && offset <= c.value <= |data|
                          && ParamBytes(params, data, i) == Ok(data[offset..c.value]))
  {}

  lemma {:induction false} CheckIff(params: seq<ParamEntry>, data: Bytes, i: nat, offset: nat, utf8: Bytes -> bool)
    requires i <= |params| && ParamStart(params, data, i) == Ok(offset)
    ensures CheckFrom(params, data, i, offset, utf8).Ok? <==> ReadableFrom(params, data, i, utf8)
    decreases |params| - i
  {
    if i < |params| {
      CheckStep(params, data, i, offset, utf8);
      var c := CheckParam(params[i], data, offset, utf8);
      if c.Ok? {
        CheckIff(params, data, i + 1, c.value, utf8);
      }
    }
  }

  /** Validation accepts exactly the data every declared parameter of which reads back and meets its constraint. */
  lemma ValidatedIff(params: seq<ParamEntry>, data: Bytes, utf8: Bytes -> bool)
    ensures Validated(params, data, utf8).Ok? <==> ReadableFrom(params, data, 0, utf8)
  {
    CheckIff(params, data, 0, 0, utf8);
  }

  /** The slices of parameters 0 to n-1, one after the other. */
  function Tiles(params: seq<ParamEntry>, data: Bytes, n: nat): (r: Bytes)
  {
    if n == 0 then []
    else
      match ParamBytes(params, data, n - 1)
      case Ok(s) => Tiles(params, data, n - 1) + s
      case Err(_) => []
  }

  lemma {:induction false} StartsInData(params: seq<ParamEntry>, data: Bytes, utf8: Bytes -> bool, n: nat)
    requires ReadableFrom(params, data, 0, utf8) && n <= |params|
    ensures ParamStart(params, data, n).Ok? && ParamStart(params, data, n).value <= |data|
  {
    if n > 0 {
      StartsInData(params, data, utf8, n - 1);
      CheckStep(params, data, n - 1, ParamStart(params, data, n - 1).value, utf8);
    }
  }

  /** After validation a parameter's bytes run from where one walker says it starts to where the next one starts. */
  lemma SliceOf(params: seq<ParamEntry>, data: Bytes, utf8: Bytes -> bool, i: nat)
    requires Validated(params, data, utf8).Ok? && i < |params|
    ensures var (start, end) := (ParamStart(params, data, i), ParamStart(params, data, i + 1));
            && start.Ok? && end.Ok? && start.value <= end.value <= |data|
            && ParamBytes(params, data, i) == Ok(data[start.value..end.value])
            && Admissible(params[i], data[start.value..end.value], utf8)
  {
    ValidatedIff(params, data, utf8);
    StartsInData(params, data, utf8, i);
    CheckStep(params, data, i, ParamStart(params, data, i).value, utf8);
  }

  /** After validation every parameter is as long as its type says; a text says so itself, in its first byte. */
  lemma ParamWidths(params: seq<ParamEntry>, data: Bytes, utf8: Bytes -> bool, i: nat)
    requires Validated(params, data, utf8).Ok? && i < |params|
    ensures ParamBytes(params, data, i).Ok?
    ensures var (s, paramType) := (ParamBytes(params, data, i).value, params[i].paramType);
            && (paramType == AddressParam ==> |s| == 32)
            && (paramType == U64Param || paramType == I64Param ==> |s| == 8)
            && (paramType == StringParam ==> s != [] && |s| - 1 == s[0])
            && (paramType == BoolParam || paramType == U8Param ==> |s| == 1)
            && (paramType == U16Param ==> |s| == 2)
            && (paramType == U32Param ==> |s| == 4)
            && (paramType == U128Param ==> |s| == 16)
  {
    SliceOf(params, data, utf8, i);
    hide Validated, Admissible;
  }

  /** After validation the slices, in order and without gaps, are a prefix of the data. */
  lemma {:induction false} WalkersAgree(params: seq<ParamEntry>, data: Bytes, utf8: Bytes -> bool, n: nat)
    requires Validated(params, data, utf8).Ok? && n <= |params|
    ensures ParamStart(params, data, n).Ok? && ParamStart(params, data, n).value <= |data|
    ensures Tiles(params, data, n) == data[..ParamStart(params, data, n).value]
  {
    hide ParamStart, ParamBytes, Validated, Admissible;
    if n == 0 {
      StartsAtZero(params, data);
    } else {
      WalkersAgree(params, data, utf8, n - 1);
      SliceOf(params, data, utf8, n - 1);
      var (start, end) := (ParamStart(params, data, n - 1).value, ParamStart(params, data, n).value);
      assert data[..start] + data[start..end] == data[..end];
    }
  }

  lemma StartsAtZero(params: seq<ParamEntry>, data: Bytes)
    ensures ParamStart(params, data, 0) == Ok(0)
  {}
}
