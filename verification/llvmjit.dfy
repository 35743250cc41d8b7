/** The ABI-lowering decisions of the WAVM JIT bridge: how WebAssembly value
    types, result tuples and function types become native types and
    signatures, which native calling convention each runtime convention uses,
    how memory and table indices are recovered from base-array offsets, and the
    widths of literal constants. */
module LLVMJIT {
  import opened BasicTypes
  import opened LLVM
  import opened IR
  import opened Runtime

  /** Errors::fatal raised while lowering. */
  datatype FatalError = MultipleResultsUnsupported

  datatype Result<T> = Success(value: T) | Failure(error: FatalError)

  // ---------------------------------------------------------------------------
  // Literal constants

  /** A U32 literal is a 32-bit constant holding the value unchanged. */
  function EmitU32(value: U32): (c: Constant)
    ensures TypeOf(c) == I32Type && IsIntConstant(c, 32)
    ensures c.bits == value as int
  {
    Pow2Widths();
    ConstInt(32, value as int)
  }

  /** An I32 literal is a 32-bit constant whose two's-complement reading is the value. */
  function EmitI32(value: I32): (c: Constant)
    ensures TypeOf(c) == I32Type && IsIntConstant(c, 32)
    ensures SignedValue(c) == value as int
  {
    Pow2Widths();
    // (I64)value sign-extends; the 32-bit APInt keeps the low 32 bits.
    ConstInt(32, (value as int) % 0x1_0000_0000)
  }

  /** A U64 literal is a 64-bit constant holding the value unchanged. */
  function EmitU64(value: U64): (c: Constant)
    ensures TypeOf(c) == I64Type && IsIntConstant(c, 64)
    ensures c.bits == value as int
  {
    Pow2Widths();
    ConstInt(64, value as int)
  }

  /** An I64 literal is a 64-bit constant whose two's-complement reading is the value. */
  function EmitI64(value: I64): (c: Constant)
    ensures TypeOf(c) == I64Type && IsIntConstant(c, 64)
    ensures SignedValue(c) == value as int
  {
    Pow2Widths();
    // The value is passed to APInt as an unsigned 64-bit word.
    ConstInt(64, (value as int) % 0x1_0000_0000_0000_0000)
  }

  /** A bool literal is a 1-bit constant that is 1 exactly when the bool is true. */
  function EmitBool(value: bool): (c: Constant)
    ensures TypeOf(c) == BoolType && IsIntConstant(c, 1)
    ensures c.bits == 1 <==> value
  {
    Pow2Widths();
    ConstInt(1, if value then 1 else 0)
  }

  /** An integer constant as wide as a host pointer. */
  predicate IsUptrConstant(p: Platform, c: Constant) {
    c.ConstInt? && c.width == UptrBits(p) && c.bits < UptrRange(p)
  }

  /** A Uptr literal: offsetof and sizeof values pick the U32 or U64 overload by host width. */
  function EmitUptr(p: Platform, value: nat): (c: Constant)
    requires IsUptr(p, value)
    ensures IsUptrConstant(p, c) && c.bits == value
  {
    Pow2Widths();
    if PointerBytes(p) == 8 then EmitU64(value as U64) else EmitU32(value as U32)
  }

  /** A pointer literal: the address as an integer as wide as a host pointer,
      given the requested pointer (or pointer-sized integer) type. */
  function EmitLiteralPointer(p: Platform, address: nat, ty: NativeType): (c: Constant)
    requires IsUptr(p, address)
    requires ty.Pointer? || ty == Int(UptrBits(p))
    ensures TypeOf(c) == ty && c.IntegerValue?
    ensures IsUptrConstant(p, c.value) && c.value.bits == address
  {
    IntegerValue(ty, ConstInt(if PointerBytes(p) == 8 then 64 else 32, address))
  }

  // ---------------------------------------------------------------------------
  // Value types and tuples

  /** Every element of the tuple is a valid index into the value-type table. */
  predicate ValidTuple(valueTypes: seq<NativeType>, tuple: TypeTuple) {
    forall i :: 0 <= i < |tuple| ==> tuple[i] < |valueTypes|
  }

  /** The value-type table gives distinct value types distinct native types. */
  predicate DistinctEntries(valueTypes: seq<NativeType>) {
    forall i, j :: 0 <= i < |valueTypes| && 0 <= j < |valueTypes| && i != j ==> valueTypes[i] != valueTypes[j]
  }

  /** A value type lowers to its entry in the value-type table; with distinct
      entries, that entry names no other value type. */
  function LowerValueType(valueTypes: seq<NativeType>, valueType: ValueType): (r: NativeType)
    requires valueType < |valueTypes|
    ensures r == valueTypes[valueType] && r in valueTypes
    ensures DistinctEntries(valueTypes) ==>
              forall v :: 0 <= v < |valueTypes| && valueTypes[v] == r ==> v == valueType
  {
    valueTypes[valueType]
  }

  /** Lowering a value type loses nothing when the table's entries are distinct. */
  lemma LowerValueTypeInjective(valueTypes: seq<NativeType>, a: ValueType, b: ValueType)
    requires DistinctEntries(valueTypes)
    requires a < |valueTypes| && b < |valueTypes|
    ensures LowerValueType(valueTypes, a) == LowerValueType(valueTypes, b) <==> a == b
  {
  }

  /** The lowered element types of a tuple, in the tuple's order. */
  function LowerTupleFields(valueTypes: seq<NativeType>, tuple: TypeTuple): (fields: seq<NativeType>)
    requires ValidTuple(valueTypes, tuple)
    ensures |fields| == |tuple|
    ensures forall i :: 0 <= i < |tuple| ==> fields[i] == LowerValueType(valueTypes, tuple[i])
  {
    if tuple == [] then []
    else [LowerValueType(valueTypes, tuple[0])] + LowerTupleFields(valueTypes, tuple[1..])
  }

  /** The native struct type a tuple lowers to. */
  function TupleType(valueTypes: seq<NativeType>, tuple: TypeTuple): NativeType
    requires ValidTuple(valueTypes, tuple)
  {
    Struct(LowerTupleFields(valueTypes, tuple))
  }

  /** Fills an array with the lowered element types and makes a struct of them. */
  method LowerTuple(valueTypes: seq<NativeType>, tuple: TypeTuple) returns (r: NativeType)
    requires ValidTuple(valueTypes, tuple)
    ensures r.Struct? && |r.fields| == |tuple|
    ensures forall i :: 0 <= i < |tuple| ==> r.fields[i] == LowerValueType(valueTypes, tuple[i])
    ensures r == TupleType(valueTypes, tuple)
  {
    var llvmTypes := new NativeType[|tuple|];
    for typeIndex := 0 to |tuple|
      invariant forall i :: 0 <= i < typeIndex ==> llvmTypes[i] == LowerValueType(valueTypes, tuple[i])
    {
      llvmTypes[typeIndex] := LowerValueType(valueTypes, tuple[typeIndex]);
    }
    r := Struct(llvmTypes[..]);
  }

  /** Distinct tuples lower to distinct struct types when the table's entries are distinct. */
  lemma TupleTypeInjective(valueTypes: seq<NativeType>, a: TypeTuple, b: TypeTuple)
    requires DistinctEntries(valueTypes)
    requires ValidTuple(valueTypes, a) && ValidTuple(valueTypes, b)
    ensures TupleType(valueTypes, a) == TupleType(valueTypes, b) <==> a == b
  {
    if TupleType(valueTypes, a) == TupleType(valueTypes, b) {
      var fa, fb := LowerTupleFields(valueTypes, a), LowerTupleFields(valueTypes, b);
      assert |a| == |fa| == |fb| == |b|;
      forall i | 0 <= i < |a|
        ensures a[i] == b[i]
      {
        assert fa[i] == fb[i];
        LowerValueTypeInjective(valueTypes, a[i], b[i]);
      }
    }
  }

  // ---------------------------------------------------------------------------
  // Returning results

  /** Up to this many values are returned in registers, the context pointer included. */
  const MaxDirectlyReturnedValues := 3

  /** Results are returned directly when they fit beside the implicit context pointer. */
  function AreResultsReturnedDirectly(results: TypeTuple): (direct: bool)
    ensures direct <==> |results| <= 2
  {
    |results| + 1 <= MaxDirectlyReturnedValues
  }

  /** The results a wasm function's return type must be able to lower. */
  predicate ReturnStructLowerable(valueTypes: seq<NativeType>, results: TypeTuple) {
    AreResultsReturnedDirectly(results) ==> ValidTuple(valueTypes, results)
  }

  /** The return type of a wasm function: the context pointer, followed by the
      packed results when they are returned directly. */
  function ReturnStructType(valueTypes: seq<NativeType>, results: TypeTuple): (r: NativeType)
    requires ReturnStructLowerable(valueTypes, results)
    ensures r.Struct? && 1 <= |r.fields| <= 2 && r.fields[0] == I8PtrType
    ensures |results| <= 2 ==> r.fields == [I8PtrType, TupleType(valueTypes, results)]
    ensures |results| > 2 ==> r.fields == [I8PtrType]
  {
    if AreResultsReturnedDirectly(results) then Struct([I8PtrType, TupleType(valueTypes, results)])
    else Struct([I8PtrType])
  }

  /** The return struct type identifies the results exactly when they are
      returned directly; results returned through memory all share one type. */
  lemma ReturnStructDeterminesDirectResults(valueTypes: seq<NativeType>, a: TypeTuple, b: TypeTuple)
    requires DistinctEntries(valueTypes)
    requires ReturnStructLowerable(valueTypes, a) && ReturnStructLowerable(valueTypes, b)
    ensures ReturnStructType(valueTypes, a) == ReturnStructType(valueTypes, b)
            <==> a == b || (|a| > 2 && |b| > 2)
  {
    if |a| <= 2 && |b| <= 2 {
      TupleTypeInjective(valueTypes, a, b);
      if ReturnStructType(valueTypes, a) == ReturnStructType(valueTypes, b) {
        assert ReturnStructType(valueTypes, a).fields[1] == ReturnStructType(valueTypes, b).fields[1];
      }
    }
  }

  /** The all-zero value of a wasm function's return struct: a null context
      pointer, then, for results returned directly, one zero per result, each of
      that result's lowered type. */
  function ZeroedReturnStruct(valueTypes: seq<NativeType>, results: TypeTuple): (c: Constant)
    requires ReturnStructLowerable(valueTypes, results)
    ensures TypeOf(c) == ReturnStructType(valueTypes, results)
    ensures HasNullValue(TypeOf(c)) ==> IsZero(c)
    ensures c.Aggregate? && 1 <= |c.elements| && c.elements[0] == NullPointer(I8PtrType)
    ensures |results| <= 2 ==>
              |c.elements| == 2 && TypeOf(c.elements[1]) == TupleType(valueTypes, results) &&
              c.elements[1].Aggregate? && |c.elements[1].elements| == |results| &&
              forall i :: 0 <= i < |results| ==>
                TypeOf(c.elements[1].elements[i]) == LowerValueType(valueTypes, results[i]) &&
                (HasNullValue(LowerValueType(valueTypes, results[i])) ==> IsZero(c.elements[1].elements[i]))
    ensures |results| > 2 ==> |c.elements| == 1
  {
    ZeroOf(ReturnStructType(valueTypes, results))
  }

  // ---------------------------------------------------------------------------
  // Function signatures

  /** The results a convention's return type must be able to lower. */
  predicate ResultsLowerable(valueTypes: seq<NativeType>, results: TypeTuple, cc: CallingConvention) {
    match cc
    case Wasm => ReturnStructLowerable(valueTypes, results)
    case IntrinsicWithContextSwitch => true
    case _ => |results| == 1 ==> results[0] < |valueTypes|
  }

  /** The native return type of a function with these results under this convention. */
  function ReturnType(valueTypes: seq<NativeType>, results: TypeTuple, cc: CallingConvention): (r: Result<NativeType>)
    requires ResultsLowerable(valueTypes, results, cc)
    ensures r.Failure? <==> cc != Wasm && cc != IntrinsicWithContextSwitch && |results| > 1
    ensures cc == Wasm ==> r == Success(ReturnStructType(valueTypes, results))
    ensures cc == IntrinsicWithContextSwitch ==> r == Success(I8PtrType)
    ensures cc != Wasm && cc != IntrinsicWithContextSwitch && |results| == 0 ==> r == Success(Void)
    ensures cc != Wasm && cc != IntrinsicWithContextSwitch && |results| == 1
            ==> r == Success(LowerValueType(valueTypes, results[0]))
  {
    match cc
    case Wasm => Success(ReturnStructType(valueTypes, results))
    case IntrinsicWithContextSwitch => Success(I8PtrType)
    case _ =>
      if |results| == 0 then Success(Void)
      else if |results| == 1 then Success(LowerValueType(valueTypes, results[0]))
      else Failure(MultipleResultsUnsupported)
  }

  /** How many implicit parameters precede the declared ones. */
  function NumImplicitParameters(cc: CallingConvention): (k: nat)
    ensures k == 3 <==> cc == IntrinsicWithMemAndTable
    ensures k == 0 <==> cc == C
    ensures k == 1 <==> cc != IntrinsicWithMemAndTable && cc != C
  {
    if cc == IntrinsicWithMemAndTable then 3 else if cc == C then 0 else 1
  }

  /** Builds the native signature of a function type under a calling convention:
      the implicit parameters, then the declared parameters in order, and the
      convention's return type; more than one result is fatal for every
      convention but wasm and intrinsicWithContextSwitch. */
  method LowerFunctionType(valueTypes: seq<NativeType>, functionType: FunctionType, cc: CallingConvention)
    returns (r: Result<FunctionSig>)
    requires ValidTuple(valueTypes, functionType.params)
    requires ResultsLowerable(valueTypes, functionType.results, cc)
    ensures r.Failure? <==> cc != Wasm && cc != IntrinsicWithContextSwitch && |functionType.results| > 1
    ensures r.Success? && cc == IntrinsicWithMemAndTable ==>
              |r.value.params| == 3 + |functionType.params| &&
              r.value.params[..3] == [I8PtrType, I64Type, I64Type]
    ensures r.Success? && cc == C ==> |r.value.params| == |functionType.params|
    ensures r.Success? && cc != IntrinsicWithMemAndTable && cc != C ==>
              |r.value.params| == 1 + |functionType.params| && r.value.params[0] == I8PtrType
    ensures r.Success? ==>
              forall i :: 0 <= i < |functionType.params| ==>
                NumImplicitParameters(cc) + i < |r.value.params| &&
                r.value.params[NumImplicitParameters(cc) + i] == LowerValueType(valueTypes, functionType.params[i])
    ensures r.Success? ==> r.value.returnType == ReturnType(valueTypes, functionType.results, cc).value
  {
    var params := functionType.params;
    var numImplicitParameters := NumImplicitParameters(cc);
    var numParameters := numImplicitParameters + |params|;
    var llvmArgTypes := new NativeType[numParameters];
    if cc == IntrinsicWithMemAndTable {
      llvmArgTypes[0] := I8PtrType;
      llvmArgTypes[1] := I64Type;
      llvmArgTypes[2] := I64Type;
    } else if cc != C {
      llvmArgTypes[0] := I8PtrType;
    }
    ghost var prefix := llvmArgTypes[..numImplicitParameters];
    for argIndex := 0 to |params|
      invariant llvmArgTypes[..numImplicitParameters] == prefix
      invariant forall i :: 0 <= i < argIndex ==>
                  llvmArgTypes[numImplicitParameters + i] == LowerValueType(valueTypes, params[i])
    {
      llvmArgTypes[argIndex + numImplicitParameters] := LowerValueType(valueTypes, params[argIndex]);
    }

    var returnType := ReturnType(valueTypes, functionType.results, cc);
    if returnType.Failure? {
      return Failure(returnType.error);
    }
    r := Success(FunctionSig(returnType.value, llvmArgTypes[..]));
  }

  /** wasm functions call each other with the fast convention; everything else uses C's. */
  function AsLLVMCallingConv(cc: CallingConvention): (id: CallingConvID)
    ensures id == FastCC <==> cc == Wasm
    ensures id == CCC <==> cc != Wasm
  {
    match cc
    case Wasm => FastCC
    case Intrinsic => CCC
    case IntrinsicWithContextSwitch => CCC
    case IntrinsicWithMemAndTable => CCC
    case C => CCC
  }

  // ---------------------------------------------------------------------------
  // Memory and table indices from base-array offsets

  /** The index of the base-array entry at this byte offset: the offset minus the
      array's field offset (wrapping), divided exactly by the pointer size.
      The result is poison, an unspecified value, when the difference is not a
      whole number of entries. */
  function IdFromBaseOffset(p: Platform, fieldOffset: nat, offset: Constant): (id: Constant)
    requires IsUptr(p, fieldOffset) && IsUptrConstant(p, offset)
    ensures TypeOf(id) == Int(UptrBits(p))
    ensures id.ConstInt? <==> ((offset.bits - fieldOffset) % UptrRange(p)) % PointerBytes(p) == 0
    ensures !id.ConstInt? ==> id.Poison?
    ensures id.ConstInt? ==> id.bits * PointerBytes(p) == (offset.bits - fieldOffset) % UptrRange(p)
  {
    UptrRangeIsPow2(p);
    ExactUDiv(Sub(offset, EmitUptr(p, fieldOffset)), EmitUptr(p, PointerBytes(p)))
  }

  /** getMemoryIdFromOffset: the memory index addressed by an offset into the memory base array. */
  function MemoryIdFromOffset(p: Platform, layout: CompartmentLayout, memoryOffset: Constant): (id: Constant)
    requires IsUptr(p, layout.memoryBasesOffset) && IsUptrConstant(p, memoryOffset)
    ensures TypeOf(id) == Int(UptrBits(p))
    ensures id.ConstInt? || id.Poison?
    ensures layout.memoryBasesOffset <= memoryOffset.bits ==>
              (id.ConstInt? <==> (memoryOffset.bits - layout.memoryBasesOffset) % PointerBytes(p) == 0)
    ensures layout.memoryBasesOffset <= memoryOffset.bits && id.ConstInt? ==>
              memoryOffset.bits == layout.memoryBasesOffset + id.bits * PointerBytes(p)
  {
    IdFromBaseOffsetExact(p, layout.memoryBasesOffset, memoryOffset);
    IdFromBaseOffset(p, layout.memoryBasesOffset, memoryOffset)
  }

  /** getTableIdFromOffset: the table index addressed by an offset into the table base array. */
  function TableIdFromOffset(p: Platform, layout: CompartmentLayout, tableOffset: Constant): (id: Constant)
    requires IsUptr(p, layout.tableBasesOffset) && IsUptrConstant(p, tableOffset)
    ensures TypeOf(id) == Int(UptrBits(p))
    ensures id.ConstInt? || id.Poison?
    ensures layout.tableBasesOffset <= tableOffset.bits ==>
              (id.ConstInt? <==> (tableOffset.bits - layout.tableBasesOffset) % PointerBytes(p) == 0)
    ensures layout.tableBasesOffset <= tableOffset.bits && id.ConstInt? ==>
              tableOffset.bits == layout.tableBasesOffset + id.bits * PointerBytes(p)
  {
    IdFromBaseOffsetExact(p, layout.tableBasesOffset, tableOffset);
    IdFromBaseOffset(p, layout.tableBasesOffset, tableOffset)
  }

  /** The offset of entry j of a base array gives back index j. */
  lemma IdFromBaseOffsetRoundTrip(p: Platform, fieldOffset: nat, j: nat)
    requires IsUptr(p, fieldOffset + j * PointerBytes(p))
    ensures IdFromBaseOffset(p, fieldOffset, EmitUptr(p, fieldOffset + j * PointerBytes(p)))
            == ConstInt(UptrBits(p), j)
  {
    UptrRangeIsPow2(p);
    var pb := PointerBytes(p);
    var offset := EmitUptr(p, fieldOffset + j * pb);
    var diff := Sub(offset, EmitUptr(p, fieldOffset));
    assert offset.bits - fieldOffset == j * pb;
    assert diff.bits == j * pb;
    var size := EmitUptr(p, pb);
    if p.Host64? {
      assert size.bits == 8 && diff.bits == j * 8;
      assert (j * 8) % 8 == 0 && (j * 8) / 8 == j;
    } else {
      assert size.bits == 4 && diff.bits == j * 4;
      assert (j * 4) % 4 == 0 && (j * 4) / 4 == j;
    }
  }

  /** For an offset at or past the field offset, the division is exact iff the
      offset lands on an entry, and then the index is that entry's: an aligned
      offset gives its exact index. */
  lemma IdFromBaseOffsetExact(p: Platform, fieldOffset: nat, offset: Constant)
    requires IsUptr(p, fieldOffset) && IsUptrConstant(p, offset)
    ensures var id := IdFromBaseOffset(p, fieldOffset, offset);
            fieldOffset <= offset.bits ==>
              (id.ConstInt? <==> (offset.bits - fieldOffset) % PointerBytes(p) == 0)
    ensures var id := IdFromBaseOffset(p, fieldOffset, offset);
            fieldOffset <= offset.bits && id.ConstInt? ==>
              offset.bits == fieldOffset + id.bits * PointerBytes(p)
  {
    UptrRangeIsPow2(p);
    if fieldOffset <= offset.bits {
      assert (offset.bits - fieldOffset) % UptrRange(p) == offset.bits - fieldOffset;
    }
  }

  /** Memory j's base-address slot offset gives back memory index j. */
  lemma MemoryIdRoundTrip(p: Platform, layout: CompartmentLayout, j: nat)
    requires IsUptr(p, layout.memoryBasesOffset + j * PointerBytes(p))
    ensures MemoryIdFromOffset(p, layout, EmitUptr(p, layout.memoryBasesOffset + j * PointerBytes(p)))
            == ConstInt(UptrBits(p), j)
  {
    IdFromBaseOffsetRoundTrip(p, layout.memoryBasesOffset, j);
  }

  /** Table j's base-address slot offset gives back table index j. */
  lemma TableIdRoundTrip(p: Platform, layout: CompartmentLayout, j: nat)
    requires IsUptr(p, layout.tableBasesOffset + j * PointerBytes(p))
    ensures TableIdFromOffset(p, layout, EmitUptr(p, layout.tableBasesOffset + j * PointerBytes(p)))
            == ConstInt(UptrBits(p), j)
  {
    IdFromBaseOffsetRoundTrip(p, layout.tableBasesOffset, j);
  }
}
