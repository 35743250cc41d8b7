/** The part of the external code-generation backend's type and constant system
    that the JIT bridge builds. Literal struct types are identified by their
    field list, as llvm::StructType::get uniques them, so datatype equality is
    type identity. */
module LLVM {
  import opened BasicTypes

  datatype NativeType =
    | Int(bits: nat)                               // iN; i1 is the bool type
    | Float(bits: nat)                             // float (32) or double (64)
    | Void
    | Pointer(pointee: NativeType)
    | Vector(lanes: nat, element: NativeType)
    | Struct(fields: seq<NativeType>)              // a literal (unnamed) struct type

  /** llvm::FunctionType; the bridge never builds a variadic one. */
  datatype FunctionSig = FunctionSig(returnType: NativeType, params: seq<NativeType>)

  const BoolType := Int(1)
  const I8Type := Int(8)
  const I32Type := Int(32)
  const I64Type := Int(64)
  const I8PtrType := Pointer(I8Type)

  /** llvm::CallingConv::ID values the bridge selects: Fast and C. */
  datatype CallingConvID = FastCC | CCC

  /** Constants: integer constants carry their width and their bit pattern read
      as an unsigned number; IntegerValue is Constant::getIntegerValue (an
      integer reinterpreted at a pointer or integer type); FloatZero is the
      floating-point +0.0, NullPointer the null pointer, and Aggregate a struct or
      vector constant given element by element; Poison is an unspecified value,
      what an exact division that is not exact yields. */
  datatype Constant =
    | ConstInt(width: nat, bits: nat)
    | IntegerValue(ty: NativeType, value: Constant)
    | FloatZero(width: nat)
    | NullPointer(ty: NativeType)
    | Aggregate(ty: NativeType, elements: seq<Constant>)
    | Poison(ty: NativeType)

  function TypeOf(c: Constant): NativeType {
    match c
    case ConstInt(w, _) => Int(w)
    case IntegerValue(ty, _) => ty
    case FloatZero(w) => Float(w)
    case NullPointer(ty) => ty
    case Aggregate(ty, _) => ty
    case Poison(ty) => ty
  }

  /** The types Constant::getNullValue accepts: every type except void, and no
      aggregate with a void part. */
  predicate HasNullValue(ty: NativeType) {
    match ty
    case Void => false
    case Vector(_, e) => HasNullValue(e)
    case Struct(fs) => forall i :: 0 <= i < |fs| ==> HasNullValue(fs[i])
    case _ => true
  }

  /** A constant whose every scalar part is zero: integer 0, +0.0, or the null
      pointer. */
  predicate IsZero(c: Constant) {
    match c
    case ConstInt(_, b) => b == 0
    case FloatZero(_) => true
    case NullPointer(_) => true
    case Aggregate(_, es) => forall i :: 0 <= i < |es| ==> IsZero(es[i])
    case _ => false
  }

  /** Constant::getNullValue: the zero of a type, built part by part; an
      aggregate's zero has one element per field or lane, each the zero of
      that part's type. void has none (the backend rejects it); that part is
      Poison here. */
  function ZeroOf(ty: NativeType): (c: Constant)
    ensures TypeOf(c) == ty
    ensures HasNullValue(ty) ==> IsZero(c)
    ensures ty.Void? ==> c.Poison?
    ensures ty.Int? ==> c == ConstInt(ty.bits, 0)
    ensures ty.Float? ==> c == FloatZero(ty.bits)
    ensures ty.Pointer? ==> c == NullPointer(ty)
    ensures ty.Vector? ==>
              c.Aggregate? && |c.elements| == ty.lanes &&
              forall i :: 0 <= i < ty.lanes ==> TypeOf(c.elements[i]) == ty.element
    ensures ty.Struct? ==>
              c.Aggregate? && |c.elements| == |ty.fields| &&
              forall i :: 0 <= i < |ty.fields| ==>
                TypeOf(c.elements[i]) == ty.fields[i] &&
                (HasNullValue(ty.fields[i]) ==> IsZero(c.elements[i]))
  {
    match ty
    case Void => Poison(Void)
    case Int(w) => ConstInt(w, 0)
    case Float(w) => FloatZero(w)
    case Pointer(_) => NullPointer(ty)
    case Vector(n, e) => Aggregate(ty, seq(n, _ => ZeroOf(e)))
    case Struct(fs) => Aggregate(ty, seq(|fs|, i requires 0 <= i < |fs| => ZeroOf(fs[i])))
  }

  /** An integer constant of width w whose bit pattern fits in w bits. */
  predicate IsIntConstant(c: Constant, w: nat) {
    c.ConstInt? && c.width == w && w > 0 && c.bits < Pow2(w)
  }

  /** The bit pattern read as a two's-complement number (APInt::getSExtValue). */
  function SignedValue(c: Constant): int
    requires c.ConstInt? && c.width > 0
  {
    if c.bits < Pow2(c.width - 1) then c.bits else c.bits - Pow2(c.width)
  }

  /** ConstantExpr::getSub on two integer constants of one width: wraps modulo 2^w. */
  function Sub(a: Constant, b: Constant): Constant
    requires a.ConstInt? && b.ConstInt? && a.width == b.width
  {
    ConstInt(a.width, (a.bits - b.bits) % Pow2(a.width))
  }

  /** ConstantExpr::getExactUDiv on two integer constants of one width: the
      quotient when the division leaves no remainder, poison otherwise. */
  function ExactUDiv(a: Constant, b: Constant): Constant
    requires a.ConstInt? && b.ConstInt? && a.width == b.width && b.bits > 0
  {
    if a.bits % b.bits == 0 then ConstInt(a.width, a.bits / b.bits) else Poison(Int(a.width))
  }
}
