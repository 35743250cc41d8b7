# WAVM JIT bridge: ABI lowering

A Dafny model of the inline ABI-lowering logic in WAVM's LLVM JIT bridge
(`Lib/Runtime/LLVMJIT.h`). The bridge decides how WebAssembly types become
native types of the code-generation backend (LLVM):

- a value type is looked up in the backend's value-type table, guarded by
  `type < num`;
- a type tuple becomes a literal struct of the lowered element types, in order;
- results are returned directly when they fit, with the implicit context
  pointer, in three return values; the wasm return type is `{i8*, tuple}`, or
  `{i8*}` when the results go through memory;
- a function signature gets 3, 0 or 1 implicit leading parameters
  (`i8*, i64, i64` for `intrinsicWithMemAndTable`, none for `c`, `i8*`
  otherwise), then the declared parameters; the return type depends on the
  calling convention, and more than one result is fatal for the intrinsic and C
  conventions;
- `wasm` uses LLVM's fast calling convention and every other convention uses C's;
- a memory or table index is recovered from a compartment base-array offset by
  subtracting the array's field offset and dividing exactly by the pointer size;
- integer, bool and pointer literals become constants of 32, 64, 1 or
  pointer width bits.

Files:

- `basic_types.dfy` (`BasicTypes`): the runtime's fixed-width integers as
  newtypes, powers of two, and the host (32-bit or 64-bit), which fixes
  `sizeof(Uptr)` at 4 or 8 bytes.
- `llvm.dfy` (`LLVM`): the backend types and constants the bridge builds.
  This includes integer constants as a width and a bit pattern, the zero
  (`getNullValue`) of a type, built part by part, and the subtraction and exact
  unsigned division of constant expressions. Subtraction wraps modulo 2^w. An
  exact division with a remainder is marked `Poison`, an unspecified value, as
  the LLVM Language Reference defines `udiv exact`.
- `ir.dfy` (`IR`, `Runtime`): value types, type tuples, function types, the
  five calling conventions, and the byte offsets of the memory and table
  base-address arrays in the compartment's runtime data.
- `llvmjit.dfy` (`LLVMJIT`): the lowering itself.

The two lowerings that fill an `alloca`'d array in a loop (tuples and
function signatures) are methods over a fresh `array`, proved with loop
invariants. They are proved against the functions `TupleType`,
`LowerTupleFields` and `ReturnType`. Everything else is a function with lemmas.

Inputs that the code reads from global state are parameters:

- the value-type table `llvmValueTypes` (its contents are set by `initLLVM`,
  which is not part of this model) is the sequence `valueTypes`; `num` is its
  length;
- `sizeof(Uptr)` comes from a `Platform` (`Host32` or `Host64`);
- `offsetof(CompartmentRuntimeData, memoryBases | tableBases)` is a
  `CompartmentLayout`.

`wavmAssert(type < IR::ValueType::num)` at `Lib/Runtime/LLVMJIT.h:130` becomes
a precondition of `LowerValueType`. It applies only to the value types the code
actually lowers. For example, the results of a wasm function that returns more
than two values are never lowered, so they carry no precondition. `Errors::fatal` is a `Failure` result.

## Model

| member | source | states |
|---|---|---|
| LLVMJIT.EmitU32 | Lib/Runtime/LLVMJIT.h:84-88 | a U32 literal is an `i32` constant whose 32-bit pattern is the value |
| LLVMJIT.EmitI32 | Lib/Runtime/LLVMJIT.h:89-93 | an I32 literal is an `i32` constant whose two's-complement reading gives back the value (the value modulo 2^32) |
| LLVMJIT.EmitU64 | Lib/Runtime/LLVMJIT.h:94-98 | a U64 literal is an `i64` constant whose pattern is the value |
| LLVMJIT.EmitI64 | Lib/Runtime/LLVMJIT.h:99-103 | an I64 literal is an `i64` constant whose two's-complement reading gives back the value |
| LLVMJIT.EmitBool | Lib/Runtime/LLVMJIT.h:112-115 | a bool literal is an `i1` constant that is 1 iff the bool is true |
| LLVMJIT.EmitLiteralPointer | Lib/Runtime/LLVMJIT.h:121-125 | a pointer literal has the requested type and wraps an integer of exactly the host pointer width (64 bits when `sizeof(Uptr)` is 8, else 32) whose value is the address |
| LLVMJIT.LowerValueType | Lib/Runtime/LLVMJIT.h:128-132 | an in-range value type lowers to its own entry of the value-type table; when the entries are distinct, no other value type has that entry |
| LLVMJIT.LowerValueTypeInjective | Lib/Runtime/LLVMJIT.h:128-132 | when the table's entries are distinct, two in-range value types lower to the same native type iff they are the same value type |
| LLVMJIT.LowerTupleFields | Lib/Runtime/LLVMJIT.h:134-141 | a tuple's lowered fields are exactly as many as its elements, and field i is the lowering of element i |
| LLVMJIT.LowerTuple | Lib/Runtime/LLVMJIT.h:134-141 | the array-filling loop yields a struct with one field per element, field i being element i's lowering, i.e. `TupleType` of the tuple |
| LLVMJIT.TupleTypeInjective | Lib/Runtime/LLVMJIT.h:134-141 | when the table's entries are distinct, two tuples lower to the same struct iff they are equal (order is preserved) |
| LLVMJIT.AreResultsReturnedDirectly | Lib/Runtime/LLVMJIT.h:143-153 | results are returned directly iff there are at most two of them (with the context pointer, at most three values) |
| LLVMJIT.ReturnStructType | Lib/Runtime/LLVMJIT.h:155-168 | the wasm return type is a struct that starts with `i8*`; it is `{i8*, tuple}` for at most two results and `{i8*}` for more |
| LLVMJIT.ReturnStructDeterminesDirectResults | Lib/Runtime/LLVMJIT.h:155-168 | when the table's entries are distinct, two result tuples share a return struct type iff they are equal or both are returned through memory |
| LLVM.ZeroOf | Lib/Runtime/LLVMJIT.h:170-173 | `getNullValue` of a type is a constant of that type; for a type with no `void` part, all of its parts are zero; an integer's is integer 0 of its width, a float's is +0.0, a pointer's is the null pointer, a vector's has one element per lane of the element type, and a struct's has one element per field, of that field's type |
| LLVMJIT.ZeroedReturnStruct | Lib/Runtime/LLVMJIT.h:170-173 | the zeroed return value has the wasm return struct type and is all zero (when no result lowers to `void`): a null `i8*` context pointer, then, for at most two results, a constant of the tuple's struct type with one zero per result of that result's lowered type; for more results, the pointer alone |
| LLVMJIT.NumImplicitParameters | Lib/Runtime/LLVMJIT.h:179-182 | there are 3 implicit parameters exactly for intrinsicWithMemAndTable, none exactly for c, and 1 for every other convention |
| LLVMJIT.ReturnType | Lib/Runtime/LLVMJIT.h:201-224 | lowering fails iff the convention is neither wasm nor intrinsicWithContextSwitch and there is more than one result; wasm gets the return struct, intrinsicWithContextSwitch gets `i8*`, the others get `void` for no result and the lowered type for one |
| LLVMJIT.LowerFunctionType | Lib/Runtime/LLVMJIT.h:176-227 | fails exactly on more than one result for intrinsic, intrinsicWithMemAndTable and c; otherwise it returns `3 + n`, `n` or `1 + n` parameters, starting with `[i8*, i64, i64]`, nothing, or `[i8*]`; slot `k + i` holds declared parameter i lowered, and the return type is `ReturnType`'s |
| LLVMJIT.AsLLVMCallingConv | Lib/Runtime/LLVMJIT.h:229-242 | the native convention is Fast iff the runtime convention is wasm, and C iff it is any other |
| LLVMJIT.EmitUptr | Lib/Runtime/LLVMJIT.h:246-249 | an `offsetof`/`sizeof` literal is an integer constant of the host pointer width holding the value |
| LLVMJIT.IdFromBaseOffset | Lib/Runtime/LLVMJIT.h:244-258 | the recovered index is a pointer-width constant when the wrapped difference from the field offset is a multiple of the pointer size, and then the index times the pointer size is that difference; otherwise it is poison |
| LLVMJIT.MemoryIdFromOffset | Lib/Runtime/LLVMJIT.h:244-250 | the memory index is a pointer-width integer or poison; for an offset at or past `memoryBases`, it is an integer iff the distance is a multiple of `sizeof(Uptr)`, and then the offset is `memoryBases` + index × `sizeof(Uptr)` |
| LLVMJIT.TableIdFromOffset | Lib/Runtime/LLVMJIT.h:252-258 | the table index is a pointer-width integer or poison; for an offset at or past `tableBases`, it is an integer iff the distance is a multiple of `sizeof(Uptr)`, and then the offset is `tableBases` + index × `sizeof(Uptr)` |
| LLVMJIT.IdFromBaseOffsetRoundTrip | Lib/Runtime/LLVMJIT.h:244-258 | the offset field offset + j × pointer size of base-array entry j gives back index j |
| LLVMJIT.IdFromBaseOffsetExact | Lib/Runtime/LLVMJIT.h:244-258 | for an offset at or past the field offset, the index is defined iff the distance is a multiple of the pointer size, and then the offset is exactly field offset + index × pointer size |
| LLVMJIT.MemoryIdRoundTrip | Lib/Runtime/LLVMJIT.h:244-250 | `getMemoryIdFromOffset(memoryBases + j·sizeof(Uptr))` is j |
| LLVMJIT.TableIdRoundTrip | Lib/Runtime/LLVMJIT.h:252-258 | `getTableIdFromOffset(tableBases + j·sizeof(Uptr))` is j |

## Left out

- `emitLiteral(F32)`, `emitLiteral(F64)` (floating-point constants built by `APFloat`) and `emitLiteral(V128)` (a backend vector-constant construction): floating point and foreign calls with no behaviour stated in this file beyond the backend call.
- The contents of `llvmValueTypes` and `typedZeroConstants` are set by `initLLVM`, which is not part of this model. Injectivity of the value-type table is therefore a hypothesis (`DistinctEntries`) of the lemmas that need it. The other global type handles (`llvmI8PtrType`, `llvmI64Type`, `llvmVoidType` and the like) are assumed to be the types their names denote.
- `llvmContext`, `llvmMutex`, `initLLVM`: global backend state and locking (concurrency and a foreign library).
- `getExternalFunctionName` / `getFunctionIndexFromExternalName`: only declared here; the name encoding is not in this file.
- `emitModule`, `compileLLVMModule`, `resolveJITImport`: declarations that drive the external backend or the dynamic loader.
- `JITSymbol`, `JITUnit::load`, `JITUnit::notifySymbolLoaded`: a data holder and declaration-only object loading, executable memory and a virtual extension point; the address-to-operation lookup is not implemented in this file.
- `processSEHTables`: Windows unwind-table patching of raw memory, declaration only.
- `Errors::unreachable` in the two switches: the calling conventions are a closed datatype here, so no out-of-range enumerator can reach it.
- LLVMJIT.IdFromBaseOffset: the offset is an integer constant of pointer width; an offset given as a non-integer constant expression, which the backend would leave unfolded, is not modelled. `Poison` stands for an unspecified value: the backend's constant folder may instead fold an inexact `udiv exact` of two integer constants to the truncated quotient (on a 64-bit host, field offset 16 and offset 20 may give index 0), so nothing is promised about the index of a misaligned offset.
- LLVMJIT.ZeroedReturnStruct: a value-type table entry of `void` among the lowered results has no null value and the backend rejects it; the model marks that part `Poison` and promises zero only for the parts that have a null value.
- LLVMJIT.EmitLiteralPointer: requires a pointer type or the pointer-width integer type. These are the types callers pass, and the only ones for which the result has the requested type. Other types, including vectors of pointers, are not modelled.
- Memory: the `alloca` buffers are fresh Dafny arrays; stack allocation and its lifetime are not modelled.
