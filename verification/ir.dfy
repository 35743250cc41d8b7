/** WebAssembly-level types consumed by the JIT bridge: already-validated IR. */
module IR {

  /** The numeric value of an IR::ValueType enumerator. The enumeration's
      `num` is the size of the backend's value-type table. */
  type ValueType = nat

  /** An ordered tuple of value types (parameters or results). */
  type TypeTuple = seq<ValueType>

  datatype FunctionType = FunctionType(params: TypeTuple, results: TypeTuple)
}

/** The runtime facts the JIT bridge relies on: its calling conventions and the
    layout of the compartment's runtime data. */
module Runtime {

  datatype CallingConvention =
    | Wasm
    | Intrinsic
    | IntrinsicWithContextSwitch
    | IntrinsicWithMemAndTable
    | C

  /** Byte offsets, inside CompartmentRuntimeData, of the memory base-address
      array and of the table base-address array. */
  datatype CompartmentLayout = CompartmentLayout(memoryBasesOffset: nat, tableBasesOffset: nat)
}
