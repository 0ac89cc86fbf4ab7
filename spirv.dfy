/** The SPIR-V vocabulary the two rule checkers read: opcodes, storage classes,
    capabilities, decorations and the decoded instruction record. */
module Spirv {

  datatype Option<+T> = None | Some(value: T)

  /** The opcodes the constant and function checkers name; every other opcode
      is `OtherOp` with its numeric value. `OtherOp` is meant to hold only
      values this datatype does not name. `DecodeEmbeddedOp` is the one place
      that builds it from a word. It names every opcode the OpSpecConstantOp
      checker tells apart, so any other value it wraps in `OtherOp` gets the
      verdict the checker gives that opcode: no capability is needed. */
  datatype Op =
    // types
    | OpTypeBool | OpTypeInt | OpTypeFloat | OpTypeVector | OpTypeMatrix | OpTypeArray | OpTypeStruct
    | OpTypePointer | OpTypeUntypedPointerKHR | OpTypeFunction | OpTypeSampler | OpTypeEvent
    | OpTypeDeviceEvent | OpTypeReserveId | OpTypeQueue | OpTypeCooperativeMatrixKHR
    | OpTypeCooperativeMatrixNV | OpTypeCooperativeVectorNV | OpTypeTensorARM
    // constants
    | OpConstantTrue | OpConstantFalse | OpSpecConstantTrue | OpSpecConstantFalse
    | OpConstantComposite | OpSpecConstantComposite | OpConstantSampler | OpConstantNull
    | OpSpecConstant | OpSpecConstantOp | OpConstantFunctionPointerINTEL
    // functions, variables
    | OpFunction | OpFunctionParameter | OpFunctionCall | OpVariable | OpUntypedVariableKHR
    // consumers of a function id
    | OpGroupDecorate | OpDecorate | OpEnqueueKernel | OpEntryPoint | OpExecutionMode | OpExecutionModeId
    | OpGetKernelNDrangeSubGroupCount | OpGetKernelNDrangeMaxSubGroupSize | OpGetKernelWorkGroupSize
    | OpGetKernelPreferredWorkGroupSizeMultiple | OpGetKernelLocalSizeForSubgroupCount
    | OpGetKernelMaxNumSubgroups | OpName | OpCooperativeMatrixPerElementOpNV
    | OpCooperativeMatrixReduceNV | OpCooperativeMatrixLoadTensorNV
    // operations that may be embedded in OpSpecConstantOp
    | OpQuantizeToF16 | OpUConvert | OpConvertFToS | OpConvertSToF | OpConvertFToU | OpConvertUToF
    | OpConvertPtrToU | OpConvertUToPtr | OpGenericCastToPtr | OpPtrCastToGeneric | OpBitcast
    | OpFNegate | OpFAdd | OpFSub | OpFMul | OpFDiv | OpFRem | OpFMod
    | OpAccessChain | OpInBoundsAccessChain | OpPtrAccessChain | OpInBoundsPtrAccessChain
    | OtherOp(code: nat)

  /** Numeric values (SPIR-V unified specification, section 3.52 "Instructions")
      of the opcodes that OpSpecConstantOp's checker tells apart; decoding the
      value gives the opcode back. */
  function EmbeddedOpCode(op: Op): (code: nat)
    requires op in SpecConstantOpGated()
    ensures DecodeEmbeddedOp(code) == op
  {
    if op == OpQuantizeToF16 then 116
    else if op == OpUConvert then 113
    else if op == OpConvertFToU then 109
    else if op == OpConvertFToS then 110
    else if op == OpConvertSToF then 111
    else if op == OpConvertUToF then 112
    else if op == OpConvertPtrToU then 117
    else if op == OpConvertUToPtr then 120
    else if op == OpPtrCastToGeneric then 121
    else if op == OpGenericCastToPtr then 122
    else if op == OpBitcast then 124
    else if op == OpFNegate then 127
    else if op == OpFAdd then 129
    else if op == OpFSub then 131
    else if op == OpFMul then 133
    else if op == OpFDiv then 136
    else if op == OpFRem then 140
    else if op == OpFMod then 141
    else if op == OpAccessChain then 65
    else if op == OpInBoundsAccessChain then 66
    else if op == OpPtrAccessChain then 67
    else 70
  }

  /** The opcodes OpSpecConstantOp's checker gates on a capability. */
  function SpecConstantOpGated(): set<Op> {
    {OpQuantizeToF16, OpUConvert} + KernelOnlySpecOps()
  }

  /** Embedded operations that require the Kernel capability unconditionally. */
  function KernelOnlySpecOps(): set<Op> {
    {OpConvertFToS, OpConvertSToF, OpConvertFToU, OpConvertUToF, OpConvertPtrToU, OpConvertUToPtr,
     OpGenericCastToPtr, OpPtrCastToGeneric, OpBitcast, OpFNegate, OpFAdd, OpFSub, OpFMul, OpFDiv, OpFRem,
     OpFMod, OpAccessChain, OpInBoundsAccessChain, OpPtrAccessChain, OpInBoundsPtrAccessChain}
  }

  /** Reads the literal opcode word of OpSpecConstantOp as an opcode. */
  function DecodeEmbeddedOp(w: nat): Op {
    match w
    case 116 => OpQuantizeToF16
    case 113 => OpUConvert
    case 109 => OpConvertFToU
    case 110 => OpConvertFToS
    case 111 => OpConvertSToF
    case 112 => OpConvertUToF
    case 117 => OpConvertPtrToU
    case 120 => OpConvertUToPtr
    case 121 => OpPtrCastToGeneric
    case 122 => OpGenericCastToPtr
    case 124 => OpBitcast
    case 127 => OpFNegate
    case 129 => OpFAdd
    case 131 => OpFSub
    case 133 => OpFMul
    case 136 => OpFDiv
    case 140 => OpFRem
    case 141 => OpFMod
    case 65 => OpAccessChain
    case 66 => OpInBoundsAccessChain
    case 67 => OpPtrAccessChain
    case 70 => OpInBoundsPtrAccessChain
    case _ => OtherOp(w)
  }

  datatype StorageClass =
    | UniformConstant | Workgroup | Private | Function | AtomicCounter | StorageBuffer
    | PhysicalStorageBuffer | OtherClass(code: nat)

  /** Storage-class enumerant values, section 3.7 of the SPIR-V specification. */
  function DecodeStorageClass(w: nat): (sc: StorageClass)
    ensures sc.OtherClass? ==> sc.code == w
  {
    match w
    case 0 => UniformConstant
    case 4 => Workgroup
    case 6 => Private
    case 7 => Function
    case 10 => AtomicCounter
    case 12 => StorageBuffer
    case 5349 => PhysicalStorageBuffer
    case _ => OtherClass(w)
  }

  datatype Capability =
    | Shader | Kernel | FunctionPointersINTEL | VariablePointers | VariablePointersStorageBuffer
    | OtherCapability(code: nat)

  datatype AddressingModel = Logical | Physical32 | Physical64 | PhysicalStorageBuffer64

  /** A decoration record: its kind, its literal operands and, for a member
      decoration, the struct member it applies to; compared structurally. */
  datatype Decoration = Decoration(kind: nat, literals: seq<nat>, member: Option<nat>)

  /** A decoded instruction. `operands` holds every operand word in encoding
      order (result type and result id included), so the instruction occupies
      |operands| + 1 words; `position` is its index in module order. */
  datatype Instruction = Instruction(opcode: Op, id: nat, typeId: nat, operands: seq<nat>, position: nat)
  {
    /** Operand k; 0 when the decoder supplied fewer operands (the source's read
        is undefined there). */
    function Operand(k: nat): (w: nat)
      ensures k < |operands| ==> w == operands[k]
    {
      if k < |operands| then operands[k] else 0
    }
  }

  const SIZE_MODULUS: nat := 0x1_0000_0000_0000_0000

  /** The source's `size_t` difference a - b, wrapping modulo 2^64 when b > a. */
  function SizeSub(a: nat, b: nat): (d: nat)
    requires b <= SIZE_MODULUS
    ensures b <= a ==> d == a - b
    ensures a < b ==> d >= SIZE_MODULUS - b
  {
    if b <= a then a - b else a - b + SIZE_MODULUS
  }
}
