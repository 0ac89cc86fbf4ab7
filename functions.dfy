/** The function rules: OpFunction and the uses of its result id, the position
    and type of OpFunctionParameter, OpFunctionCall with its arguments, and the
    callback of OpCooperativeMatrixPerElementOpNV. */
module Functions {
  import opened Spirv
  import opened ValidationState

  // ------------------------------------------------------- pointee matching

  /** a and b are pointer types, every decoration of b is also a decoration of
      a, and their pointee types are the same id or logically match. */
  predicate DoPointeesLogicallyMatch(ctx: Context, a: Instruction, b: Instruction) {
    && a.opcode == OpTypePointer
    && b.opcode == OpTypePointer
    && (forall d | d in ctx.DecorationsOf(b.id) :: d in ctx.DecorationsOf(a.id))
    && (a.Operand(2) == b.Operand(2) || ctx.oracle.logicallyMatch(a.Operand(2), b.Operand(2)))
  }

  // --------------------------------------------------------------- OpFunction

  /** The opcodes that may use a function's result id whatever the capabilities. */
  const FUNCTION_USE_OPS: seq<Op> :=
    [OpGroupDecorate, OpDecorate, OpEnqueueKernel, OpEntryPoint, OpExecutionMode, OpExecutionModeId,
     OpFunctionCall, OpGetKernelNDrangeSubGroupCount, OpGetKernelNDrangeMaxSubGroupSize,
     OpGetKernelWorkGroupSize, OpGetKernelPreferredWorkGroupSizeMultiple,
     OpGetKernelLocalSizeForSubgroupCount, OpGetKernelMaxNumSubgroups, OpName,
     OpCooperativeMatrixPerElementOpNV, OpCooperativeMatrixReduceNV, OpCooperativeMatrixLoadTensorNV]

  /** The fixed list, followed by OpConstantFunctionPointerINTEL when the
      FunctionPointersINTEL capability is declared. */
  function AcceptableUseOps(ctx: Context): (ops: seq<Op>)
    ensures OpConstantFunctionPointerINTEL in ops <==> FunctionPointersINTEL in ctx.caps
    ensures forall op | op in FUNCTION_USE_OPS :: op in ops
  {
    FUNCTION_USE_OPS + (if FunctionPointersINTEL in ctx.caps then [OpConstantFunctionPointerINTEL] else [])
  }

  /** The allow-list holds nothing beyond the fixed opcodes and the
      capability-gated function-pointer constant. */
  lemma AcceptableUseOpsExactly(ctx: Context, op: Op)
    ensures op in AcceptableUseOps(ctx) <==>
      op in FUNCTION_USE_OPS || (op == OpConstantFunctionPointerINTEL && FunctionPointersINTEL in ctx.caps)
  {
  }

  /** A use of a function id is allowed: an opcode of the acceptable list, or
      a non-semantic or debug-info instruction. */
  predicate UseAllowed(ctx: Context, use: Instruction) {
    || use.opcode in AcceptableUseOps(ctx)
    || ctx.oracle.isNonSemantic(use)
    || ctx.oracle.isDebugInfo(use)
  }

  /** Operand 3 names an OpTypeFunction whose return type (its operand 1) is
      the function's result type. */
  predicate FunctionTyped(ctx: Context, inst: Instruction) {
    && inst.Operand(3) in ctx.defs
    && ctx.defs[inst.Operand(3)].opcode == OpTypeFunction
    && ctx.defs[inst.Operand(3)].Operand(1) == inst.typeId
  }

  function UseCheck(ctx: Context, use: Instruction): (r: Verdict)
    ensures r.Success? <==> UseAllowed(ctx, use)
    ensures r.Failure? ==> r == Fail(InvalidId, use)
  {
    if UseAllowed(ctx, use) then Success else Fail(InvalidId, use)
  }

  /** The use loop: the first disallowed use, blamed on that use. */
  function CheckUses(ctx: Context, uses: seq<Instruction>): (r: Verdict)
    ensures r.Success? <==> forall k | 0 <= k < |uses| :: UseAllowed(ctx, uses[k])
    ensures r.Failure? ==>
      exists k | 0 <= k < |uses| ::
        && r == Fail(InvalidId, uses[k])
        && !UseAllowed(ctx, uses[k])
        && forall i | 0 <= i < k :: UseAllowed(ctx, uses[i])
  {
    var check := (j: nat) requires j < |uses| => UseCheck(ctx, uses[j]);
    assert forall j: nat | j < |uses| :: check(j).Success? <==> UseAllowed(ctx, uses[j]);
    Scan(check, 0, |uses|)
  }

  /** What OpFunction's checker answers: the type errors blamed on the
      function, then the first disallowed use, blamed on that use. */
  function FunctionSpec(ctx: Context, inst: Instruction): (r: Verdict)
    ensures r.Success? <==>
      FunctionTyped(ctx, inst) && forall k | 0 <= k < |ctx.UsesOf(inst.id)| :: UseAllowed(ctx, ctx.UsesOf(inst.id)[k])
    ensures !FunctionTyped(ctx, inst) ==> r == Fail(InvalidId, inst)
    ensures FunctionTyped(ctx, inst) ==> r == CheckUses(ctx, ctx.UsesOf(inst.id))
    ensures r.Failure? ==> r.kind == InvalidId
  {
    if !FunctionTyped(ctx, inst) then Fail(InvalidId, inst)
    else CheckUses(ctx, ctx.UsesOf(inst.id))
  }

  /** The verdict when use k is the first disallowed one. */
  lemma FunctionSpecFirstDisallowed(ctx: Context, inst: Instruction, k: nat)
    requires FunctionTyped(ctx, inst) && k < |ctx.UsesOf(inst.id)|
    requires !UseAllowed(ctx, ctx.UsesOf(inst.id)[k])
    requires forall i | 0 <= i < k :: UseAllowed(ctx, ctx.UsesOf(inst.id)[i])
    ensures FunctionSpec(ctx, inst) == Fail(InvalidId, ctx.UsesOf(inst.id)[k])
  {
    var uses := ctx.UsesOf(inst.id);
    var check := (j: nat) requires j < |uses| => UseCheck(ctx, uses[j]);
    ScanFirstFailure(check, 0, |uses|, k);
    assert CheckUses(ctx, uses) == Scan(check, 0, |uses|);
  }

  method ValidateFunction(ctx: Context, inst: Instruction) returns (r: Verdict)
    ensures r == FunctionSpec(ctx, inst)
  {
    var functionTypeId := inst.Operand(3);
    if functionTypeId !in ctx.defs || ctx.defs[functionTypeId].opcode != OpTypeFunction {
      return Fail(InvalidId, inst);
    }
    var returnId := ctx.defs[functionTypeId].Operand(1);
    if returnId != inst.typeId {
      return Fail(InvalidId, inst);
    }
    var acceptable := FUNCTION_USE_OPS;
    if FunctionPointersINTEL in ctx.caps {
      acceptable := acceptable + [OpConstantFunctionPointerINTEL];
    }
    assert acceptable == AcceptableUseOps(ctx);
    var uses := ctx.UsesOf(inst.id);
    var k := 0;
    while k < |uses|
      invariant k <= |uses|
      invariant forall i | 0 <= i < k :: UseAllowed(ctx, uses[i])
    {
      var use := uses[k];
      if use.opcode !in acceptable && !ctx.oracle.isNonSemantic(use) && !ctx.oracle.isDebugInfo(use) {
        FunctionSpecFirstDisallowed(ctx, inst, k);
        return Fail(InvalidId, use);
      }
      k := k + 1;
    }
    return Success;
  }

  // ----------------------------------------------------- OpFunctionParameter

  /** The number of OpFunctionParameter instructions among positions lo .. hi-1. */
  function ParamsBetween(ordered: seq<Instruction>, lo: nat, hi: nat): nat
    requires lo <= hi <= |ordered|
    decreases hi - lo
  {
    if lo == hi then 0
    else ParamsBetween(ordered, lo, hi - 1) + (if ordered[hi - 1].opcode == OpFunctionParameter then 1 else 0)
  }

  /** The backward scan from position i down to position 1, having already
      counted `count` parameters: the position of the nearest OpFunction and
      the parameters counted up to it, or None when positions 1 .. i hold no
      OpFunction. Position 0 is never examined. */
  function OwnerScan(ordered: seq<Instruction>, i: nat, count: nat): (r: Option<(nat, nat)>)
    requires i < |ordered|
    decreases i
    ensures r.Some? ==> 1 <= r.value.0 <= i
  {
    if i == 0 then None
    else if ordered[i].opcode == OpFunction then Some((i, count))
    else OwnerScan(ordered, i - 1, if ordered[i].opcode == OpFunctionParameter then count + 1 else count)
  }

  /** The scan finds the nearest OpFunction at or below i (never position 0),
      and the ordinal it reports counts the parameters between that function
      and position i. */
  lemma {:induction false} OwnerScanFindsNearest(ordered: seq<Instruction>, i: nat, count: nat)
    requires i < |ordered|
    decreases i
    ensures OwnerScan(ordered, i, count).None? <==> forall k | 1 <= k <= i :: ordered[k].opcode != OpFunction
    ensures OwnerScan(ordered, i, count).Some? ==>
      var owner := OwnerScan(ordered, i, count).value;
      && ordered[owner.0].opcode == OpFunction
      && (forall k | owner.0 < k <= i :: ordered[k].opcode != OpFunction)
      && owner.1 == count + ParamsBetween(ordered, owner.0 + 1, i + 1)
  {
    if i > 0 && ordered[i].opcode != OpFunction {
      OwnerScanFindsNearest(ordered, i - 1, if ordered[i].opcode == OpFunctionParameter then count + 1 else count);
    }
  }

  /** The owning function's type (its operand 3) is defined, declares more than
      `ordinal` parameters, and parameter `ordinal` is the parameter's type. */
  predicate ParameterTyped(ctx: Context, inst: Instruction, owner: Instruction, ordinal: nat) {
    && owner.Operand(3) in ctx.defs
    && ordinal < SizeSub(|ctx.defs[owner.Operand(3)].operands| + 1, 3)
    && ctx.defs[owner.Operand(3)].Operand(ordinal + 2) in ctx.defs
    && ctx.defs[ctx.defs[owner.Operand(3)].Operand(ordinal + 2)].id == inst.typeId
  }

  function CheckOrdinal(ctx: Context, inst: Instruction, owner: Instruction, ordinal: nat): (r: Verdict)
    ensures r.Success? <==> ParameterTyped(ctx, inst, owner, ordinal)
    ensures owner.Operand(3) !in ctx.defs ==> r == Fail(InvalidId, owner)
    ensures owner.Operand(3) in ctx.defs && r.Failure? ==> r == Fail(InvalidId, inst)
  {
    var functionTypeId := owner.Operand(3);
    if functionTypeId !in ctx.defs then Fail(InvalidId, owner)
    else
      var functionType := ctx.defs[functionTypeId];
      if ordinal >= SizeSub(|functionType.operands| + 1, 3) then Fail(InvalidId, inst)
      else
        var paramTypeId := functionType.Operand(ordinal + 2);
        if paramTypeId !in ctx.defs || inst.typeId != ctx.defs[paramTypeId].id then Fail(InvalidId, inst)
        else Success
  }

  /** What OpFunctionParameter's checker answers: a parameter at position 0, or
      with no OpFunction at positions 1 .. position-1, is out of place;
      otherwise its ordinal among the owner's parameters is checked against
      the owner's function type. */
  function ParameterSpec(ctx: Context, inst: Instruction): (r: Verdict)
    requires inst.position < |ctx.ordered|
    ensures r.Failure? && r.kind == InvalidLayout <==>
      inst.position == 0 || forall k | 1 <= k < inst.position :: ctx.ordered[k].opcode != OpFunction
    ensures r.Failure? && r.kind == InvalidLayout ==> r.at == Some(inst)
    ensures r.Success? <==>
      && inst.position > 0
      && OwnerScan(ctx.ordered, inst.position - 1, 0).Some?
      && ParameterTyped(ctx, inst, ctx.ordered[OwnerScan(ctx.ordered, inst.position - 1, 0).value.0],
                        OwnerScan(ctx.ordered, inst.position - 1, 0).value.1)
  {
    if inst.position == 0 then Fail(InvalidLayout, inst)
    else
      OwnerScanFindsNearest(ctx.ordered, inst.position - 1, 0);
      match OwnerScan(ctx.ordered, inst.position - 1, 0)
      case None => Fail(InvalidLayout, inst)
      case Some((j, ordinal)) => CheckOrdinal(ctx, inst, ctx.ordered[j], ordinal)
  }

  /** The verdict once the scan has run: out of place without an owner, the
      ordinal check against the owner otherwise. */
  lemma ParameterSpecByOwner(ctx: Context, inst: Instruction)
    requires 0 < inst.position < |ctx.ordered|
    ensures OwnerScan(ctx.ordered, inst.position - 1, 0).None? ==> ParameterSpec(ctx, inst) == Fail(InvalidLayout, inst)
    ensures OwnerScan(ctx.ordered, inst.position - 1, 0).Some? ==>
      var owner := OwnerScan(ctx.ordered, inst.position - 1, 0).value;
      ParameterSpec(ctx, inst) == CheckOrdinal(ctx, inst, ctx.ordered[owner.0], owner.1)
  {
  }

  /** The backward walk: `n` runs from position-1 down to 1, `funcInst` holds
      the last instruction examined (initially the parameter itself). */
  method ValidateFunctionParameter(ctx: Context, inst: Instruction) returns (r: Verdict)
    requires inst.opcode == OpFunctionParameter
    requires inst.position < |ctx.ordered| && ctx.ordered[inst.position] == inst
    ensures r == ParameterSpec(ctx, inst)
  {
    var paramIndex := 0;
    var n: nat := inst.position;
    if n == 0 {
      return Fail(InvalidLayout, inst);
    }
    var funcInst := ctx.ordered[n];
    n := n - 1;
    while n != 0
      invariant n < inst.position
      invariant funcInst.opcode != OpFunction
      invariant OwnerScan(ctx.ordered, n, paramIndex) == OwnerScan(ctx.ordered, inst.position - 1, 0)
      decreases n
    {
      funcInst := ctx.ordered[n];
      if funcInst.opcode == OpFunction {
        assert OwnerScan(ctx.ordered, n, paramIndex) == Some((n, paramIndex));
        break;
      } else if funcInst.opcode == OpFunctionParameter {
        paramIndex := paramIndex + 1;
      }
      n := n - 1;
    }
    if funcInst.opcode != OpFunction {
      ParameterSpecByOwner(ctx, inst);
      return Fail(InvalidLayout, inst);
    }
    ParameterSpecByOwner(ctx, inst);
    ghost var expected := CheckOrdinal(ctx, inst, funcInst, paramIndex);
    assert ParameterSpec(ctx, inst) == expected;
    var functionTypeId := funcInst.Operand(3);
    if functionTypeId !in ctx.defs {
      return Fail(InvalidId, funcInst);
    }
    var functionType := ctx.defs[functionTypeId];
    if paramIndex >= SizeSub(|functionType.operands| + 1, 3) {
      return Fail(InvalidId, inst);
    }
    var paramTypeId := functionType.Operand(paramIndex + 2);
    if paramTypeId !in ctx.defs || inst.typeId != ctx.defs[paramTypeId].id {
      return Fail(InvalidId, inst);
    }
    return Success;
  }

  // ---------------------------------------------------------- OpFunctionCall

  /** Storage classes a pointer parameter may have under logical addressing. */
  predicate StorageClassAllowed(ctx: Context, sc: StorageClass) {
    || sc in {UniformConstant, Function, Private, Workgroup, AtomicCounter}
    || (sc == StorageBuffer && ctx.features.variablePointers)
  }

  /** An argument that is not a variable or parameter is still acceptable as a
      pointer operand in these cases. */
  predicate MemoryObjectAccepted(ctx: Context, argument: Instruction, sc: StorageClass) {
    || argument.opcode in {OpVariable, OpUntypedVariableKHR, OpFunctionParameter}
    || ctx.options.beforeHlslLegalization
    || (VariablePointersStorageBuffer in ctx.caps && sc == StorageBuffer)
    || (VariablePointers in ctx.caps && sc == Workgroup)
    || sc == UniformConstant
  }

  /** The pointer-operand rules apply: logical addressing, a pointer or untyped
      pointer parameter, and the relaxation option off. */
  predicate LogicalPointerRulesApply(ctx: Context, paramType: Instruction) {
    && ctx.addressing == Logical
    && IsPointerTypeOp(paramType.opcode)
    && !ctx.options.relaxLogicalPointer
  }

  /** The argument's type is the parameter's type, or, before HLSL
      legalization, a pointer whose pointee logically matches the parameter's. */
  predicate ArgumentTypeAccepted(ctx: Context, argumentType: Instruction, paramTypeId: nat) {
    && paramTypeId in ctx.defs
    && (|| argumentType.id == ctx.defs[paramTypeId].id
        || (ctx.options.beforeHlslLegalization && DoPointeesLogicallyMatch(ctx, argumentType, ctx.defs[paramTypeId])))
  }

  /** Call operand j (j >= 3) is a defined, typed value acceptable for
      parameter j - 3, whose type is operand j - 1 of the function type. */
  predicate ArgumentConforms(ctx: Context, inst: Instruction, functionType: Instruction, j: nat)
    requires j >= 1
  {
    var a := inst.Operand(j);
    && a in ctx.defs
    && ctx.defs[a].typeId in ctx.defs
    && ArgumentTypeAccepted(ctx, ctx.defs[ctx.defs[a].typeId], functionType.Operand(j - 1))
    && var paramType := ctx.defs[functionType.Operand(j - 1)];
       var sc := DecodeStorageClass(paramType.Operand(1));
       LogicalPointerRulesApply(ctx, paramType) ==> StorageClassAllowed(ctx, sc) && MemoryObjectAccepted(ctx, ctx.defs[a], sc)
  }

  function CallArgument(ctx: Context, inst: Instruction, functionType: Instruction, j: nat): (r: Verdict)
    requires j >= 1
    ensures r.Success? <==> ArgumentConforms(ctx, inst, functionType, j)
    ensures r.Failure? ==> r == Fail(InvalidId, inst)
  {
    var argumentId := inst.Operand(j);
    if argumentId !in ctx.defs then Fail(InvalidId, inst)
    else
      var argument := ctx.defs[argumentId];
      if argument.typeId !in ctx.defs then Fail(InvalidId, inst)
      else
        var argumentType := ctx.defs[argument.typeId];
        var paramTypeId := functionType.Operand(j - 1);
        if paramTypeId !in ctx.defs || argumentType.id != ctx.defs[paramTypeId].id then
          if paramTypeId !in ctx.defs || !ctx.options.beforeHlslLegalization
             || !DoPointeesLogicallyMatch(ctx, argumentType, ctx.defs[paramTypeId]) then Fail(InvalidId, inst)
          else PointerArgument(ctx, inst, argument, ctx.defs[paramTypeId])
        else PointerArgument(ctx, inst, argument, ctx.defs[paramTypeId])
  }

  function PointerArgument(ctx: Context, inst: Instruction, argument: Instruction, paramType: Instruction): (r: Verdict)
    ensures r.Success? <==>
      var sc := DecodeStorageClass(paramType.Operand(1));
      LogicalPointerRulesApply(ctx, paramType) ==> StorageClassAllowed(ctx, sc) && MemoryObjectAccepted(ctx, argument, sc)
    ensures r.Failure? ==> r == Fail(InvalidId, inst)
  {
    if ctx.addressing != Logical then Success
    else if !IsPointerTypeOp(paramType.opcode) || ctx.options.relaxLogicalPointer then Success
    else
      var sc := DecodeStorageClass(paramType.Operand(1));
      if sc == StorageBuffer && !ctx.features.variablePointers then Fail(InvalidId, inst)
      else if sc !in {UniformConstant, Function, Private, Workgroup, AtomicCounter, StorageBuffer} then Fail(InvalidId, inst)
      else if !MemoryObjectAccepted(ctx, argument, sc) then Fail(InvalidId, inst)
      else Success
  }

  /** The callee (operand 2) is an OpFunction whose result type is defined and
      is the call's; its function type (operand 3) is an OpTypeFunction. */
  predicate CalleeConforms(ctx: Context, inst: Instruction) {
    && inst.Operand(2) in ctx.defs
    && ctx.defs[inst.Operand(2)].opcode == OpFunction
    && ctx.defs[inst.Operand(2)].typeId in ctx.defs
    && ctx.defs[ctx.defs[inst.Operand(2)].typeId].id == inst.typeId
    && ctx.defs[inst.Operand(2)].Operand(3) in ctx.defs
    && ctx.defs[ctx.defs[inst.Operand(2)].Operand(3)].opcode == OpTypeFunction
  }

  /** The function type's parameter count (its words after opcode, result id
      and return type) against the call's argument count (its words after
      opcode, result type, result id and callee), both as wrapping sizes. */
  predicate ArityMatches(inst: Instruction, functionType: Instruction) {
    SizeSub(|functionType.operands| + 1, 3) == SizeSub(|inst.operands| + 1, 4)
  }

  predicate CallConforms(ctx: Context, inst: Instruction) {
    && CalleeConforms(ctx, inst)
    && var functionType := ctx.defs[ctx.defs[inst.Operand(2)].Operand(3)];
       && ArityMatches(inst, functionType)
       && forall j | 3 <= j < |inst.operands| :: ArgumentConforms(ctx, inst, functionType, j)
  }

  function ValidateFunctionCall(ctx: Context, inst: Instruction): (r: Verdict)
    ensures r.Success? <==> CallConforms(ctx, inst)
    ensures r.Failure? ==> r == Fail(InvalidId, inst)
  {
    var functionId := inst.Operand(2);
    if functionId !in ctx.defs || ctx.defs[functionId].opcode != OpFunction then Fail(InvalidId, inst)
    else
      var callee := ctx.defs[functionId];
      if callee.typeId !in ctx.defs || ctx.defs[callee.typeId].id != inst.typeId then Fail(InvalidId, inst)
      else
        var functionTypeId := callee.Operand(3);
        if functionTypeId !in ctx.defs || ctx.defs[functionTypeId].opcode != OpTypeFunction then Fail(InvalidId, inst)
        else
          var functionType := ctx.defs[functionTypeId];
          if SizeSub(|functionType.operands| + 1, 3) != SizeSub(|inst.operands| + 1, 4) then Fail(InvalidId, inst)
          else
            var check := (j: nat) requires j >= 1 => CallArgument(ctx, inst, functionType, j);
            assert forall j: nat | j >= 1 :: check(j).Success? <==> ArgumentConforms(ctx, inst, functionType, j);
            Scan(check, 3, |inst.operands|)
  }

  // -------------------------------------------- per-element cooperative op

  /** The definitions the source reads without checking them: the matrix
      operand once the function operand is an OpFunction, and the matrix type
      and function type once the matrix is a cooperative matrix of the
      result type. */
  predicate PerElementDerefsDefined(ctx: Context, inst: Instruction) {
    var f := inst.Operand(3);
    var m := inst.Operand(2);
    && (f in ctx.defs && ctx.defs[f].opcode == OpFunction ==> m in ctx.defs)
    && (f in ctx.defs && ctx.defs[f].opcode == OpFunction && m in ctx.defs
        && ctx.oracle.isCooperativeMatrixKHRType(ctx.defs[m].typeId) && ctx.defs[m].typeId == inst.Operand(0)
        ==> ctx.defs[m].typeId in ctx.defs && ctx.defs[f].Operand(3) in ctx.defs)
  }

  predicate IsInt32Scalar(ctx: Context, t: nat) {
    ctx.oracle.isIntScalarType(t) && ctx.oracle.bitWidth(t) == 32
  }

  /** The callback (operand 3) is a function returning the matrix component
      type and taking a 32-bit row, a 32-bit column and a component; the
      matrix (operand 2) is a cooperative matrix of the result type. */
  predicate PerElementConforms(ctx: Context, inst: Instruction)
    requires PerElementDerefsDefined(ctx, inst)
  {
    var f := inst.Operand(3);
    && f in ctx.defs && ctx.defs[f].opcode == OpFunction
    && var matrixType := ctx.defs[inst.Operand(2)].typeId;
       && ctx.oracle.isCooperativeMatrixKHRType(matrixType)
       && matrixType == inst.Operand(0)
       && var component := ctx.defs[matrixType].Operand(1);
          var functionType := ctx.defs[ctx.defs[f].Operand(3)];
          && functionType.Operand(1) == component
          && |functionType.operands| >= 5
          && IsInt32Scalar(ctx, functionType.Operand(2))
          && IsInt32Scalar(ctx, functionType.Operand(3))
          && functionType.Operand(4) == component
  }

  function ValidateCooperativeMatrixPerElementOp(ctx: Context, inst: Instruction): (r: Verdict)
    requires PerElementDerefsDefined(ctx, inst)
    ensures r.Success? <==> PerElementConforms(ctx, inst)
    ensures r.Failure? ==> r == Fail(InvalidId, inst)
  {
    var functionId := inst.Operand(3);
    if functionId !in ctx.defs || ctx.defs[functionId].opcode != OpFunction then Fail(InvalidId, inst)
    else
      var matrixTypeId := ctx.defs[inst.Operand(2)].typeId;
      if !ctx.oracle.isCooperativeMatrixKHRType(matrixTypeId) then Fail(InvalidId, inst)
      else if matrixTypeId != inst.Operand(0) then Fail(InvalidId, inst)
      else
        var component := ctx.defs[matrixTypeId].Operand(1);
        var functionType := ctx.defs[ctx.defs[functionId].Operand(3)];
        if functionType.Operand(1) != component then Fail(InvalidId, inst)
        else if |functionType.operands| < 5 then Fail(InvalidId, inst)
        else if !IsInt32Scalar(ctx, functionType.Operand(2)) then Fail(InvalidId, inst)
        else if !IsInt32Scalar(ctx, functionType.Operand(3)) then Fail(InvalidId, inst)
        else if functionType.Operand(4) != component then Fail(InvalidId, inst)
        else Success
  }

  // --------------------------------------------------------------- the pass

  /** What the pass needs of the context for the instruction at hand. */
  predicate FunctionPassReady(ctx: Context, inst: Instruction) {
    && (inst.opcode == OpFunctionParameter ==>
          inst.position < |ctx.ordered| && ctx.ordered[inst.position] == inst)
    && (inst.opcode == OpCooperativeMatrixPerElementOpNV ==> PerElementDerefsDefined(ctx, inst))
  }

  method FunctionPass(ctx: Context, inst: Instruction) returns (r: Verdict)
    requires FunctionPassReady(ctx, inst)
    ensures inst.opcode == OpFunction ==> r == FunctionSpec(ctx, inst)
    ensures inst.opcode == OpFunctionParameter ==> r == ParameterSpec(ctx, inst)
    ensures inst.opcode == OpFunctionCall ==> r == ValidateFunctionCall(ctx, inst)
    ensures inst.opcode == OpFunctionCall ==> (r.Success? <==> CallConforms(ctx, inst))
    ensures inst.opcode == OpCooperativeMatrixPerElementOpNV ==> r == ValidateCooperativeMatrixPerElementOp(ctx, inst)
    ensures inst.opcode == OpCooperativeMatrixPerElementOpNV ==> (r.Success? <==> PerElementConforms(ctx, inst))
    ensures inst.opcode !in {OpFunction, OpFunctionParameter, OpFunctionCall, OpCooperativeMatrixPerElementOpNV} ==>
      r == Success
    ensures r.Failure? ==> r.kind in {InvalidId, InvalidLayout}
    ensures r.Failure? && r.kind == InvalidLayout ==> inst.opcode == OpFunctionParameter
  {
    if inst.opcode == OpFunction {
      r := ValidateFunction(ctx, inst);
    } else if inst.opcode == OpFunctionParameter {
      r := ValidateFunctionParameter(ctx, inst);
    } else if inst.opcode == OpFunctionCall {
      r := ValidateFunctionCall(ctx, inst);
    } else if inst.opcode == OpCooperativeMatrixPerElementOpNV {
      r := ValidateCooperativeMatrixPerElementOp(ctx, inst);
    } else {
      r := Success;
    }
  }
}
