/** Properties of the function rules that relate several checks or hold for
    whole families of modules. */
module FunctionProperties {
  import opened Spirv
  import opened ValidationState
  import opened Functions

  // ------------------------------------------------------- pointee matching

  /** A pointer type's pointee matches its own. */
  lemma PointeesMatchReflexive(ctx: Context, a: Instruction)
    requires a.opcode == OpTypePointer
    ensures DoPointeesLogicallyMatch(ctx, a, a)
  {
  }

  /** A match needs every decoration of the parameter's pointer type on the
      argument's: one missing decoration defeats it, whatever the pointees. */
  lemma PointeesMatchNeedsDecorations(ctx: Context, a: Instruction, b: Instruction, d: Decoration)
    requires d in ctx.DecorationsOf(b.id) && d !in ctx.DecorationsOf(a.id)
    ensures !DoPointeesLogicallyMatch(ctx, a, b)
  {
  }

  // --------------------------------------------------------------- OpFunction

  /** Granting FunctionPointersINTEL never makes a use of a function id invalid. */
  lemma FunctionUsesCapabilityMonotone(ctx: Context, inst: Instruction, more: set<Capability>)
    requires ctx.caps <= more
    ensures FunctionSpec(ctx, inst).Success? ==> FunctionSpec(ctx.(caps := more), inst).Success?
  {
    var ctx' := ctx.(caps := more);
    assert ctx'.UsesOf(inst.id) == ctx.UsesOf(inst.id);
    if FunctionSpec(ctx, inst).Success? {
      forall k | 0 <= k < |ctx'.UsesOf(inst.id)|
        ensures UseAllowed(ctx', ctx'.UsesOf(inst.id)[k])
      {
        assert UseAllowed(ctx, ctx.UsesOf(inst.id)[k]);
      }
    }
  }

  /** A function-pointer constant using a function id is an invalid use exactly
      when FunctionPointersINTEL is missing (and it is neither non-semantic nor
      debug information). */
  lemma FunctionPointerUse(ctx: Context, use: Instruction)
    requires use.opcode == OpConstantFunctionPointerINTEL
    requires !ctx.oracle.isNonSemantic(use) && !ctx.oracle.isDebugInfo(use)
    ensures UseAllowed(ctx, use) <==> FunctionPointersINTEL in ctx.caps
  {
  }

  // ----------------------------------------------------- OpFunctionParameter

  /** A parameter at position 0 is out of place. */
  lemma ParameterFirstInModule(ctx: Context, inst: Instruction)
    requires inst.position == 0 < |ctx.ordered|
    ensures ParameterSpec(ctx, inst) == Fail(InvalidLayout, inst)
  {
  }

  /** Counting one more parameter before the scan starts adds one to the
      ordinal it reports and changes nothing else. */
  lemma {:induction false} OwnerScanShift(ordered: seq<Instruction>, i: nat, count: nat)
    requires i < |ordered|
    decreases i
    ensures OwnerScan(ordered, i, count + 1).Some? <==> OwnerScan(ordered, i, count).Some?
    ensures OwnerScan(ordered, i, count).Some? ==>
      OwnerScan(ordered, i, count + 1).value
        == (OwnerScan(ordered, i, count).value.0, OwnerScan(ordered, i, count).value.1 + 1)
  {
    if i > 0 && ordered[i].opcode != OpFunction {
      OwnerScanShift(ordered, i - 1, if ordered[i].opcode == OpFunctionParameter then count + 1 else count);
    }
  }

  /** The parameter right after a function has ordinal 0 and that function as
      its owner. */
  lemma FirstParameterOfFunction(ordered: seq<Instruction>, p: nat)
    requires 2 <= p < |ordered| && ordered[p - 1].opcode == OpFunction
    ensures OwnerScan(ordered, p - 1, 0) == Some((p - 1, 0))
  {
  }

  /** Consecutive parameters have the same owner and consecutive ordinals: the
      parameter after a parameter with ordinal n has ordinal n + 1. */
  lemma ParametersNumberedConsecutively(ordered: seq<Instruction>, p: nat)
    requires 1 <= p < |ordered| && ordered[p].opcode == OpFunctionParameter
    ensures OwnerScan(ordered, p, 0).Some? <==> OwnerScan(ordered, p - 1, 0).Some?
    ensures OwnerScan(ordered, p - 1, 0).Some? ==>
      OwnerScan(ordered, p, 0).value == (OwnerScan(ordered, p - 1, 0).value.0, OwnerScan(ordered, p - 1, 0).value.1 + 1)
  {
    OwnerScanShift(ordered, p - 1, 0);
  }

  /** A function whose type declares n parameters rejects a parameter with
      ordinal n or more, blaming the parameter. */
  lemma TooManyParameters(ctx: Context, inst: Instruction)
    requires 0 < inst.position < |ctx.ordered|
    requires OwnerScan(ctx.ordered, inst.position - 1, 0).Some?
    requires var owner := ctx.ordered[OwnerScan(ctx.ordered, inst.position - 1, 0).value.0];
      && owner.Operand(3) in ctx.defs
      && |ctx.defs[owner.Operand(3)].operands| >= 2
      && OwnerScan(ctx.ordered, inst.position - 1, 0).value.1
         >= |ctx.defs[owner.Operand(3)].operands| - 2
    ensures ParameterSpec(ctx, inst) == Fail(InvalidId, inst)
  {
    ParameterSpecByOwner(ctx, inst);
  }

  // ---------------------------------------------------------- OpFunctionCall

  /** A call whose argument count differs from the callee's parameter count is
      rejected, blaming the call. */
  lemma CallArityMismatch(ctx: Context, inst: Instruction)
    requires CalleeConforms(ctx, inst) && |inst.operands| >= 3
    requires var functionType := ctx.defs[ctx.defs[inst.Operand(2)].Operand(3)];
      |functionType.operands| >= 2 && |functionType.operands| - 2 != |inst.operands| - 3
    ensures ValidateFunctionCall(ctx, inst) == Fail(InvalidId, inst)
  {
  }

  /** Under logical addressing, without the relaxation option and without the
      variable-pointers feature, passing an argument to a StorageBuffer
      pointer parameter is rejected. */
  lemma StorageBufferArgumentNeedsVariablePointers(ctx: Context, inst: Instruction, j: nat)
    requires ctx.addressing == Logical && !ctx.options.relaxLogicalPointer && !ctx.features.variablePointers
    requires CalleeConforms(ctx, inst) && 3 <= j < |inst.operands|
    requires var functionType := ctx.defs[ctx.defs[inst.Operand(2)].Operand(3)];
      && functionType.Operand(j - 1) in ctx.defs
      && IsPointerTypeOp(ctx.defs[functionType.Operand(j - 1)].opcode)
      && DecodeStorageClass(ctx.defs[functionType.Operand(j - 1)].Operand(1)) == StorageBuffer
    ensures ValidateFunctionCall(ctx, inst) == Fail(InvalidId, inst)
  {
    var functionType := ctx.defs[ctx.defs[inst.Operand(2)].Operand(3)];
    assert !ArgumentConforms(ctx, inst, functionType, j);
  }

  /** A call accepted under one context is accepted under another with the
      same tables, features and addressing model, once every argument
      conforms there too. */
  lemma CallAcceptedWhenArgumentsAre(ctx: Context, ctx': Context, inst: Instruction)
    requires ctx'.defs == ctx.defs
    requires CallConforms(ctx, inst)
    requires forall j | 3 <= j < |inst.operands| ::
      ArgumentConforms(ctx', inst, ctx.defs[ctx.defs[inst.Operand(2)].Operand(3)], j)
    ensures ValidateFunctionCall(ctx', inst).Success?
  {
    assert CalleeConforms(ctx', inst);
  }

  /** Setting before_hlsl_legalization never rejects an argument that was accepted. */
  lemma ArgumentUnderLegalization(ctx: Context, inst: Instruction, functionType: Instruction, j: nat)
    requires j >= 1 && ArgumentConforms(ctx, inst, functionType, j)
    ensures ArgumentConforms(ctx.(options := ctx.options.(beforeHlslLegalization := true)), inst, functionType, j)
  {
    var ctx' := ctx.(options := ctx.options.(beforeHlslLegalization := true));
    PointeesMatchOptionsIndependent(ctx, ctx', inst, functionType, j);
  }

  /** Setting relax_logical_pointer never rejects an argument that was accepted. */
  lemma ArgumentUnderRelaxedPointers(ctx: Context, inst: Instruction, functionType: Instruction, j: nat)
    requires j >= 1 && ArgumentConforms(ctx, inst, functionType, j)
    ensures ArgumentConforms(ctx.(options := ctx.options.(relaxLogicalPointer := true)), inst, functionType, j)
  {
    var ctx' := ctx.(options := ctx.options.(relaxLogicalPointer := true));
    PointeesMatchOptionsIndependent(ctx, ctx', inst, functionType, j);
  }

  /** Setting before_hlsl_legalization never rejects a call that was accepted. */
  lemma LegalizationOnlyRelaxesCalls(ctx: Context, inst: Instruction)
    ensures var ctx' := ctx.(options := ctx.options.(beforeHlslLegalization := true));
      ValidateFunctionCall(ctx, inst).Success? ==> ValidateFunctionCall(ctx', inst).Success?
  {
    var ctx' := ctx.(options := ctx.options.(beforeHlslLegalization := true));
    if ValidateFunctionCall(ctx, inst).Success? {
      var functionType := ctx.defs[ctx.defs[inst.Operand(2)].Operand(3)];
      forall j | 3 <= j < |inst.operands|
        ensures ArgumentConforms(ctx', inst, functionType, j)
      {
        ArgumentUnderLegalization(ctx, inst, functionType, j);
      }
      CallAcceptedWhenArgumentsAre(ctx, ctx', inst);
    }
  }

  /** Setting relax_logical_pointer never rejects a call that was accepted. */
  lemma RelaxedPointersOnlyRelaxCalls(ctx: Context, inst: Instruction)
    ensures var ctx' := ctx.(options := ctx.options.(relaxLogicalPointer := true));
      ValidateFunctionCall(ctx, inst).Success? ==> ValidateFunctionCall(ctx', inst).Success?
  {
    var ctx' := ctx.(options := ctx.options.(relaxLogicalPointer := true));
    if ValidateFunctionCall(ctx, inst).Success? {
      var functionType := ctx.defs[ctx.defs[inst.Operand(2)].Operand(3)];
      forall j | 3 <= j < |inst.operands|
        ensures ArgumentConforms(ctx', inst, functionType, j)
      {
        ArgumentUnderRelaxedPointers(ctx, inst, functionType, j);
      }
      CallAcceptedWhenArgumentsAre(ctx, ctx', inst);
    }
  }

  /** The pointee match reads only the decorations and the logical-match
      relation, never the options. */
  lemma PointeesMatchOptionsIndependent(ctx: Context, ctx': Context, inst: Instruction, functionType: Instruction, j: nat)
    requires ctx'.defs == ctx.defs && ctx'.decorations == ctx.decorations && ctx'.oracle == ctx.oracle && j >= 1
    requires inst.Operand(j) in ctx.defs && ctx.defs[inst.Operand(j)].typeId in ctx.defs
    requires functionType.Operand(j - 1) in ctx.defs
    ensures var argumentType := ctx.defs[ctx.defs[inst.Operand(j)].typeId];
      DoPointeesLogicallyMatch(ctx, argumentType, ctx.defs[functionType.Operand(j - 1)])
      == DoPointeesLogicallyMatch(ctx', argumentType, ctx.defs[functionType.Operand(j - 1)])
  {
    var argumentType := ctx.defs[ctx.defs[inst.Operand(j)].typeId];
    var paramType := ctx.defs[functionType.Operand(j - 1)];
    assert ctx'.DecorationsOf(argumentType.id) == ctx.DecorationsOf(argumentType.id);
    assert ctx'.DecorationsOf(paramType.id) == ctx.DecorationsOf(paramType.id);
  }

  /** Outside logical addressing only the types are compared: a call is
      accepted exactly when the callee conforms, the counts agree and every
      argument's type is accepted for its parameter. */
  lemma PhysicalAddressingChecksTypesOnly(ctx: Context, inst: Instruction)
    requires ctx.addressing != Logical
    ensures ValidateFunctionCall(ctx, inst).Success? <==>
      && CalleeConforms(ctx, inst)
      && var functionType := ctx.defs[ctx.defs[inst.Operand(2)].Operand(3)];
         && ArityMatches(inst, functionType)
         && forall j | 3 <= j < |inst.operands| ::
              && inst.operands[j] in ctx.defs
              && ctx.defs[inst.operands[j]].typeId in ctx.defs
              && ArgumentTypeAccepted(ctx, ctx.defs[ctx.defs[inst.operands[j]].typeId], functionType.Operand(j - 1))
  {
    if CalleeConforms(ctx, inst) {
      var functionType := ctx.defs[ctx.defs[inst.Operand(2)].Operand(3)];
      forall j | 3 <= j < |inst.operands|
        ensures ArgumentConforms(ctx, inst, functionType, j) <==>
          && inst.operands[j] in ctx.defs
          && ctx.defs[inst.operands[j]].typeId in ctx.defs
          && ArgumentTypeAccepted(ctx, ctx.defs[ctx.defs[inst.operands[j]].typeId], functionType.Operand(j - 1))
      {
        assert inst.Operand(j) == inst.operands[j];
      }
    }
  }

  // -------------------------------------------- per-element cooperative op

  /** An accepted per-element operation yields the matrix's own type and its
      callback takes at least three parameters. */
  lemma PerElementShape(ctx: Context, inst: Instruction)
    requires PerElementDerefsDefined(ctx, inst)
    requires ValidateCooperativeMatrixPerElementOp(ctx, inst).Success?
    ensures inst.Operand(2) in ctx.defs && ctx.defs[inst.Operand(2)].typeId == inst.Operand(0)
    ensures |ctx.defs[ctx.defs[inst.Operand(3)].Operand(3)].operands| - 2 >= 3
  {
  }
}
