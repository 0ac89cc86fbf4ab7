/** Properties of the constant rules that relate several checks or hold for
    whole families of inputs. */
module ConstantProperties {
  import opened Spirv
  import opened ValidationState
  import opened Constants

  // ------------------------------------------------------------- nullability

  /** Follows a path of component indices down from type t; None when an index
      is out of range or names an undefined type. */
  function Descend(ctx: Context, t: Instruction, path: seq<nat>): (u: Option<Instruction>)
    decreases |path|
    ensures path == [] ==> u == Some(t)
    ensures u.Some? && path != [] ==> exists c | c in ctx.defs :: ctx.defs[c] == u.value
  {
    if path == [] then Some(t)
    else
      var components := ComponentIds(t);
      if path[0] < |components| && components[path[0]] in ctx.defs then
        Descend(ctx, ctx.defs[components[path[0]]], path[1..])
      else None
  }

  predicate IsPhysicalStorageBufferPointer(t: Instruction) {
    IsPointerTypeOp(t.opcode) && DecodeStorageClass(t.Operand(1)) == PhysicalStorageBuffer
  }

  /** Every component type of a nullable type is defined and nullable. */
  lemma {:induction false} NullableComponent(ctx: Context, t: Instruction, i: nat)
    requires Valid(ctx) && Defines(ctx, t) && IsTypeNullable(ctx, t) && i < |ComponentIds(t)|
    ensures ComponentIds(t)[i] in ctx.defs
    ensures Defines(ctx, ctx.defs[ComponentIds(t)[i]]) && IsTypeNullable(ctx, ctx.defs[ComponentIds(t)[i]])
  {
    if t.opcode == OpTypeStruct {
      assert ComponentIds(t)[i] in ctx.defs && IsTypeNullable(ctx, ctx.defs[ComponentIds(t)[i]]);
    }
  }

  /** A null value of a nullable type is built from null values of everything
      below it: every type reached by descending through element, column,
      component and member types is nullable, and none of them is a pointer
      into PhysicalStorageBuffer. */
  lemma {:induction false} NullableAlongPaths(ctx: Context, t: Instruction, path: seq<nat>)
    requires Valid(ctx) && Defines(ctx, t) && IsTypeNullable(ctx, t)
    requires Descend(ctx, t, path).Some?
    ensures Defines(ctx, Descend(ctx, t, path).value)
    ensures IsTypeNullable(ctx, Descend(ctx, t, path).value)
    ensures !IsPhysicalStorageBufferPointer(Descend(ctx, t, path).value)
    decreases |path|
  {
    if path != [] {
      NullableComponent(ctx, t, path[0]);
      NullableAlongPaths(ctx, ctx.defs[ComponentIds(t)[path[0]]], path[1..]);
    }
  }

  /** OpConstantNull of a pointer into PhysicalStorageBuffer is rejected; of a
      pointer into any other storage class, or of a scalar, event, queue or
      reservation type, it is accepted. */
  lemma NullConstantOfPointers(ctx: Context, inst: Instruction)
    requires Valid(ctx) && inst.typeId in ctx.defs
    ensures IsPhysicalStorageBufferPointer(ctx.defs[inst.typeId]) ==>
      ValidateConstantNull(ctx, inst) == Fail(InvalidId, inst)
    ensures IsPointerTypeOp(ctx.defs[inst.typeId].opcode)
            && !IsPhysicalStorageBufferPointer(ctx.defs[inst.typeId]) ==>
      ValidateConstantNull(ctx, inst) == Success
    ensures ctx.defs[inst.typeId].opcode in {OpTypeBool, OpTypeInt, OpTypeFloat, OpTypeEvent,
                                             OpTypeDeviceEvent, OpTypeReserveId, OpTypeQueue} ==>
      ValidateConstantNull(ctx, inst) == Success
  {
  }

  /** A null struct constant is accepted exactly when every member type is
      defined and nullable; a null aggregate exactly when its component is. */
  lemma NullConstantOfAggregates(ctx: Context, inst: Instruction)
    requires Valid(ctx) && inst.typeId in ctx.defs
    ensures var t := ctx.defs[inst.typeId];
      t.opcode == OpTypeStruct ==>
        (ValidateConstantNull(ctx, inst).Success? <==>
          forall k | 1 <= k < |t.operands| :: t.operands[k] in ctx.defs && IsTypeNullable(ctx, ctx.defs[t.operands[k]]))
    ensures var t := ctx.defs[inst.typeId];
      t.opcode in {OpTypeArray, OpTypeMatrix, OpTypeVector, OpTypeCooperativeMatrixKHR,
                   OpTypeCooperativeMatrixNV, OpTypeCooperativeVectorNV} ==>
        (ValidateConstantNull(ctx, inst).Success? <==>
          t.Operand(1) in ctx.defs && IsTypeNullable(ctx, ctx.defs[t.Operand(1)]))
  {
    var t := ctx.defs[inst.typeId];
    if t.opcode == OpTypeStruct {
      assert |t.operands| >= 1 ==> ComponentIds(t) == t.operands[1..];
      forall k | 1 <= k < |t.operands|
        ensures ComponentIds(t)[k - 1] == t.operands[k]
      {
      }
      if ValidateConstantNull(ctx, inst).Success? {
        forall k | 1 <= k < |t.operands|
          ensures t.operands[k] in ctx.defs && IsTypeNullable(ctx, ctx.defs[t.operands[k]])
        {
          NullableComponent(ctx, t, k - 1);
        }
      }
    }
  }

  // -------------------------------------------------------------- composites

  /** A vector constant whose constituent count differs from the vector's
      component count is rejected with INVALID_ID; one with the right count
      of constants of the component type is accepted. */
  lemma VectorConstantCount(ctx: Context, inst: Instruction)
    requires CompositeReady(ctx, inst) && KeyedById(ctx)
    requires inst.typeId in ctx.defs && ctx.defs[inst.typeId].opcode == OpTypeVector
    requires ctx.oracle.isCompositeOp(OpTypeVector) && |inst.operands| >= 2
    ensures |inst.operands| - 2 != ctx.oracle.dimension(inst.typeId) ==>
      ValidateConstantComposite(ctx, inst) == Fail(InvalidId, inst)
    ensures (&& |inst.operands| - 2 == ctx.oracle.dimension(inst.typeId)
             && ctx.defs[inst.typeId].Operand(1) in ctx.defs
             && forall j | 2 <= j < |inst.operands| ::
                  IsConstantOfType(ctx, inst.operands[j], ctx.defs[inst.typeId].Operand(1))) ==>
      ValidateConstantComposite(ctx, inst) == Success
  {
    var rt := ctx.defs[inst.typeId];
    assert ValidateConstantComposite(ctx, inst) == CheckVector(ctx, inst, rt);
    assert forall j | 2 <= j < |inst.operands| :: inst.Operand(j) == inst.operands[j];
  }

  /** A cooperative vector constant whose component count does not fold is
      accepted exactly when its component type is defined and every
      constituent is a constant of that type, however many there are. */
  lemma CooperativeVectorUnknownCount(ctx: Context, inst: Instruction)
    requires CompositeReady(ctx, inst)
    requires inst.typeId in ctx.defs && ctx.defs[inst.typeId].opcode == OpTypeCooperativeVectorNV
    requires ctx.oracle.isCompositeOp(OpTypeCooperativeVectorNV)
    requires !ctx.oracle.evalInt32IfConst(ctx.defs[inst.typeId].Operand(2)).isConst
    ensures var rt := ctx.defs[inst.typeId];
      ValidateConstantComposite(ctx, inst).Success? <==>
        && rt.Operand(1) in ctx.defs
        && forall j | 2 <= j < |inst.operands| :: IsConstantOfType(ctx, inst.operands[j], rt.Operand(1))
  {
    var rt := ctx.defs[inst.typeId];
    assert CompositeConforms(ctx, inst) == VectorConforms(ctx, inst, rt);
    assert forall j | 2 <= j < |inst.operands| :: inst.Operand(j) == inst.operands[j];
  }

  /** An array constant is checked against its length only when the length
      folds to a 32-bit constant; its constituents are checked either way. */
  lemma ArrayConstantLength(ctx: Context, inst: Instruction)
    requires CompositeReady(ctx, inst)
    requires inst.typeId in ctx.defs && ctx.defs[inst.typeId].opcode == OpTypeArray
    requires ctx.oracle.isCompositeOp(OpTypeArray) && |inst.operands| >= 2
    ensures var rt := ctx.defs[inst.typeId];
      var fold := ctx.oracle.evalInt32IfConst(rt.Operand(2));
      (rt.Operand(1) in ctx.defs && rt.Operand(2) in ctx.defs && fold.isInt32 && fold.isConst
       && fold.value != |inst.operands| - 2) ==> ValidateConstantComposite(ctx, inst) == Fail(InvalidId, inst)
    ensures var rt := ctx.defs[inst.typeId];
      var fold := ctx.oracle.evalInt32IfConst(rt.Operand(2));
      (&& !(fold.isInt32 && fold.isConst)
       && rt.Operand(1) in ctx.defs && rt.Operand(2) in ctx.defs
       && forall j | 2 <= j < |inst.operands| :: IsConstantOfType(ctx, inst.operands[j], rt.Operand(1))) ==>
        ValidateConstantComposite(ctx, inst) == Success
    ensures var rt := ctx.defs[inst.typeId];
      ValidateConstantComposite(ctx, inst).Success? ==>
        forall j | 2 <= j < |inst.operands| :: IsConstantOfType(ctx, inst.operands[j], rt.Operand(1))
  {
    assert forall j | 2 <= j < |inst.operands| :: inst.Operand(j) == inst.operands[j];
  }

  /** A struct constant is accepted exactly when it has one constituent per
      member and constituent i is a constant of member type i. */
  lemma StructConstantMembers(ctx: Context, inst: Instruction)
    requires CompositeReady(ctx, inst)
    requires inst.typeId in ctx.defs && ctx.defs[inst.typeId].opcode == OpTypeStruct
    requires ctx.oracle.isCompositeOp(OpTypeStruct) && |inst.operands| >= 2
    requires |inst.operands| < 0x1_0000 // the word count is a 16-bit field
    ensures var rt := ctx.defs[inst.typeId];
      ValidateConstantComposite(ctx, inst).Success? <==>
        && |rt.operands| == |inst.operands| - 1
        && forall j | 2 <= j < |inst.operands| :: IsConstantOfType(ctx, inst.operands[j], rt.operands[j - 1])
  {
    var rt := ctx.defs[inst.typeId];
    if |rt.operands| == |inst.operands| - 1 {
      assert forall j | 2 <= j < |inst.operands| ::
        inst.Operand(j) == inst.operands[j] && rt.Operand(j - 1) == rt.operands[j - 1];
    }
  }

  /** A tensor constant whose rank does not fold is checked only for its
      outermost dimension and for constituents being typed constants. */
  lemma TensorConstantUnknownRank(ctx: Context, inst: Instruction)
    requires CompositeReady(ctx, inst)
    requires inst.typeId in ctx.defs && ctx.defs[inst.typeId].opcode == OpTypeTensorARM
    requires |ctx.defs[inst.typeId].operands| == 4
    requires ctx.oracle.evalUint64(ctx.defs[inst.typeId].Operand(2)).None?
    ensures var rt := ctx.defs[inst.typeId];
      ValidateConstantComposite(ctx, inst).Success? <==>
        && rt.Operand(1) in ctx.defs && rt.Operand(2) in ctx.defs && rt.Operand(3) in ctx.defs
        && (var outermost := ctx.oracle.evalUint64(ctx.defs[rt.Operand(3)].Operand(2));
            outermost.Some? ==> outermost.value == ConstituentCount(inst))
        && forall j | 2 <= j < |inst.operands| :: IsTypedConstant(ctx, inst.operands[j])
  {
    assert forall j | 2 <= j < |inst.operands| :: inst.Operand(j) == inst.operands[j];
  }

  /** At rank 1 a tensor constant is accepted exactly when its element, rank
      and shape are defined, its outermost dimension fits, and every
      constituent is a constant of the element type. */
  lemma TensorConstantRankOne(ctx: Context, inst: Instruction)
    requires CompositeReady(ctx, inst)
    requires inst.typeId in ctx.defs && ctx.defs[inst.typeId].opcode == OpTypeTensorARM
    requires |ctx.defs[inst.typeId].operands| == 4
    requires ctx.oracle.evalUint64(ctx.defs[inst.typeId].Operand(2)) == Some(1)
    ensures var rt := ctx.defs[inst.typeId];
      ValidateConstantComposite(ctx, inst).Success? <==>
        && rt.Operand(1) in ctx.defs && rt.Operand(2) in ctx.defs && rt.Operand(3) in ctx.defs
        && (var outermost := ctx.oracle.evalUint64(ctx.defs[rt.Operand(3)].Operand(2));
            outermost.Some? ==> outermost.value == ConstituentCount(inst))
        && forall j | 2 <= j < |inst.operands| :: IsConstantOfType(ctx, inst.operands[j], rt.Operand(1))
  {
    assert forall j | 2 <= j < |inst.operands| :: inst.Operand(j) == inst.operands[j];
  }

  // ------------------------------------------------------------ capabilities

  /** Specialization constant operations only ever need more capabilities:
      what is accepted stays accepted when capabilities are added. */
  lemma SpecConstantOpCapabilitiesMonotone(ctx: Context, inst: Instruction, more: set<Capability>)
    requires ctx.caps <= more
    ensures ValidateSpecConstantOp(ctx, inst).Success? ==> ValidateSpecConstantOp(ctx.(caps := more), inst).Success?
  {
  }

  /** OpSpecConstantOp embedding OpFAdd is rejected with INVALID_ID without the
      Kernel capability. */
  lemma SpecConstantFAddNeedsKernel(ctx: Context, inst: Instruction)
    requires inst.opcode == OpSpecConstantOp && inst.Operand(2) == 129 && Kernel !in ctx.caps
    requires ConstantPassReady(ctx, inst)
    ensures ConstantPass(ctx, inst) == Fail(InvalidId, inst)
  {
    assert DecodeEmbeddedOp(129) == OpFAdd;
    assert ConstantKindCheck(ctx, inst) == ValidateSpecConstantOp(ctx, inst);
  }

  /** An OpSpecConstantOp whose literal word is the numeric value of a gated
      opcode fails exactly when that opcode's capability is missing. */
  lemma EmbeddedOpGate(ctx: Context, inst: Instruction, op: Op)
    requires op in SpecConstantOpGated() && inst.Operand(2) == EmbeddedOpCode(op)
    ensures ValidateSpecConstantOp(ctx, inst).Failure? <==> SpecOpLacksCapability(ctx, op)
    ensures ValidateSpecConstantOp(ctx, inst).Failure? ==> ValidateSpecConstantOp(ctx, inst) == Fail(InvalidId, inst)
  {
  }

  /** Leaving the Shader capability as it is, adding capabilities never turns
      an accepted constant into a rejected one. Adding Shader can: it switches
      on the 8/16-bit rule. */
  lemma ConstantPassMonotoneBesideShader(ctx: Context, inst: Instruction, more: set<Capability>)
    requires ConstantPassReady(ctx, inst)
    requires ctx.caps <= more && (Shader in more <==> Shader in ctx.caps)
    ensures ConstantPassReady(ctx.(caps := more), inst)
    ensures ConstantPass(ctx, inst).Success? ==> ConstantPass(ctx.(caps := more), inst).Success?
  {
    var ctx' := ctx.(caps := more);
    if ConstantPass(ctx, inst).Success? {
      KindCheckMonotone(ctx, inst, more);
      assert NarrowConstantForbidden(ctx', inst) == NarrowConstantForbidden(ctx, inst);
    }
  }

  lemma KindCheckMonotone(ctx: Context, inst: Instruction, more: set<Capability>)
    requires ConstantPassReady(ctx, inst) && ctx.caps <= more
    ensures ConstantPassReady(ctx.(caps := more), inst)
    ensures ConstantKindCheck(ctx, inst).Success? ==> ConstantKindCheck(ctx.(caps := more), inst).Success?
  {
    var ctx' := ctx.(caps := more);
    var op := inst.opcode;
    if op in {OpConstantTrue, OpConstantFalse, OpSpecConstantTrue, OpSpecConstantFalse} {
      assert ConstantKindCheck(ctx', inst) == ValidateConstantBool(ctx', inst);
    } else if op in {OpConstantComposite, OpSpecConstantComposite} {
      CompositeIgnoresCapabilities(ctx, inst, more);
      assert ConstantKindCheck(ctx', inst) == ValidateConstantComposite(ctx', inst);
    } else if op == OpConstantSampler {
      assert ConstantKindCheck(ctx', inst) == ValidateConstantSampler(ctx', inst);
    } else if op == OpConstantNull {
      if inst.typeId in ctx.defs {
        NullableIgnoresCapabilities(ctx, more, ctx.defs[inst.typeId]);
      }
      assert ConstantKindCheck(ctx', inst) == ValidateConstantNull(ctx', inst);
    } else if op == OpSpecConstant {
      assert ConstantKindCheck(ctx', inst) == ValidateSpecConstant(ctx', inst);
    } else if op == OpSpecConstantOp {
      assert ConstantKindCheck(ctx', inst) == ValidateSpecConstantOp(ctx', inst);
    } else if op == OpConstantFunctionPointerINTEL {
      assert ConstantKindCheck(ctx', inst) == ValidateConstantFunctionPointerINTEL(ctx', inst);
    }
  }

  /** The composite rules read only the definition table and the folders. */
  lemma CompositeIgnoresCapabilities(ctx: Context, inst: Instruction, more: set<Capability>)
    ensures CompositeConforms(ctx.(caps := more), inst) == CompositeConforms(ctx, inst)
  {
    if inst.typeId in ctx.defs {
      var rt := ctx.defs[inst.typeId];
      ShapesIgnoreCapabilities(ctx, inst, rt, more);
      TensorIgnoresCapabilities(ctx, inst, rt, more);
    }
  }

  lemma ShapesIgnoreCapabilities(ctx: Context, inst: Instruction, rt: Instruction, more: set<Capability>)
    ensures VectorConforms(ctx.(caps := more), inst, rt) == VectorConforms(ctx, inst, rt)
    ensures MatrixConforms(ctx.(caps := more), inst, rt) == MatrixConforms(ctx, inst, rt)
    ensures ArrayConforms(ctx.(caps := more), inst, rt) == ArrayConforms(ctx, inst, rt)
    ensures StructConforms(ctx.(caps := more), inst, rt) == StructConforms(ctx, inst, rt)
    ensures CooperativeMatrixConforms(ctx.(caps := more), inst, rt) == CooperativeMatrixConforms(ctx, inst, rt)
  {
  }

  lemma TensorIgnoresCapabilities(ctx: Context, inst: Instruction, rt: Instruction, more: set<Capability>)
    ensures TensorConforms(ctx.(caps := more), inst, rt) == TensorConforms(ctx, inst, rt)
  {
    var ctx' := ctx.(caps := more);
    if rt.Operand(1) in ctx.defs && rt.Operand(2) in ctx.defs && rt.Operand(3) in ctx.defs {
      var shape := ctx.defs[rt.Operand(3)];
      var rank := FoldedRank(ctx, rt.Operand(2));
      assert FoldedRank(ctx', rt.Operand(2)) == rank;
      forall j | 2 <= j < |inst.operands|
        ensures TensorConstituentConforms(ctx', inst.Operand(j), rt.Operand(1), rank, shape)
             == TensorConstituentConforms(ctx, inst.Operand(j), rt.Operand(1), rank, shape)
      {
        TensorConstituentIgnoresCapabilities(ctx, more, inst.Operand(j), rt.Operand(1), rank, shape);
      }
    }
  }

  lemma TensorConstituentIgnoresCapabilities(ctx: Context, more: set<Capability>, c: nat, elementType: nat,
                                             rank: nat, shape: Instruction)
    ensures TensorConstituentConforms(ctx.(caps := more), c, elementType, rank, shape)
         == TensorConstituentConforms(ctx, c, elementType, rank, shape)
  {
  }

  /** Nullability reads only the definition table. */
  lemma {:induction false} NullableIgnoresCapabilities(ctx: Context, more: set<Capability>, t: Instruction)
    requires Valid(ctx) && Defines(ctx, t)
    ensures Valid(ctx.(caps := more)) && Defines(ctx.(caps := more), t)
    ensures IsTypeNullable(ctx, t) == IsTypeNullable(ctx.(caps := more), t)
    decreases NullabilityDepth(t)
  {
    var ctx' := ctx.(caps := more);
    forall i | 0 <= i < |ComponentIds(t)| && ComponentIds(t)[i] in ctx.defs
      ensures IsTypeNullable(ctx, ctx.defs[ComponentIds(t)[i]]) == IsTypeNullable(ctx', ctx.defs[ComponentIds(t)[i]])
    {
      ComponentDeclaredEarlier(ctx, t, i);
      NullableIgnoresCapabilities(ctx, more, ctx.defs[ComponentIds(t)[i]]);
    }
    if t.opcode in {OpTypeArray, OpTypeMatrix, OpTypeCooperativeMatrixNV, OpTypeCooperativeMatrixKHR,
                    OpTypeCooperativeVectorNV, OpTypeVector, OpTypeTensorARM} {
      assert ComponentIds(t)[0] == t.Operand(1);
    }
  }

  /** Which kind of error each kind-specific rule can report: a data error
      only for OpSpecConstant, a capability error only for a function-pointer
      constant without FunctionPointersINTEL, never a layout error. */
  lemma KindCheckErrorKinds(ctx: Context, inst: Instruction)
    requires ConstantPassReady(ctx, inst)
    ensures var k := ConstantKindCheck(ctx, inst);
      && (k.Failure? ==> k.kind != InvalidLayout)
      && (k.Failure? && k.kind == InvalidData <==>
            inst.opcode == OpSpecConstant && ctx.defs[inst.Operand(0)].opcode !in {OpTypeInt, OpTypeFloat})
      && (k.Failure? && k.kind == InvalidCapability <==>
            inst.opcode == OpConstantFunctionPointerINTEL && FunctionPointersINTEL !in ctx.caps)
  {
    var op := inst.opcode;
    var k := ConstantKindCheck(ctx, inst);
    if op in {OpConstantTrue, OpConstantFalse, OpSpecConstantTrue, OpSpecConstantFalse} {
      assert k == ValidateConstantBool(ctx, inst);
    } else if op in {OpConstantComposite, OpSpecConstantComposite} {
      assert k == ValidateConstantComposite(ctx, inst);
    } else if op == OpConstantSampler {
      assert k == ValidateConstantSampler(ctx, inst);
    } else if op == OpConstantNull {
      assert k == ValidateConstantNull(ctx, inst);
    } else if op == OpSpecConstant {
      assert k == ValidateSpecConstant(ctx, inst);
    } else if op == OpSpecConstantOp {
      assert k == ValidateSpecConstantOp(ctx, inst);
    } else if op == OpConstantFunctionPointerINTEL {
      assert k == ValidateConstantFunctionPointerINTEL(ctx, inst);
    } else {
      assert k == Success;
    }
  }

  /** The pass never reports a layout error; it reports a capability error
      exactly for a function-pointer constant without FunctionPointersINTEL,
      and a data error exactly for OpSpecConstant whose type is neither an
      integer nor a float type. */
  lemma ConstantPassErrorKinds(ctx: Context, inst: Instruction)
    requires ConstantPassReady(ctx, inst)
    ensures ConstantPass(ctx, inst).Failure? ==> ConstantPass(ctx, inst).kind != InvalidLayout
    ensures ConstantPass(ctx, inst).Failure? && ConstantPass(ctx, inst).kind == InvalidCapability <==>
      inst.opcode == OpConstantFunctionPointerINTEL && FunctionPointersINTEL !in ctx.caps
    ensures ConstantPass(ctx, inst).Failure? && ConstantPass(ctx, inst).kind == InvalidData <==>
      inst.opcode == OpSpecConstant && ctx.defs[inst.Operand(0)].opcode !in {OpTypeInt, OpTypeFloat}
  {
    KindCheckErrorKinds(ctx, inst);
  }

  /** A struct whose member is a pointer declared after it, through a
      forward-pointer declaration, satisfies the layout rules; a null constant
      of it is rejected when that pointer points into PhysicalStorageBuffer. */
  lemma ForwardPointerMember(ctx: Context, inst: Instruction)
    requires ctx.defs == ForwardPointerLayout()
    requires inst.opcode == OpConstantNull && inst.typeId == 2
    ensures Valid(ctx) && ConstantPassReady(ctx, inst)
    ensures ConstantKindCheck(ctx, inst) == Fail(InvalidId, inst)
  {
    ForwardPointerLayoutValid(ctx);
    var s := ctx.defs[2];
    assert ComponentIds(s) == [3];
    assert DecodeStorageClass(ctx.defs[3].Operand(1)) == PhysicalStorageBuffer;
    assert !IsTypeNullable(ctx, ctx.defs[ComponentIds(s)[0]]);
    assert ConstantKindCheck(ctx, inst) == ValidateConstantNull(ctx, inst);
  }

  /** A structure (id 2) whose member is a PhysicalStorageBuffer pointer
      (id 3) declared after it, as OpTypeForwardPointer allows. */
  function ForwardPointerLayout(): map<nat, Instruction> {
    map[2 := Instruction(OpTypeStruct, 2, 0, [2, 3], 1),
        3 := Instruction(OpTypePointer, 3, 0, [3, 5349, 2], 2)]
  }

  /** The forward-pointer layout meets the module layout rules. */
  lemma ForwardPointerLayoutValid(ctx: Context)
    requires ctx.defs == ForwardPointerLayout()
    ensures Valid(ctx)
  {
    assert ComponentIds(ctx.defs[2]) == [3];
    assert ComponentIds(ctx.defs[3]) == [];
    assert ctx.defs.Keys == {2, 3};
    forall id, i | id in ctx.defs && 0 <= i < |ComponentIds(ctx.defs[id])|
      ensures ComponentIds(ctx.defs[id])[i] in ctx.defs && !IsPointerTypeOp(ctx.defs[ComponentIds(ctx.defs[id])[i]].opcode) ==>
        ctx.defs[ComponentIds(ctx.defs[id])[i]].position < ctx.defs[id].position
    {
      assert id == 2 && i == 0;
    }
  }

  /** Without the Shader capability the pass answers exactly what the
      kind-specific rule answers. */
  lemma ConstantPassWithoutShader(ctx: Context, inst: Instruction)
    requires ConstantPassReady(ctx, inst) && Shader !in ctx.caps
    ensures ConstantPass(ctx, inst) == ConstantKindCheck(ctx, inst)
  {
  }

  /** A module with the Shader capability cannot form a constant of a
      non-pointer type containing an 8- or 16-bit scalar whose width
      capability is not declared, even one every other rule accepts. */
  lemma NarrowConstantsRejectedUnderShader(ctx: Context, inst: Instruction)
    requires ConstantPassReady(ctx, inst)
    requires ctx.oracle.isConstantOp(inst.opcode) && Shader in ctx.caps
    requires !ctx.oracle.isPointerType(inst.typeId) && ctx.oracle.containsLimitedUseIntOrFloat(inst.typeId)
    ensures ConstantPass(ctx, inst).Failure? && ConstantPass(ctx, inst).kind != InvalidLayout
  {
  }
}
