/** Rules for the constant-creation instructions (section 3.52.7 of the SPIR-V
    specification) as checked by source/val/validate_constants.cpp. */
module Constants {
  import opened Spirv
  import opened ValidationState

  // ---------------------------------------------------------------- booleans

  function ValidateConstantBool(ctx: Context, inst: Instruction): (r: Verdict)
    ensures r.Success? <==> inst.typeId in ctx.defs && ctx.defs[inst.typeId].opcode == OpTypeBool
    ensures r.Failure? ==> r == Fail(InvalidId, inst)
  {
    if inst.typeId !in ctx.defs || ctx.defs[inst.typeId].opcode != OpTypeBool then
      Fail(InvalidId, inst)
    else
      Success
  }

  // -------------------------------------------------------------- composites

  /** A composite type, or an ARM tensor type that carries a shape (5 words). */
  predicate IsCompositeType(ctx: Context, t: Instruction) {
    ctx.oracle.isCompositeOp(t.opcode) || (t.opcode == OpTypeTensorARM && |t.operands| + 1 == 5)
  }

  /** The number of constituents of a composite constant: its words after the
      opcode, result type and result id. */
  function ConstituentCount(inst: Instruction): (n: nat)
    ensures |inst.operands| >= 2 ==> n == |inst.operands| - 2
  {
    SizeSub(|inst.operands| + 1, 3)
  }

  /** Id c is a constant or undef whose type is defined. */
  predicate IsTypedConstant(ctx: Context, c: nat) {
    c in ctx.defs && ctx.oracle.isConstantOrUndefOp(ctx.defs[c].opcode) && ctx.defs[c].typeId in ctx.defs
  }

  /** Id c is a constant or undef of type t. */
  predicate IsConstantOfType(ctx: Context, c: nat, t: nat) {
    IsTypedConstant(ctx, c) && ctx.defs[c].typeId == t
  }

  /** A constituent of a matrix constant that is a constant or undef whose
      type is defined with the column type's opcode: that type's component
      type is defined. The matrix rule reads it without checking. */
  predicate ColumnComponentDefined(ctx: Context, column: Instruction, c: nat) {
    (&& c in ctx.defs && ctx.oracle.isConstantOrUndefOp(ctx.defs[c].opcode)
     && ctx.defs[c].typeId in ctx.defs && ctx.defs[ctx.defs[c].typeId].opcode == column.opcode) ==>
      ctx.defs[ctx.defs[c].typeId].Operand(1) in ctx.defs
  }

  /** What the composite rule reads without checking that it exists: for a
      matrix result type with a defined column type, the component type of
      each constituent's vector type. The type rules establish it, since those
      vector types are declared before the constant. */
  predicate CompositeReady(ctx: Context, inst: Instruction) {
    inst.typeId in ctx.defs && ctx.defs[inst.typeId].opcode == OpTypeMatrix && ctx.defs[inst.typeId].Operand(1) in ctx.defs ==>
      forall j | 2 <= j < |inst.operands| ::
        ColumnComponentDefined(ctx, ctx.defs[ctx.defs[inst.typeId].Operand(1)], inst.Operand(j))
  }

  // ---- vector and cooperative vector

  /** The component count of a vector type (always known) or of a cooperative
      vector type (known only when its count id folds to a constant). */
  function ComponentCountFold(ctx: Context, rt: Instruction): Int32Fold {
    if rt.opcode == OpTypeCooperativeVectorNV then ctx.oracle.evalInt32IfConst(rt.Operand(2))
    else Int32Fold(true, true, ctx.oracle.dimension(rt.id))
  }

  function VectorConstituent(ctx: Context, inst: Instruction, componentType: nat, j: nat): (r: Verdict)
    ensures r.Success? <==> IsConstantOfType(ctx, inst.Operand(j), componentType)
    ensures r.Failure? ==> r == Fail(InvalidId, inst)
  {
    var c := inst.Operand(j);
    if c !in ctx.defs || !ctx.oracle.isConstantOrUndefOp(ctx.defs[c].opcode) then Fail(InvalidId, inst)
    else if ctx.defs[c].typeId !in ctx.defs || componentType != ctx.defs[c].typeId then Fail(InvalidId, inst)
    else Success
  }

  predicate VectorConforms(ctx: Context, inst: Instruction, rt: Instruction) {
    var fold := ComponentCountFold(ctx, rt);
    && (fold.isConst ==> fold.value == ConstituentCount(inst))
    && rt.Operand(1) in ctx.defs
    && forall j | 2 <= j < |inst.operands| :: IsConstantOfType(ctx, inst.Operand(j), rt.Operand(1))
  }

  function CheckVector(ctx: Context, inst: Instruction, rt: Instruction): (r: Verdict)
    ensures r.Success? <==> VectorConforms(ctx, inst, rt)
    ensures r.Failure? ==> r.kind == InvalidId
  {
    var fold := ComponentCountFold(ctx, rt);
    if fold.isConst && fold.value != ConstituentCount(inst) then Fail(InvalidId, inst)
    else if rt.Operand(1) !in ctx.defs then Fail(InvalidId, rt)
    else
      var check := (j: nat) => VectorConstituent(ctx, inst, rt.Operand(1), j);
      assert forall j: nat :: check(j).Success? <==> IsConstantOfType(ctx, inst.Operand(j), rt.Operand(1));
      Scan(check, 2, |inst.operands|)
  }

  // ---- matrix

  function MatrixConstituent(ctx: Context, inst: Instruction, column: Instruction, j: nat): (r: Verdict)
    requires ColumnComponentDefined(ctx, column, inst.Operand(j))
    ensures r.Success? <==> MatrixColumnConforms(ctx, column, inst.Operand(j))
    ensures r.Failure? ==> r.kind == InvalidId
  {
    var c := inst.Operand(j);
    if c !in ctx.defs || !ctx.oracle.isConstantOrUndefOp(ctx.defs[c].opcode) then Fail(InvalidId, inst)
    else if ctx.defs[c].typeId !in ctx.defs then Fail(InvalidId, ctx.defs[c])
    else
      var vector := ctx.defs[ctx.defs[c].typeId];
      if column.opcode != vector.opcode then Fail(InvalidId, inst)
      else
        assert vector.Operand(1) in ctx.defs;
        if column.Operand(1) != vector.Operand(1) then Fail(InvalidId, inst)
        else if column.Operand(2) != vector.Operand(2) then Fail(InvalidId, inst)
        else Success
  }

  /** Id c is a constant or undef vector with the column type's component type
      and component count. */
  predicate MatrixColumnConforms(ctx: Context, column: Instruction, c: nat) {
    && IsTypedConstant(ctx, c)
    && var vector := ctx.defs[ctx.defs[c].typeId];
    && vector.opcode == column.opcode
    && vector.Operand(1) == column.Operand(1)
    && vector.Operand(2) == column.Operand(2)
  }

  predicate MatrixConforms(ctx: Context, inst: Instruction, rt: Instruction) {
    && rt.Operand(2) == ConstituentCount(inst)
    && rt.Operand(1) in ctx.defs
    && ctx.defs[rt.Operand(1)].Operand(1) in ctx.defs
    && forall j | 2 <= j < |inst.operands| :: MatrixColumnConforms(ctx, ctx.defs[rt.Operand(1)], inst.Operand(j))
  }

  function CheckMatrix(ctx: Context, inst: Instruction, rt: Instruction): (r: Verdict)
    requires rt.Operand(1) in ctx.defs ==>
      forall j | 2 <= j < |inst.operands| :: ColumnComponentDefined(ctx, ctx.defs[rt.Operand(1)], inst.Operand(j))
    ensures r.Success? <==> MatrixConforms(ctx, inst, rt)
    ensures r.Failure? ==> r.kind == InvalidId
  {
    if rt.Operand(2) != ConstituentCount(inst) then Fail(InvalidId, inst)
    else if rt.Operand(1) !in ctx.defs then Fail(InvalidId, rt)
    else
      var column := ctx.defs[rt.Operand(1)];
      if column.Operand(1) !in ctx.defs then Fail(InvalidId, column)
      else CheckColumns(ctx, inst, column)
  }

  /** The constituent loop of the matrix rule. */
  function CheckColumns(ctx: Context, inst: Instruction, column: Instruction): (r: Verdict)
    requires forall j | 2 <= j < |inst.operands| :: ColumnComponentDefined(ctx, column, inst.Operand(j))
    ensures r.Success? <==> forall j | 2 <= j < |inst.operands| :: MatrixColumnConforms(ctx, column, inst.Operand(j))
    ensures r.Failure? ==> r.kind == InvalidId
  {
    var check := (j: nat) requires 2 <= j < |inst.operands| => MatrixConstituent(ctx, inst, column, j);
    assert forall j: nat | 2 <= j < |inst.operands| :: check(j).Success? <==> MatrixColumnConforms(ctx, column, inst.Operand(j));
    Scan(check, 2, |inst.operands|)
  }

  // ---- array

  function ArrayConstituent(ctx: Context, inst: Instruction, elementType: nat, j: nat): (r: Verdict)
    ensures r.Success? <==> IsConstantOfType(ctx, inst.Operand(j), elementType)
    ensures r.Failure? ==> r.kind == InvalidId
  {
    var c := inst.Operand(j);
    if c !in ctx.defs || !ctx.oracle.isConstantOrUndefOp(ctx.defs[c].opcode) then Fail(InvalidId, inst)
    else if ctx.defs[c].typeId !in ctx.defs then Fail(InvalidId, ctx.defs[c])
    else if elementType != ctx.defs[c].typeId then Fail(InvalidId, inst)
    else Success
  }

  /** The array length, when it folds to a 32-bit integer constant. */
  function FoldedArrayLength(ctx: Context, rt: Instruction): Option<nat> {
    var fold := ctx.oracle.evalInt32IfConst(rt.Operand(2));
    if fold.isInt32 && fold.isConst then Some(fold.value) else None
  }

  predicate ArrayConforms(ctx: Context, inst: Instruction, rt: Instruction) {
    && rt.Operand(1) in ctx.defs
    && rt.Operand(2) in ctx.defs
    && (FoldedArrayLength(ctx, rt).Some? ==> FoldedArrayLength(ctx, rt).value == ConstituentCount(inst))
    && forall j | 2 <= j < |inst.operands| :: IsConstantOfType(ctx, inst.Operand(j), rt.Operand(1))
  }

  function CheckArray(ctx: Context, inst: Instruction, rt: Instruction): (r: Verdict)
    ensures r.Success? <==> ArrayConforms(ctx, inst, rt)
    ensures r.Failure? ==> r.kind == InvalidId
  {
    var elementType := rt.Operand(1);
    if elementType !in ctx.defs then Fail(InvalidId, rt)
    else if rt.Operand(2) !in ctx.defs then Fail(InvalidId, rt)
    else
      var fold := ctx.oracle.evalInt32IfConst(rt.Operand(2));
      if fold.isInt32 && fold.isConst && fold.value != ConstituentCount(inst) then Fail(InvalidId, inst)
      else
        var check := (j: nat) => ArrayConstituent(ctx, inst, elementType, j);
        assert forall j: nat :: check(j).Success? <==> IsConstantOfType(ctx, inst.Operand(j), elementType);
        Scan(check, 2, |inst.operands|)
  }

  // ---- struct

  /** Constituent j (j >= 2) against member j - 1 of the struct type. */
  function StructConstituent(ctx: Context, inst: Instruction, rt: Instruction, j: nat): (r: Verdict)
    requires j >= 1
    ensures r.Success? <==> IsConstantOfType(ctx, inst.Operand(j), rt.Operand(j - 1))
    ensures r.Failure? ==> r.kind == InvalidId
  {
    var c := inst.Operand(j);
    if c !in ctx.defs || !ctx.oracle.isConstantOrUndefOp(ctx.defs[c].opcode) then Fail(InvalidId, inst)
    else if ctx.defs[c].typeId !in ctx.defs then Fail(InvalidId, ctx.defs[c])
    else
      var memberType := rt.Operand(j - 1);
      if memberType !in ctx.defs || memberType != ctx.defs[c].typeId then Fail(InvalidId, inst)
      else Success
  }

  /** The member count of a struct type: its words after opcode and result id. */
  function MemberCount(rt: Instruction): (n: nat)
    ensures |rt.operands| >= 1 ==> n == |rt.operands| - 1
  {
    SizeSub(|rt.operands| + 1, 2)
  }

  predicate StructConforms(ctx: Context, inst: Instruction, rt: Instruction) {
    && MemberCount(rt) == ConstituentCount(inst)
    && forall j | 2 <= j < |inst.operands| ::
         IsConstantOfType(ctx, inst.Operand(j), rt.Operand(j - 1))
  }

  function CheckStruct(ctx: Context, inst: Instruction, rt: Instruction): (r: Verdict)
    ensures r.Success? <==> StructConforms(ctx, inst, rt)
    ensures r.Failure? ==> r.kind == InvalidId
  {
    if MemberCount(rt) != ConstituentCount(inst) then Fail(InvalidId, inst)
    else
      var check := (j: nat) requires j >= 1 => StructConstituent(ctx, inst, rt, j);
      assert forall j: nat | j >= 1 :: check(j).Success? <==> IsConstantOfType(ctx, inst.Operand(j), rt.Operand(j - 1));
      Scan(check, 2, |inst.operands|)
  }

  // ---- cooperative matrix

  predicate CooperativeMatrixConforms(ctx: Context, inst: Instruction, rt: Instruction) {
    && ConstituentCount(inst) == 1
    && IsConstantOfType(ctx, inst.Operand(2), rt.Operand(1))
  }

  function CheckCooperativeMatrix(ctx: Context, inst: Instruction, rt: Instruction): (r: Verdict)
    ensures r.Success? <==> CooperativeMatrixConforms(ctx, inst, rt)
    ensures r.Failure? ==> r.kind == InvalidId
  {
    if 1 != ConstituentCount(inst) then Fail(InvalidId, inst)
    else
      var c := inst.Operand(2);
      if c !in ctx.defs || !ctx.oracle.isConstantOrUndefOp(ctx.defs[c].opcode) then Fail(InvalidId, inst)
      else if ctx.defs[c].typeId !in ctx.defs then Fail(InvalidId, ctx.defs[c])
      else if rt.Operand(1) !in ctx.defs || rt.Operand(1) != ctx.defs[c].typeId then Fail(InvalidId, inst)
      else Success
  }

  // ---- shaped ARM tensor

  /** Dimension k of a constituent's shape against dimension k + 1 of the
      result's shape; checked only when both fold. */
  function ShapeDimension(ctx: Context, inst: Instruction, innerShape: Instruction, shape: Instruction, k: nat): (r: Verdict)
    ensures r.Failure? <==> DimensionsDiffer(ctx, innerShape.Operand(k), shape.Operand(k + 1))
    ensures r.Failure? ==> r == Fail(InvalidId, inst)
  {
    var inner := ctx.oracle.evalUint64(innerShape.Operand(k));
    var outer := ctx.oracle.evalUint64(shape.Operand(k + 1));
    if inner.Some? && outer.Some? && inner.value != outer.value then Fail(InvalidId, inst)
    else Success
  }

  /** Both ids fold and their values differ. */
  predicate DimensionsDiffer(ctx: Context, a: nat, b: nat) {
    var x := ctx.oracle.evalUint64(a);
    var y := ctx.oracle.evalUint64(b);
    x.Some? && y.Some? && x.value != y.value
  }

  /** The rank a tensor type's rank id folds to; 0 (unknown) when it does not. */
  function FoldedRank(ctx: Context, rankId: nat): nat {
    var r := ctx.oracle.evalUint64(rankId);
    if r.Some? then r.value else 0
  }

  /** A constituent type of a tensor constant of rank `rank` >= 2: a tensor with
      the same element type, one rank less when that folds, and the same inner
      shape where both dimensions fold. */
  predicate InnerTensorConforms(ctx: Context, ct: Instruction, elementType: nat, rank: nat, shape: Instruction)
    requires rank >= 2
  {
    && ct.opcode == OpTypeTensorARM
    && ct.Operand(1) in ctx.defs && ct.Operand(1) == elementType
    && (ct.Operand(2) in ctx.defs && ctx.oracle.evalUint64(ct.Operand(2)).Some? ==>
          ctx.oracle.evalUint64(ct.Operand(2)).value == rank - 1)
    && ct.Operand(3) in ctx.defs
    && var innerShape := ctx.defs[ct.Operand(3)];
       forall k | 2 <= k < |innerShape.operands| ::
         !DimensionsDiffer(ctx, innerShape.Operand(k), shape.Operand(k + 1))
  }

  function TensorConstituent(ctx: Context, inst: Instruction, rt: Instruction, elementType: nat, rank: nat,
                             shape: Instruction, j: nat): (r: Verdict)
    ensures r.Success? <==> TensorConstituentConforms(ctx, inst.Operand(j), elementType, rank, shape)
    ensures r.Failure? ==> r.kind == InvalidId
  {
    var c := inst.Operand(j);
    if c !in ctx.defs || !ctx.oracle.isConstantOrUndefOp(ctx.defs[c].opcode) then Fail(InvalidId, inst)
    else if ctx.defs[c].typeId !in ctx.defs then Fail(InvalidId, ctx.defs[c])
    else if rank == 0 then Success
    else if rank == 1 then
      if elementType != ctx.defs[c].typeId then Fail(InvalidId, inst) else Success
    else
      var ct := ctx.defs[ctx.defs[c].typeId];
      if ct.opcode != OpTypeTensorARM then Fail(InvalidId, inst)
      else if ct.Operand(1) !in ctx.defs || ct.Operand(1) != elementType then Fail(InvalidId, inst)
      else if ct.Operand(2) in ctx.defs && ctx.oracle.evalUint64(ct.Operand(2)).Some?
              && ctx.oracle.evalUint64(ct.Operand(2)).value != rank - 1 then Fail(InvalidId, inst)
      else if ct.Operand(3) !in ctx.defs then Fail(InvalidId, rt)
      else
        var innerShape := ctx.defs[ct.Operand(3)];
        var check := (k: nat) => ShapeDimension(ctx, inst, innerShape, shape, k);
        assert forall k: nat :: check(k).Success? <==> !DimensionsDiffer(ctx, innerShape.Operand(k), shape.Operand(k + 1));
        Scan(check, 2, |innerShape.operands|)
  }

  /** A constituent of a tensor constant: a constant or undef with a defined
      type which, when the rank is known, fits the tensor at that rank. */
  predicate TensorConstituentConforms(ctx: Context, c: nat, elementType: nat, rank: nat, shape: Instruction) {
    && IsTypedConstant(ctx, c)
    && (rank == 1 ==> ctx.defs[c].typeId == elementType)
    && (rank >= 2 ==> InnerTensorConforms(ctx, ctx.defs[ctx.defs[c].typeId], elementType, rank, shape))
  }

  predicate TensorConforms(ctx: Context, inst: Instruction, rt: Instruction) {
    && rt.Operand(1) in ctx.defs && rt.Operand(2) in ctx.defs && rt.Operand(3) in ctx.defs
    && var shape := ctx.defs[rt.Operand(3)];
    && var outermost := ctx.oracle.evalUint64(shape.Operand(2));
    && (outermost.Some? ==> outermost.value == ConstituentCount(inst))
    && forall j | 2 <= j < |inst.operands| ::
         TensorConstituentConforms(ctx, inst.Operand(j), rt.Operand(1), FoldedRank(ctx, rt.Operand(2)), shape)
  }

  function CheckTensor(ctx: Context, inst: Instruction, rt: Instruction): (r: Verdict)
    ensures r.Success? <==> TensorConforms(ctx, inst, rt)
    ensures r.Failure? ==> r.kind == InvalidId
  {
    var elementType := rt.Operand(1);
    if elementType !in ctx.defs then Fail(InvalidId, rt)
    else if rt.Operand(2) !in ctx.defs then Fail(InvalidId, rt)
    else if rt.Operand(3) !in ctx.defs then Fail(InvalidId, rt)
    else
      var rank := FoldedRank(ctx, rt.Operand(2));
      var shape := ctx.defs[rt.Operand(3)];
      var outermost := ctx.oracle.evalUint64(shape.Operand(2));
      if outermost.Some? && outermost.value != ConstituentCount(inst) then Fail(InvalidId, inst)
      else
        var check := (j: nat) => TensorConstituent(ctx, inst, rt, elementType, rank, shape, j);
        assert forall j: nat :: check(j).Success? <==> TensorConstituentConforms(ctx, inst.Operand(j), elementType, rank, shape);
        Scan(check, 2, |inst.operands|)
  }

  // ---- dispatch on the result type

  /** What a composite constant must satisfy, by the kind of its result type. */
  predicate CompositeConforms(ctx: Context, inst: Instruction) {
    && inst.typeId in ctx.defs
    && IsCompositeType(ctx, ctx.defs[inst.typeId])
    && var rt := ctx.defs[inst.typeId];
       if rt.opcode in {OpTypeVector, OpTypeCooperativeVectorNV} then VectorConforms(ctx, inst, rt)
       else if rt.opcode == OpTypeMatrix then MatrixConforms(ctx, inst, rt)
       else if rt.opcode == OpTypeArray then ArrayConforms(ctx, inst, rt)
       else if rt.opcode == OpTypeStruct then StructConforms(ctx, inst, rt)
       else if rt.opcode in {OpTypeCooperativeMatrixKHR, OpTypeCooperativeMatrixNV} then
         CooperativeMatrixConforms(ctx, inst, rt)
       else if rt.opcode == OpTypeTensorARM then TensorConforms(ctx, inst, rt)
       else true
  }

  function ValidateConstantComposite(ctx: Context, inst: Instruction): (r: Verdict)
    requires CompositeReady(ctx, inst)
    ensures r.Success? <==> CompositeConforms(ctx, inst)
    ensures r.Failure? ==> r.kind == InvalidId
    ensures inst.typeId !in ctx.defs || !IsCompositeType(ctx, ctx.defs[inst.typeId]) ==> r == Fail(InvalidId, inst)
  {
    if inst.typeId !in ctx.defs || !IsCompositeType(ctx, ctx.defs[inst.typeId]) then Fail(InvalidId, inst)
    else
      var rt := ctx.defs[inst.typeId];
      if rt.opcode in {OpTypeVector, OpTypeCooperativeVectorNV} then CheckVector(ctx, inst, rt)
      else if rt.opcode == OpTypeMatrix then CheckMatrix(ctx, inst, rt)
      else if rt.opcode == OpTypeArray then CheckArray(ctx, inst, rt)
      else if rt.opcode == OpTypeStruct then CheckStruct(ctx, inst, rt)
      else if rt.opcode in {OpTypeCooperativeMatrixKHR, OpTypeCooperativeMatrixNV} then
        CheckCooperativeMatrix(ctx, inst, rt)
      else if rt.opcode == OpTypeTensorARM then CheckTensor(ctx, inst, rt)
      else Success
  }

  // ------------------------------------------------------------------ sampler

  /** The diagnostic is attached to the result type's definition, which is
      absent when the result type is undefined. */
  function ValidateConstantSampler(ctx: Context, inst: Instruction): (r: Verdict)
    ensures r.Success? <==> inst.typeId in ctx.defs && ctx.defs[inst.typeId].opcode == OpTypeSampler
    ensures r.Failure? ==> r == Failure(InvalidId, ctx.FindDef(inst.typeId))
  {
    var resultType := ctx.FindDef(inst.typeId);
    if resultType.None? || resultType.value.opcode != OpTypeSampler then Failure(InvalidId, resultType)
    else Success
  }

  // ------------------------------------------------------------- nullability

  /** `t` is the definition the table holds for its own id. */
  predicate Defines(ctx: Context, t: Instruction) {
    t.id in ctx.defs && ctx.defs[t.id] == t
  }

  /** Each component type of a defined type is defined, and is either a
      pointer type or defined earlier than the type. */
  lemma ComponentDeclaredEarlier(ctx: Context, t: Instruction, i: nat)
    requires Valid(ctx) && Defines(ctx, t) && i < |ComponentIds(t)| && ComponentIds(t)[i] in ctx.defs
    ensures NullabilityDepth(ctx.defs[ComponentIds(t)[i]]) < NullabilityDepth(t)
    ensures Defines(ctx, ctx.defs[ComponentIds(t)[i]])
  {
  }

  /** The nullability recursion stops at pointer types, which may be declared
      late; every other type lies below the types that name it. */
  function NullabilityDepth(t: Instruction): nat {
    if IsPointerTypeOp(t.opcode) then 0 else t.position + 1
  }

  /** Whether a type can have a null value: scalars and the OpenCL event, queue
      and reservation types can; aggregates when their component can; structs
      when every member can; pointers unless they point into
      PhysicalStorageBuffer; tensor types when shaped and their element can. */
  predicate IsTypeNullable(ctx: Context, t: Instruction)
    requires Valid(ctx) && Defines(ctx, t)
    decreases NullabilityDepth(t)
  {
    match t.opcode
    case OpTypeBool | OpTypeInt | OpTypeFloat | OpTypeEvent | OpTypeDeviceEvent | OpTypeReserveId
      | OpTypeQueue => true
    case OpTypeArray | OpTypeMatrix | OpTypeCooperativeMatrixNV | OpTypeCooperativeMatrixKHR
      | OpTypeCooperativeVectorNV | OpTypeVector =>
      var base := t.Operand(1);
      base in ctx.defs && (ComponentDeclaredEarlier(ctx, t, 0); IsTypeNullable(ctx, ctx.defs[base]))
    case OpTypeStruct =>
      forall i | 0 <= i < |ComponentIds(t)| ::
        ComponentIds(t)[i] in ctx.defs
        && (ComponentDeclaredEarlier(ctx, t, i); IsTypeNullable(ctx, ctx.defs[ComponentIds(t)[i]]))
    case OpTypeUntypedPointerKHR | OpTypePointer =>
      DecodeStorageClass(t.Operand(1)) != PhysicalStorageBuffer
    case OpTypeTensorARM =>
      var element := t.Operand(1);
      |t.operands| + 1 > 4 && element in ctx.defs
      && (ComponentDeclaredEarlier(ctx, t, 0); IsTypeNullable(ctx, ctx.defs[element]))
    case _ => false
  }

  function ValidateConstantNull(ctx: Context, inst: Instruction): (r: Verdict)
    requires Valid(ctx)
    ensures r.Success? <==> inst.typeId in ctx.defs && IsTypeNullable(ctx, ctx.defs[inst.typeId])
    ensures r.Failure? ==> r == Fail(InvalidId, inst)
  {
    if inst.typeId !in ctx.defs || !IsTypeNullable(ctx, ctx.defs[inst.typeId]) then Fail(InvalidId, inst)
    else Success
  }

  // ------------------------------------------------- specialization constants

  /** Operand 0 of OpSpecConstant is its result type, which must be defined. */
  function ValidateSpecConstant(ctx: Context, inst: Instruction): (r: Verdict)
    requires inst.Operand(0) in ctx.defs
    ensures r.Success? <==> ctx.defs[inst.Operand(0)].opcode in {OpTypeInt, OpTypeFloat}
    ensures r.Failure? ==> r == Fail(InvalidData, inst)
  {
    var typeOpcode := ctx.defs[inst.Operand(0)].opcode;
    if typeOpcode != OpTypeInt && typeOpcode != OpTypeFloat then Fail(InvalidData, inst)
    else Success
  }

  /** The capability an embedded operation needs is missing. */
  predicate SpecOpLacksCapability(ctx: Context, op: Op) {
    || (op == OpQuantizeToF16 && Shader !in ctx.caps)
    || (op == OpUConvert && !ctx.features.uconvertSpecConstantOp && Kernel !in ctx.caps)
    || (op in KernelOnlySpecOps() && Kernel !in ctx.caps)
  }

  /** Operand 2 of OpSpecConstantOp is the opcode of the embedded operation. */
  function ValidateSpecConstantOp(ctx: Context, inst: Instruction): (r: Verdict)
    ensures r.Failure? <==> SpecOpLacksCapability(ctx, DecodeEmbeddedOp(inst.Operand(2)))
    ensures r.Failure? ==> r == Fail(InvalidId, inst)
    ensures DecodeEmbeddedOp(inst.Operand(2)) !in SpecConstantOpGated() ==> r == Success
  {
    var op := DecodeEmbeddedOp(inst.Operand(2));
    if op == OpQuantizeToF16 then
      if Shader !in ctx.caps then Fail(InvalidId, inst) else Success
    else if op == OpUConvert then
      if !ctx.features.uconvertSpecConstantOp && Kernel !in ctx.caps then Fail(InvalidId, inst) else Success
    else if op in KernelOnlySpecOps() then
      if Kernel !in ctx.caps then Fail(InvalidId, inst) else Success
    else Success
  }

  // ------------------------------------------------- function-pointer constant

  /** The result type is a pointer whose pointee (operand 2) is a function type. */
  predicate IsFunctionPointerType(ctx: Context, typeId: nat) {
    && typeId in ctx.defs
    && ctx.defs[typeId].opcode == OpTypePointer
    && ctx.defs[typeId].Operand(2) in ctx.defs
    && ctx.defs[ctx.defs[typeId].Operand(2)].opcode == OpTypeFunction
  }

  /** Operand 2 is the function; an undefined function is a forward reference. */
  function ValidateConstantFunctionPointerINTEL(ctx: Context, inst: Instruction): (r: Verdict)
    ensures r.Failure? && r.kind == InvalidCapability <==> FunctionPointersINTEL !in ctx.caps
    ensures r.Success? <==>
      && FunctionPointersINTEL in ctx.caps
      && IsFunctionPointerType(ctx, inst.typeId)
      && (inst.Operand(2) in ctx.defs ==>
            && ctx.defs[inst.Operand(2)].opcode == OpFunction
            && ctx.defs[inst.Operand(2)].Operand(3) == ctx.defs[inst.typeId].Operand(2))
    ensures (FunctionPointersINTEL in ctx.caps && IsFunctionPointerType(ctx, inst.typeId)
             && inst.Operand(2) !in ctx.defs) ==> r.Success?
    ensures r.Failure? ==> r.at == Some(inst) && r.kind in {InvalidCapability, InvalidId}
  {
    if FunctionPointersINTEL !in ctx.caps then Fail(InvalidCapability, inst)
    else if inst.typeId !in ctx.defs || ctx.defs[inst.typeId].opcode != OpTypePointer then Fail(InvalidId, inst)
    else
      var pointee := ctx.defs[inst.typeId].Operand(2);
      if pointee !in ctx.defs || ctx.defs[pointee].opcode != OpTypeFunction then Fail(InvalidId, inst)
      else
        var callee := inst.Operand(2);
        if callee !in ctx.defs then Success
        else if ctx.defs[callee].opcode != OpFunction then Fail(InvalidId, inst)
        else if ctx.defs[callee].Operand(3) != pointee then Fail(InvalidId, inst)
        else Success
  }

  // --------------------------------------------------------------- the pass

  /** The opcodes the pass hands to a kind-specific checker. */
  function CheckedConstantOps(): set<Op> {
    {OpConstantTrue, OpConstantFalse, OpSpecConstantTrue, OpSpecConstantFalse, OpConstantComposite,
     OpSpecConstantComposite, OpConstantSampler, OpConstantNull, OpSpecConstant, OpSpecConstantOp,
     OpConstantFunctionPointerINTEL}
  }

  /** What the kind-specific rule for the instruction needs of the tables:
      `CompositeReady` for composites, the layout rules for null constants,
      and a defined result type for OpSpecConstant, whose checker reads it
      unchecked. */
  predicate ConstantPassReady(ctx: Context, inst: Instruction) {
    && (inst.opcode in {OpConstantComposite, OpSpecConstantComposite} ==> CompositeReady(ctx, inst))
    && (inst.opcode == OpConstantNull ==> Valid(ctx))
    && (inst.opcode == OpSpecConstant ==> inst.Operand(0) in ctx.defs)
  }

  /** The kind-specific rule for the instruction's opcode. */
  function ConstantKindCheck(ctx: Context, inst: Instruction): (r: Verdict)
    requires ConstantPassReady(ctx, inst)
    ensures inst.opcode !in CheckedConstantOps() ==> r == Success
  {
    var op := inst.opcode;
    if op in {OpConstantTrue, OpConstantFalse, OpSpecConstantTrue, OpSpecConstantFalse} then
      ValidateConstantBool(ctx, inst)
    else if op in {OpConstantComposite, OpSpecConstantComposite} then ValidateConstantComposite(ctx, inst)
    else if op == OpConstantSampler then ValidateConstantSampler(ctx, inst)
    else if op == OpConstantNull then ValidateConstantNull(ctx, inst)
    else if op == OpSpecConstant then ValidateSpecConstant(ctx, inst)
    else if op == OpSpecConstantOp then ValidateSpecConstantOp(ctx, inst)
    else if op == OpConstantFunctionPointerINTEL then ValidateConstantFunctionPointerINTEL(ctx, inst)
    else Success
  }

  /** Under the Shader capability a constant cannot be formed when its type is
      not a pointer and contains an 8- or 16-bit integer or float whose width
      capability (Int8, Int16, Float16) the module does not declare. */
  predicate NarrowConstantForbidden(ctx: Context, inst: Instruction) {
    && ctx.oracle.isConstantOp(inst.opcode)
    && Shader in ctx.caps
    && !ctx.oracle.isPointerType(inst.typeId)
    && ctx.oracle.containsLimitedUseIntOrFloat(inst.typeId)
  }

  function ConstantPass(ctx: Context, inst: Instruction): (r: Verdict)
    requires ConstantPassReady(ctx, inst)
    ensures ConstantKindCheck(ctx, inst).Failure? ==> r == ConstantKindCheck(ctx, inst)
    ensures ConstantKindCheck(ctx, inst).Success? ==>
      r == (if NarrowConstantForbidden(ctx, inst) then Fail(InvalidId, inst) else Success)
    ensures inst.opcode !in CheckedConstantOps() && !ctx.oracle.isConstantOp(inst.opcode) ==> r == Success
  {
    var kindVerdict := ConstantKindCheck(ctx, inst);
    if kindVerdict.Failure? then kindVerdict
    else if NarrowConstantForbidden(ctx, inst) then Fail(InvalidId, inst)
    else Success
  }
}
