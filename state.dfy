/** The read-only validation context the rule checkers consult, their verdict,
    and the fail-fast scan every constituent, argument and use loop performs. */
module ValidationState {
  import opened Spirv

  datatype ErrorKind = InvalidId | InvalidLayout | InvalidCapability | InvalidData

  /** Success, or the first violated rule: its error kind and the instruction the
      diagnostic is attached to (None when the source attaches it to a null
      definition). */
  datatype Verdict = Success | Failure(kind: ErrorKind, at: Option<Instruction>)

  function Fail(kind: ErrorKind, inst: Instruction): (v: Verdict)
    ensures v.Failure? && v.kind == kind && v.at == Some(inst)
  {
    Failure(kind, Some(inst))
  }

  /** The best-effort 32-bit folder's answer: is the id a 32-bit integer, is it a
      constant, and its value (meaningful only when both hold). */
  datatype Int32Fold = Int32Fold(isInt32: bool, isConst: bool, value: nat)

  /** Queries answered by parts of the validator this model does not include:
      the opcode tables, the constant folders, the type queries and the
      logical-match relation. */
  datatype Oracle = Oracle(
    isCompositeOp: Op -> bool,
    isConstantOp: Op -> bool,
    isConstantOrUndefOp: Op -> bool,
    dimension: nat -> nat,
    evalInt32IfConst: nat -> Int32Fold,
    evalUint64: nat -> Option<nat>,
    logicallyMatch: (nat, nat) -> bool,
    isPointerType: nat -> bool,
    // answered against the module's declared Int8, Int16 and Float16 capabilities
    containsLimitedUseIntOrFloat: nat -> bool,
    isIntScalarType: nat -> bool,
    bitWidth: nat -> nat,
    isCooperativeMatrixKHRType: nat -> bool,
    isNonSemantic: Instruction -> bool,
    isDebugInfo: Instruction -> bool)

  /** Feature flags derived from capabilities, extensions and version. */
  datatype Features = Features(uconvertSpecConstantOp: bool, variablePointers: bool)

  /** Options supplied by the caller of the validator. */
  datatype Options = Options(relaxLogicalPointer: bool, beforeHlslLegalization: bool)

  datatype Context = Context(
    defs: map<nat, Instruction>,
    ordered: seq<Instruction>,
    decorations: map<nat, seq<Decoration>>,
    caps: set<Capability>,
    addressing: AddressingModel,
    features: Features,
    options: Options,
    uses: map<nat, seq<Instruction>>,
    oracle: Oracle)
  {
    /** The decorations applied to an id; none when the table has no entry. */
    function DecorationsOf(id: nat): seq<Decoration> {
      if id in decorations then decorations[id] else []
    }

    /** The instructions that use an id; none when the table has no entry. */
    function UsesOf(id: nat): seq<Instruction> {
      if id in uses then uses[id] else []
    }

    function FindDef(id: nat): (d: Option<Instruction>)
      ensures d.Some? <==> id in defs
      ensures d.Some? ==> d.value == defs[id]
    {
      if id in defs then Some(defs[id]) else None
    }
  }

  /** The type ids that the nullability check descends into: the element,
      column or component type of an aggregate, every member of a struct. */
  function ComponentIds(t: Instruction): (ids: seq<nat>)
    ensures t.opcode == OpTypeStruct ==> |ids| == (if |t.operands| == 0 then 0 else |t.operands| - 1)
    ensures t.opcode != OpTypeStruct ==> |ids| <= 1
  {
    match t.opcode
    case OpTypeArray | OpTypeMatrix | OpTypeCooperativeMatrixNV | OpTypeCooperativeMatrixKHR
      | OpTypeCooperativeVectorNV | OpTypeVector | OpTypeTensorARM => [t.Operand(1)]
    case OpTypeStruct => if |t.operands| == 0 then [] else t.operands[1..]
    case _ => []
  }

  /** The definition table maps each id to the instruction that defines it. */
  predicate KeyedById(ctx: Context) {
    forall id | id in ctx.defs :: ctx.defs[id].id == id
  }

  /** The opcodes of pointer types, the only types a forward-pointer
      declaration lets a module name before defining them. */
  predicate IsPointerTypeOp(op: Op) {
    op in {OpTypePointer, OpTypeUntypedPointerKHR}
  }

  /** Types are declared before they are used: every component type a type
      names is defined at an earlier position in the module, except a pointer
      type, which may follow a forward-pointer declaration. */
  predicate ComponentsDeclaredEarlier(ctx: Context) {
    forall id, i | id in ctx.defs && 0 <= i < |ComponentIds(ctx.defs[id])| ::
      ComponentIds(ctx.defs[id])[i] in ctx.defs && !IsPointerTypeOp(ctx.defs[ComponentIds(ctx.defs[id])[i]].opcode) ==>
        ctx.defs[ComponentIds(ctx.defs[id])[i]].position < ctx.defs[id].position
  }

  /** What the module layout rules establish about the tables before these
      checkers run. */
  predicate Valid(ctx: Context) {
    KeyedById(ctx) && ComponentsDeclaredEarlier(ctx)
  }

  /** The fail-fast loop over indices lo .. hi-1: the verdict of the first index
      whose check fails, Success when none does. */
  function Scan(check: nat --> Verdict, lo: nat, hi: nat): (r: Verdict)
    requires forall j :: lo <= j < hi ==> check.requires(j)
    decreases hi - lo
    ensures r.Success? <==> forall j :: lo <= j < hi ==> check(j).Success?
    ensures r.Failure? ==>
      exists j :: lo <= j < hi && check(j) == r && forall i :: lo <= i < j ==> check(i).Success?
  {
    if lo >= hi then Success
    else if check(lo).Failure? then check(lo)
    else Scan(check, lo + 1, hi)
  }

  /** The scan reports exactly the verdict of the first failing index. */
  lemma {:induction false} ScanFirstFailure(check: nat --> Verdict, lo: nat, hi: nat, k: nat)
    requires forall j :: lo <= j < hi ==> check.requires(j)
    requires lo <= k < hi && check(k).Failure?
    requires forall i :: lo <= i < k ==> check(i).Success?
    ensures Scan(check, lo, hi) == check(k)
    decreases k - lo
  {
    if lo < k {
      ScanFirstFailure(check, lo + 1, hi, k);
    }
  }
}
