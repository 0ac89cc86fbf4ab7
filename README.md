# SPIR-V constant and function rule checkers

This project models two rule checkers of the SPIR-V validator:

- `ConstantPass` (source/val/validate_constants.cpp). It checks constant-creation instructions: boolean constants, composite constants, samplers, null constants, specialization constants and INTEL function-pointer constants.
  - Composite constants are checked against vector, cooperative-vector, matrix, array, struct, cooperative-matrix and shaped ARM tensor result types.
  - There is also a module-wide rule: when the Shader capability is declared, a constant of a non-pointer type is rejected when that type contains an 8- or 16-bit integer or float whose width capability (Int8, Int16 or Float16) is not declared.
- `FunctionPass` (source/val/validate_function.cpp). It checks:
  - `OpFunction` and every use of its result id;
  - the position and type of `OpFunctionParameter`;
  - `OpFunctionCall`: callee, arity, argument types and the logical-addressing pointer rules;
  - `OpCooperativeMatrixPerElementOpNV`.

Each checker is a query about a single instruction over a read-only validation context (`ValidationState.Context`). The context holds:

- the definition table;
- the instructions in module order;
- the decoration and use tables;
- the declared capabilities, the addressing model, the derived features and the validator options;
- an `Oracle` of the queries answered elsewhere in the validator: the opcode tables, the constant folders, type queries and the logical-match relation.

A checker answers with a `Verdict`. This is `Success`, or the error kind together with the instruction the diagnostic is attached to.

The model follows the source's own form:

- **Constant checkers:** pure, so they are functions. Their fail-fast constituent loops are a generic `ValidationState.Scan` over indices. Each checker is paired with a declarative conformance predicate (`VectorConforms`, `MatrixConforms`, `TensorConforms`, `CompositeConforms`, …). Its contract states success if and only if that predicate holds.
- **`OpFunction` and `OpFunctionParameter` checkers:** these build a vector or walk the instruction list backwards. They are methods with loops, each proved equal to a specification function (`FunctionSpec`, `ParameterSpec`). The specifications' properties are proved as lemmas.
- **Call and per-element checkers:** read-only, so they are functions.

Modules:

- `Spirv`: opcodes, storage classes, capabilities, decoded instructions, and the `size_t` subtraction with 2^64 wrap-around.
- `ValidationState`: the context, the verdict and the scan.
- `Constants` and `Functions`: the checkers.
- `ConstantProperties` and `FunctionProperties`: lemmas relating several checks, or covering whole families of inputs.

Conventions:

- `operands` holds one word per operand in encoding order, so `GetOperandAs(k)` is `Operand(k)` and the word count is `|operands| + 1`.
- `Valid(ctx)` states two things the module layout rules guarantee:
  - the definition table is keyed by result id;
  - a type's component types are declared before it, except pointer types.
  
  A pointer type may be declared after a struct or aggregate that names it, through `OpTypeForwardPointer`. The nullability recursion stops at a pointer type without descending into it. Its measure therefore places pointer types below every other type, and every other type below the types that name it. `ConstantProperties.ForwardPointerMember` shows a module of this kind inside the model.
- `ConstantPassReady` asks only what the checker for the instruction's opcode reads:
  - `Valid` for `OpConstantNull`;
  - for a composite of matrix type, that each constituent whose type has the column type's opcode names a defined component type (`CompositeReady`); nothing for other composites;
  - a defined result type for `OpSpecConstant`.

## Model

| member | source | states |
|---|---|---|
| `Constants.ValidateConstantBool` | source/val/validate_constants.cpp:24-34 | accepted exactly when the result type is defined and is OpTypeBool; otherwise INVALID_ID on the instruction |
| `Constants.IsCompositeType` | source/val/validate_constants.cpp:36-41 | a result type is composite when its opcode is a composite type, or when it is an ARM tensor type of five words, that is, one that carries a shape |
| `Constants.ConstituentCount` | source/val/validate_constants.cpp:54 | the constituent count is the word count minus three (wrapping as a size) |
| `Constants.VectorConstituent` | source/val/validate_constants.cpp:81-102 | a vector constituent passes exactly when it is a constant or undef, its type is defined and equals the component type |
| `Constants.CheckVector` | source/val/validate_constants.cpp:56-103 | vector and cooperative-vector constants: accepted iff the count matches when it folds, the component type is defined, and every constituent is a constant of the component type; errors are INVALID_ID |
| `Constants.MatrixConstituent` | source/val/validate_constants.cpp:128-172 | a matrix constituent passes exactly when it is a typed constant or undef whose vector type has the column's opcode, component type and component count |
| `Constants.CheckColumns` | source/val/validate_constants.cpp:128-172 | the column loop succeeds exactly when every constituent conforms to the column type |
| `Constants.CheckMatrix` | source/val/validate_constants.cpp:104-173 | matrix constants: accepted iff the column count matches, the column and component types are defined and every constituent conforms; errors are INVALID_ID |
| `Constants.ArrayConstituent` | source/val/validate_constants.cpp:196-220 | an array constituent passes exactly when it is a constant or undef whose defined type is the element type |
| `Constants.CheckArray` | source/val/validate_constants.cpp:174-221 | array constants: accepted iff element type and length are defined, the count matches when the length folds to a 32-bit constant, and every constituent has the element type |
| `Constants.StructConstituent` | source/val/validate_constants.cpp:231-260 | constituent j passes exactly when it is a constant or undef whose type is member type j - 1 |
| `Constants.MemberCount` | source/val/validate_constants.cpp:223 | the member count is the struct type's word count minus two |
| `Constants.CheckStruct` | source/val/validate_constants.cpp:222-261 | struct constants: accepted iff member count equals constituent count and every constituent has its member's type |
| `Constants.CheckCooperativeMatrix` | source/val/validate_constants.cpp:262-291 | cooperative-matrix constants: accepted iff there is exactly one constituent and it is a constant of the component type |
| `Constants.ShapeDimension` | source/val/validate_constants.cpp:395-419 | a shape dimension fails exactly when both dimensions fold and differ |
| `Constants.TensorConstituent` | source/val/validate_constants.cpp:326-425 | a tensor constituent passes exactly when it is a typed constant that fits the tensor at the folded rank (none at rank 0, the element type at rank 1, a tensor one rank lower with matching inner shape above) |
| `Constants.CheckTensor` | source/val/validate_constants.cpp:292-426 | shaped tensor constants: accepted iff element, rank and shape are defined, the outermost dimension matches when it folds, and every constituent fits; an unfoldable rank counts as 0 |
| `Constants.ValidateConstantComposite` | source/val/validate_constants.cpp:43-431 | accepted exactly when the result type is defined and composite (a tensor only when shaped) and the rule for its kind holds; every error is INVALID_ID |
| `Constants.ValidateConstantSampler` | source/val/validate_constants.cpp:433-443 | accepted exactly when the result type is OpTypeSampler; the error is attached to the result type's definition, absent when undefined |
| `Constants.IsTypeNullable` | source/val/validate_constants.cpp:448-494 | scalars, events, device events, reserve ids and queues are nullable. An array, matrix, vector or cooperative type is nullable iff its component type is defined and nullable. A struct is nullable iff every member type is. A pointer is nullable unless its storage class is PhysicalStorageBuffer. A tensor is nullable iff it is shaped and its element type is defined and nullable. Nothing else is nullable |
| `Constants.ValidateConstantNull` | source/val/validate_constants.cpp:496-506 | accepted exactly when the result type is defined and nullable |
| `Constants.ValidateSpecConstant` | source/val/validate_constants.cpp:509-522 | accepted exactly when the result type is an integer or float type; otherwise INVALID_DATA |
| `Constants.ValidateSpecConstantOp` | source/val/validate_constants.cpp:524-582 | fails exactly when the embedded operation lacks its capability (QuantizeToF16 needs Shader, UConvert needs the feature or Kernel, the conversions, float arithmetic and access chains need Kernel); any other operation passes |
| `Constants.ValidateConstantFunctionPointerINTEL` | source/val/validate_constants.cpp:584-635 | INVALID_CAPABILITY exactly without FunctionPointersINTEL; accepted exactly when the capability is declared, the result type is a pointer to an OpTypeFunction, and a defined function operand is an OpFunction whose function type is that pointee; an undefined operand is accepted (forward reference) |
| `Constants.ConstantKindCheck` | source/val/validate_constants.cpp:640-668 | opcodes outside the constant kinds the pass dispatches are accepted by the dispatch |
| `Constants.ConstantPass` | source/val/validate_constants.cpp:639-681 | the kind-specific error comes first; otherwise a constant opcode is rejected exactly when Shader is declared and its type is a non-pointer containing an 8- or 16-bit scalar whose width capability (Int8, Int16, Float16) is not declared; opcodes that are neither dispatched nor constants pass |
| `ConstantProperties.EmbeddedOpGate` | source/val/validate_constants.cpp:524-582 | an OpSpecConstantOp embedding a capability-gated opcode, by its numeric value, fails exactly when that opcode lacks its capability |
| `Spirv.EmbeddedOpCode` | source/val/validate_constants.cpp:529-570 | each capability-gated embedded opcode has a numeric value that decodes back to it |
| `ConstantProperties.NullableComponent` | source/val/validate_constants.cpp:462-492 | every component type of a nullable type is defined and nullable |
| `ConstantProperties.NullableAlongPaths` | source/val/validate_constants.cpp:448-494 | every type reached by descending from a nullable type is defined, nullable and not a PhysicalStorageBuffer pointer |
| `ConstantProperties.NullConstantOfPointers` | source/val/validate_constants.cpp:454-485 | a null constant of a PhysicalStorageBuffer pointer is rejected; of any other pointer or of a scalar, event, queue or reserve-id type it is accepted |
| `ConstantProperties.NullConstantOfAggregates` | source/val/validate_constants.cpp:462-478 | a null struct is accepted iff every member type is defined and nullable; a null array, matrix, vector or cooperative type iff its component is |
| `ConstantProperties.VectorConstantCount` | source/val/validate_constants.cpp:56-103 | a vector constant with the wrong constituent count is INVALID_ID; the right count of constants of the component type is accepted |
| `ConstantProperties.CooperativeVectorUnknownCount` | source/val/validate_constants.cpp:58-74 | when a cooperative vector's count does not fold, any number of constituents is accepted as long as each is a constant of the component type |
| `ConstantProperties.ArrayConstantLength` | source/val/validate_constants.cpp:185-220 | a count mismatch is reported only when the length folds to a 32-bit constant; an accepted array has only constants of the element type |
| `ConstantProperties.StructConstantMembers` | source/val/validate_constants.cpp:222-261 | a struct constant is accepted iff it has one constituent per member and each has its member's type |
| `ConstantProperties.TensorConstantUnknownRank` | source/val/validate_constants.cpp:310-349 | with an unfoldable rank only the outermost dimension and the constituents being typed constants are checked |
| `ConstantProperties.TensorConstantRankOne` | source/val/validate_constants.cpp:345-358 | at rank 1 a tensor constant is accepted exactly when element, rank and shape are defined, the outermost dimension fits, and every constituent is a constant of the element type |
| `ConstantProperties.SpecConstantOpCapabilitiesMonotone` | source/val/validate_constants.cpp:524-582 | adding capabilities never rejects an accepted specialization constant operation |
| `ConstantProperties.SpecConstantFAddNeedsKernel` | source/val/validate_constants.cpp:559-576 | OpSpecConstantOp embedding OpFAdd without Kernel is rejected by the pass with INVALID_ID |
| `ConstantProperties.KindCheckMonotone` | source/val/validate_constants.cpp:640-668 | adding capabilities never rejects a constant the kind-specific rules accepted |
| `ConstantProperties.ConstantPassMonotoneBesideShader` | source/val/validate_constants.cpp:639-681 | adding capabilities other than Shader never rejects an accepted constant |
| `ConstantProperties.CompositeIgnoresCapabilities` | source/val/validate_constants.cpp:43-431 | the composite rules do not depend on the declared capabilities |
| `ConstantProperties.ShapesIgnoreCapabilities` | source/val/validate_constants.cpp:56-291 | the vector, matrix, array, struct and cooperative-matrix rules do not depend on the capabilities |
| `ConstantProperties.TensorIgnoresCapabilities` | source/val/validate_constants.cpp:292-426 | the tensor rule does not depend on the capabilities |
| `ConstantProperties.TensorConstituentIgnoresCapabilities` | source/val/validate_constants.cpp:326-425 | a tensor constituent's conformance does not depend on the capabilities |
| `ConstantProperties.NullableIgnoresCapabilities` | source/val/validate_constants.cpp:448-494 | nullability does not depend on the capabilities |
| `ConstantProperties.KindCheckErrorKinds` | source/val/validate_constants.cpp:640-668 | the kind rules never report INVALID_LAYOUT; INVALID_DATA exactly for OpSpecConstant of a non-numeric type; INVALID_CAPABILITY exactly for a function-pointer constant without the capability |
| `ConstantProperties.ConstantPassErrorKinds` | source/val/validate_constants.cpp:639-681 | the same three error-kind facts hold of the whole pass |
| `ConstantProperties.ForwardPointerMember` | source/val/validate_constants.cpp:471-485 | a struct whose member is a PhysicalStorageBuffer pointer declared after it satisfies the layout rules, and its null constant is rejected |
| `ConstantProperties.ConstantPassWithoutShader` | source/val/validate_constants.cpp:639-681 | without the Shader capability the pass answers exactly what the kind-specific rule answers |
| `ConstantProperties.NarrowConstantsRejectedUnderShader` | source/val/validate_constants.cpp:670-678 | under Shader a constant of a non-pointer type containing an 8- or 16-bit scalar whose width capability is not declared is rejected, whatever the kind-specific rule says |
| `Functions.DoPointeesLogicallyMatch` | source/val/validate_function.cpp:27-52 | two types match as pointees when both are OpTypePointer, every decoration of the second also applies to the first, and the pointee ids are equal or logically match |
| `Functions.AcceptableUseOps` | source/val/validate_function.cpp:75-94 | the allow-list holds the fixed opcodes, plus OpConstantFunctionPointerINTEL exactly when FunctionPointersINTEL is declared |
| `Functions.AcceptableUseOpsExactly` | source/val/validate_function.cpp:75-94 | an opcode is on the allow-list exactly when it is one of the fixed opcodes, or it is OpConstantFunctionPointerINTEL and FunctionPointersINTEL is declared |
| `Functions.UseCheck` | source/val/validate_function.cpp:96-103 | a use passes exactly when allowed, otherwise INVALID_ID on the use |
| `Functions.CheckUses` | source/val/validate_function.cpp:95-104 | the use loop succeeds iff every use is allowed; otherwise it reports the first disallowed use |
| `Functions.FunctionSpec` | source/val/validate_function.cpp:58-107 | OpFunction is accepted iff its type operand is an OpTypeFunction returning its result type and every use is allowed; type errors are blamed on the function, use errors on the use |
| `Functions.FunctionSpecFirstDisallowed` | source/val/validate_function.cpp:95-104 | the error names exactly the first disallowed use |
| `Functions.ValidateFunction` | source/val/validate_function.cpp:58-107 | the method building the allow-list and scanning the uses answers FunctionSpec |
| `Functions.OwnerScan` | source/val/validate_function.cpp:119-127 | a found owner lies between position 1 and the start of the scan |
| `Functions.OwnerScanFindsNearest` | source/val/validate_function.cpp:119-127 | the scan finds nothing iff positions 1 .. i hold no OpFunction; otherwise it finds the nearest one and counts the parameters in between |
| `Functions.CheckOrdinal` | source/val/validate_function.cpp:134-155 | the ordinal check passes iff the owner's function type is defined, declares more parameters than the ordinal, and that parameter's type is the parameter's |
| `Functions.ParameterSpec` | source/val/validate_function.cpp:109-158 | INVALID_LAYOUT exactly at position 0 or without an OpFunction before; success iff an owner is found and the ordinal typing holds |
| `Functions.ParameterSpecByOwner` | source/val/validate_function.cpp:128-158 | once the scan has run, the verdict is the layout error without an owner and the ordinal check otherwise |
| `Functions.ValidateFunctionParameter` | source/val/validate_function.cpp:109-158 | the backward walk answers ParameterSpec |
| `Functions.CallArgument` | source/val/validate_function.cpp:193-272 | an argument passes iff it is defined and typed, its type is the parameter's (or matches it before legalization), and the pointer rules hold |
| `Functions.PointerArgument` | source/val/validate_function.cpp:223-270 | under the logical pointer rules an argument needs an allowed storage class and a memory-object source |
| `Functions.ValidateFunctionCall` | source/val/validate_function.cpp:160-274 | a call is accepted iff the callee conforms, the counts agree and every argument conforms; errors are INVALID_ID on the call |
| `Functions.ValidateCooperativeMatrixPerElementOp` | source/val/validate_function.cpp:276-348 | accepted iff the callback returns the component type and takes 32-bit row and column and the component, and the matrix has the result type |
| `Functions.FunctionPass` | source/val/validate_function.cpp:352-372 | answers exactly the verdict of the opcode's own checker for the four function opcodes, accepts every other opcode, and reports INVALID_LAYOUT only for OpFunctionParameter |
| `FunctionProperties.PointeesMatchReflexive` | source/val/validate_function.cpp:30-56 | a pointer type's pointee matches its own |
| `FunctionProperties.PointeesMatchNeedsDecorations` | source/val/validate_function.cpp:37-43 | one decoration of b missing from a defeats the match |
| `FunctionProperties.FunctionUsesCapabilityMonotone` | source/val/validate_function.cpp:93-104 | adding capabilities never makes an accepted OpFunction invalid |
| `FunctionProperties.FunctionPointerUse` | source/val/validate_function.cpp:93-94 | a function-pointer-constant use is allowed iff FunctionPointersINTEL is declared |
| `FunctionProperties.ParameterFirstInModule` | source/val/validate_function.cpp:113-117 | a parameter at position 0 is INVALID_LAYOUT |
| `FunctionProperties.OwnerScanShift` | source/val/validate_function.cpp:119-127 | one more counted parameter adds one to the ordinal and changes nothing else |
| `FunctionProperties.FirstParameterOfFunction` | source/val/validate_function.cpp:119-127 | the parameter right after a function has that owner and ordinal 0 |
| `FunctionProperties.ParametersNumberedConsecutively` | source/val/validate_function.cpp:119-127 | the parameter after a parameter has the same owner and the next ordinal |
| `FunctionProperties.TooManyParameters` | source/val/validate_function.cpp:140-145 | an ordinal at or beyond the declared parameter count is INVALID_ID on the parameter |
| `FunctionProperties.CallArityMismatch` | source/val/validate_function.cpp:185-191 | an argument count different from the parameter count is INVALID_ID on the call |
| `FunctionProperties.StorageBufferArgumentNeedsVariablePointers` | source/val/validate_function.cpp:223-245 | under the logical pointer rules a StorageBuffer pointer parameter is rejected without variable pointers |
| `FunctionProperties.CallAcceptedWhenArgumentsAre` | source/val/validate_function.cpp:160-274 | a call accepted in one context is accepted in another with the same definitions once its arguments conform there |
| `FunctionProperties.ArgumentUnderLegalization` | source/val/validate_function.cpp:205-221 | setting before_hlsl_legalization never rejects an accepted argument |
| `FunctionProperties.ArgumentUnderRelaxedPointers` | source/val/validate_function.cpp:223-227 | setting relax_logical_pointer never rejects an accepted argument |
| `FunctionProperties.LegalizationOnlyRelaxesCalls` | source/val/validate_function.cpp:160-274 | setting before_hlsl_legalization never rejects an accepted call |
| `FunctionProperties.RelaxedPointersOnlyRelaxCalls` | source/val/validate_function.cpp:160-274 | setting relax_logical_pointer never rejects an accepted call |
| `FunctionProperties.PointeesMatchOptionsIndependent` | source/val/validate_function.cpp:30-56 | the pointee match reads decorations and the logical-match relation, not the options |
| `FunctionProperties.PhysicalAddressingChecksTypesOnly` | source/val/validate_function.cpp:193-227 | outside logical addressing a call is accepted iff the callee conforms, the counts agree and every argument's type is accepted |
| `FunctionProperties.PerElementShape` | source/val/validate_function.cpp:276-348 | an accepted per-element operation has the matrix's type, and its callback takes at least three parameters |

## Left out

- Diagnostic text is not modelled. That covers `getIdName`, opcode names and message formatting. A verdict carries only the error kind and the instruction the diagnostic is attached to.
- The validator queries these checkers consult are parameters of the model, carried by `Oracle`. Their definitions are not part of this model. They are:
  - `FindDef`'s table;
  - the opcode-class tables;
  - `GetDimension`;
  - the folders `EvalInt32IfConst` and `EvalConstantValUint64`;
  - `LogicallyMatch`, `IsPointerType`, `ContainsLimitedUseIntOrFloatType`, `IsIntScalarType`, `GetBitWidth` and `IsCooperativeMatrixKHRType`;
  - `IsNonSemantic` and `IsDebugInfo`;
  - the feature derivation;
  - the construction of the `uses` table.
- Binary word decoding is not modelled, including the opcode split inside `IsTypeNullable`. Each operand is modelled as one word, and multi-word operands are not modelled.
- An operand read past the decoded operands is undefined in the source. The model reads it as 0.
- Some places in the source dereference a definition that may be null. The model requires those definitions to exist instead of modelling a crash (`ConstantPassReady`, `CompositeReady`, `PerElementDerefsDefined`, `FunctionPassReady`). The places are:
  - source/val/validate_constants.cpp:156, the matrix constituent's vector component type;
  - source/val/validate_constants.cpp:514, the type of `OpSpecConstant`;
  - source/val/validate_function.cpp:288, the matrix operand;
  - source/val/validate_function.cpp:304-307, the matrix and function types.
- A call whose callee's return type is undefined also dereferences a null definition, inside the diagnostic at source/val/validate_function.cpp:175. The model reports INVALID_ID for it, which is the error kind that diagnostic would carry.
- Type comparisons against `FindDef(x)->id()` are modelled as comparisons of the ids themselves. These are equal whenever the table is keyed by id (`KeyedById`).
- The pass driver, the other validation passes and concurrency are not part of this model. Each checker is a query on one instruction.
- ConstantProperties.StructConstantMembers assumes fewer than 2^16 operands, because the word count is a 16-bit field of the encoding. For larger inputs the wrapping `size_t` member count makes the iff read differently.
- ConstantProperties.TensorConstantUnknownRank treats a rank that `EvalConstantValUint64` cannot fold as rank 0. This is what the source does because it initialises the rank to 0. The model assumes the folder leaves that value untouched when it fails.
- ConstantProperties.ConstantPassMonotoneBesideShader keeps the 8/16-bit query (`ContainsLimitedUseIntOrFloatType`, an oracle field) fixed while capabilities are added. The real query can only turn from true to false when Int8, Int16 or Float16 is added, and that only accepts more constants. The lemma therefore covers the source's behaviour, but it does not show this.
