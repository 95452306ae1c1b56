# Verified model of the spec generator's analyses and rewriters

The generator reads compiled C, C++ or Rust (as LLVM IR and as type information), decides
which functions a symbolic executor may run and which it must replace by an assumed
specification, patches the IR so that the executor accepts it, and derives constraints from
types. This project models those decisions in Dafny and proves what they are for.

One module per source file, with the properties beside it:

- **Call graphs.** `CrucibleSafety` (the memoised safety check, a class with its cache),
  `ExternOverrideScan` (the two worklists), `OverrideSoundness` (a call-stack machine over a
  memory of globals, with callbacks from opaque code, and runs in which overridden symbols are
  not entered),
  `GenVerifyCallgraph` (the gated and ungated walks and the descend/override split, run on a
  shared analyzer whose cache changes in between), `IrGlobals` (which globals are mutable
  and externally visible), `LineScanners` (what is read off store and call lines).
  `CallGraph` holds reachability.
- **The IR patcher.** `IrSemantics` gives a register language with blocks, phis and slots a
  semantics in which a value is poison or the set of bit patterns a use may see.
  `PatchRefinement` proves the instruction-level passes refine whole programs. `StripFlags`,
  `PoisonWords`, `SatText` and `AllocaText` are the passes as they edit text, `AllocaLines`
  what the last does with any alloca line; `IrText`
  prints instructions, `PatchText` and `LinePass` connect the two, and `PatchPipeline` joins
  everything: the text the tool writes is the text of a program that refines the original.
- **Rewriters and parsers.** `SpecRewrite`, `TypeResolve`, `Mangle`, `CryptolSig`,
  `CryptolRoundTrip`, `BufferShapes`: each against tokens, trees or a printer.
- **Constraints.** `ValueClauses`, `AliasFallbacks` and `AliasSizes`, `LengthBinding`.

What each decision means is also stated without the functions that compute it, read off the
module, types, tables or text: the members ending in `Is`, `Are` or `Means`.

## What turned out not to hold

Each of these is stated with an input and its exact condition.

- The saturating-add expansion uses an operand and the sum twice, so it is not always a
  refinement when a use of an operand is not determined. `ExpansionRefinesIff` is the exact
  condition, on all operand values; `UndefNotAllowed` and `PartlyUndefNotAllowed` are failing
  inputs, the second with no undef operand. `PatchRefines` holds for every program without
  `__sat_` registers along every run whose executed saturating adds meet that condition, and
  `SingleAddRefinesIff` shows that for one add it cannot be weakened. `noundef` or constant
  operands, as the text can show them, are enough (`PatchRefinesMarked`).
- The poison pass renames registers such as `%poison` and `%x.poison`, because `%` and `.`
  count as word boundaries (the comment at src/transform/patch_llvm_ir.rs:101-105 lists
  fewer). `PoisonCodeIff` says exactly which code it treats correctly; `RegisterRenamed` is
  an input.
- `scan_mutable_globals` looks for `internal` and `private` in the whole right-hand side,
  so a word of an initialiser can hide an external global. `VisibleIsLinkage` is exact;
  `MessageHidden` is an input.
- `resolve_via_ir` goes on to its third step when the second is ambiguous, although its
  comment promises no answer. `AmbiguousSuffixAnswered` is exact; `AmbiguousYetResolved`
  is an input.
- The v0 scanner does not know the underscore that separates a length from an identifier
  starting with a digit or underscore. `ScanSeparated` is exact for whole names: every
  identifier must start with a letter or be underscores only. `ScanShifted` says what comes
  out otherwise, and in `NextIdentifierLost` the character left over takes the next
  identifier with it.
- The walks key their visited set by mangled name or else plain name. A finished walk covers
  its closure exactly when keys identify the functions in reach (`WalkExactIff`);
  `DuplicateKeyLosesTarget` is an input on which a call target is lost.
- A reached call should be descended into, overridden or excluded. For specs derived from
  the functions the walk knows, which is how the tool calls it, it is never descended into
  and overridden; but the override is missing exactly when the callee is not entered and no
  reached call uses its spec's symbol, or it has none (`DescendOrOverride`). A call recorded
  by its plain name is such an input (`PlainCallForgotten`). For other spec lists
  `PartitionFailsIff` is exact, with the inputs `DescendedAndReturned` and
  `NeitherDescendedNorReturned`.
- The vtable-stub gate sees every dispatch the gated walk records when keys identify the
  functions in reach (`AnyInterfaceReachable`); `ClashMissesDispatch` is an input with a clash.
- The write frame ignores callbacks from opaque code into the module. `FrameHoldsIff` says
  exactly when it still holds with them; `CallbackEscapesFrame` is an input.
- Template normalisation is idempotent exactly on settled arguments (`NormalizeTwice`): a
  blank after the last `::` survives one round only (`UnsettledArgument`).
- `normalize_template_args` drops whatever follows the closing bracket
  (src/transform/type_resolve.rs:168), so a nested type is normalised rightly exactly when
  nothing follows (`NormalizeTail`), and the lookup returns the size of the type around it
  (`NestedTypeMistaken`).
- The polymorphic signature parser takes a tuple in front for a context and a record for a
  binder (`TupleRefused`, `RecordBinds`). It agrees with the monomorphic one exactly on text
  without such a front or without an arrow (`SignaturesAgree`), and printing round trips
  exactly when no type in front looks like one (`SignatureRoundTrip`).
- The poison and flag passes also edit string constants and comments: `UnchangedIff` and
  `LineUnchangedIff` say exactly which text survives, `MessageChanged` is a family that does
  not.
- A direct store is recorded exactly when the stored value names no global (`DirectStoreIff`);
  `AddressStoreMissed` is the input.
- The safety check looks for a callee behind the last at sign of a call, the override scan
  behind the first. Without an address argument the safety check is right exactly when the
  name holds no at sign (`PlainCallIff`), which quoted MSVC names do; with one it reads the
  argument (`AddressArgument`, `UnquotedArgument`).
- A quoted destination register makes the saturating-add expansion print a name with a quote
  in the middle (`QuotedMisprinted`).
- The assumed length bound is covered by the allocation exactly when the parameter is a
  pointer and no short literal annotation sizes the buffer first (`LengthCoveredIff`);
  `ShortBufferNotCovered` is an input.
- A dynamic alloca should get no store. It gets none exactly when a comma stands behind closed
  brackets (`AnyAlloca`, `BareCommaIff`), so one whose type's name leaves a bracket open gets
  an ill-formed store (`UnclosedDynamicZeroed`).
- A Cryptol length binding is blocked by annotations that size nothing, such as a bare
  `_In_` (`BareInBlocks`); `BindingTakesEffect` says exactly when it takes effect.

## Model

| member | source | states |
|---|---|---|
| CrucibleSafety.SafetyAnalyzer.constructor | src/transform/crucible_safety.rs:68-76 | a fresh analyzer has an empty, hence exact, cache |
| CrucibleSafety.SafetyAnalyzer.IsSafe | src/transform/crucible_safety.rs:82-85 | whatever was asked before, the flag is true exactly when every reachable function has an allowed body and no cycle is reachable; an unsafe report carries a true reason |
| CrucibleSafety.SafetyAnalyzer.Check | src/transform/crucible_safety.rs:87-138 | the memoised step: every cached flag stays exact, and every visited uncached name is on the call stack, so a second visit is a real cycle; terminates |
| CrucibleSafety.SafetyAnalyzer.CheckBody | src/transform/crucible_safety.rs:98-138 | the loop over a body refuses exactly when some line is unsafe or some callee is |
| CrucibleSafety.IsCrucibleSafe | src/transform/crucible_safety.rs:144-147 | with a caller's visited set, safe means safe while avoiding that set |
| CrucibleSafety.JustifiedIsUnsafe | src/transform/crucible_safety.rs:91-134 | every reason the check can report really makes the function unsafe |
| CrucibleSafety.OnStackIsCycle | src/transform/crucible_safety.rs:91-97 | meeting a name that is on the stack exhibits a call cycle |
| CrucibleSafety.SafeCallDepth | src/transform/crucible_safety.rs:87-138 | below a safe function no call chain repeats a name, so its depth is bounded by the number of bodies |
| CrucibleSafety.SafeIffBoundedAndAllowed | src/transform/crucible_safety.rs:87-138 | safe is the same as: all reachable functions allowed and call chains of bounded length |
| CrucibleSafety.SafeInIs | src/transform/crucible_safety.rs:87-138 | read off the lines: safe exactly when every chain of calls below the symbol ends in a body without an unsafe line and repeats no symbol |
| ExternOverrideScan.ReachableFrom | src/transform/extern_override_scan.rs:141-155 | the first worklist returns exactly the reachable names and terminates despite duplicates |
| ExternOverrideScan.CollectGlobalsWrittenFrom | src/transform/extern_override_scan.rs:213-257 | the second worklist returns exactly the write frame, on cyclic graphs too |
| ExternOverrideScan.FrameIs | src/transform/extern_override_scan.rs:213-257 | read off the module: a global is in the frame exactly when some chain of calls ends in a body that names it in a store, or in a declared non-intrinsic and it is visible |
| ExternOverrideScan.ReasonFor | src/transform/extern_override_scan.rs:174-184 | each reason exactly where it applies and none before it does: declared only, varargs, library override, mutex helper |
| ExternOverrideScan.IsOverrideMeans | src/transform/extern_override_scan.rs:157-200 | read off the module: a target is a function at the end of some chain of calls, not the function under verification, not an intrinsic, and broken in one of the four ways |
| ExternOverrideScan.LastEntryWins | src/transform/extern_override_scan.rs:138-138 | of several entries of one name the index keeps the last |
| ExternOverrideScan.Scan | src/transform/extern_override_scan.rs:136-203 | the result is one target per reachable broken function of the module, not the function under verification and not an intrinsic, with its reason and frame, sorted by symbol |
| ExternOverrideScan.SortedTargets | src/transform/extern_override_scan.rs:201-202 | the final sort orders by symbol and keeps every target |
| ExternOverrideScan.NotAfterIs | src/transform/extern_override_scan.rs:201-202 | the order of symbols: equal or a prefix, or the smaller character where the two first differ |
| ExternOverrideScan.FrameEquation | src/transform/extern_override_scan.rs:213-257 | the frame solves own writes plus callees' writes |
| ExternOverrideScan.FrameLeast | src/transform/extern_override_scan.rs:213-257 | and lies below every other solution |
| OverrideSoundness.FrameSound | src/transform/extern_override_scan.rs:205-257 | in every run of a machine whose rules are read off stores, calls and declarations, nothing outside the frame of the start function changes, without callbacks or with callbacks that keep to the frame |
| OverrideSoundness.FrameExact | src/transform/extern_override_scan.rs:205-257 | without callbacks a global is in the frame exactly when some complete run changes it |
| OverrideSoundness.TouchesExact | src/transform/extern_override_scan.rs:205-257 | with callbacks, a global can change exactly when some function in reach of calls and callbacks may write it |
| OverrideSoundness.FrameHoldsIff | src/transform/extern_override_scan.rs:205-257 | opaque code calling back leaves the frame right exactly when no opaque function is reached or the frames of all callback entries lie within it |
| OverrideSoundness.CallbackEscapesFrame | src/transform/extern_override_scan.rs:205-257 | a declared function calling back a function that stores to an internal global: the frame is empty and the global can change |
| OverrideSoundness.StepSimulated | src/transform/extern_override_scan.rs:136-203 | one real step is at most one step with overrides in force |
| OverrideSoundness.OverridesCoverRuns | src/transform/extern_override_scan.rs:136-203 | every real run, callbacks included while the overrides' frames hold, is matched by a run that enters no overridden symbol and ends in the same memory |
| OverrideSoundness.OverrideRunReaches | src/transform/extern_override_scan.rs:141-155 | such a run only enters functions reachable from the target and not overridden |
| OverrideSoundness.ScanRunEntersNoBroken | src/transform/extern_override_scan.rs:157-203 | with the scan's overrides, no entered function is broken, other than the target and intrinsics |
| OverrideSoundness.ScanSound | src/transform/extern_override_scan.rs:136-203 | the scan's overrides suffice: each real run is matched by one that enters nothing broken and ends in the same memory, with callbacks too while the frames hold |
| IrGlobals.ScanMutableGlobals | src/transform/ir_globals.rs:35-82 | both sets hold exactly the names its lines define, and visible is within all |
| IrGlobals.PrintedScanned | src/transform/ir_globals.rs:38-77 | a printed definition is found exactly when mutable and not named `__exclow_`, and is visible exactly when no word around the keyword is `internal` or `private`, whatever a quoted name holds |
| IrGlobals.VisibleIsLinkage | src/transform/ir_globals.rs:69-82 | the mutable set is right; the visible set is the externally linked one exactly when no such global has a linkage word in its initialiser |
| IrGlobals.MessageHidden | src/transform/ir_globals.rs:69-82 | an external global whose message holds the word `internal` is found, but not as visible |
| LineScanners.StoreRead | src/transform/ir_globals.rs:250-284 | a store is read exactly as its first at sign says |
| LineScanners.UnquotedRead | src/transform/ir_globals.rs:265-279 | an unquoted name is read up to its last letter, digit, underscore, dot or dollar sign |
| LineScanners.DirectStoreIff | src/transform/ir_globals.rs:250-284 | a direct scalar store is recorded exactly when its value names no global |
| LineScanners.AddressStoreMissed | src/transform/ir_globals.rs:250-284 | storing a function's address records nothing |
| LineScanners.CallTargetRead | src/transform/extern_override_scan.rs:481-514 | the override scan reads the callee of every printed direct call |
| LineScanners.PlainCallIff | src/transform/crucible_safety.rs:403-440 | without address arguments the safety check reads the callee exactly when its name holds no at sign |
| LineScanners.AddressArgument | src/transform/crucible_safety.rs:403-440 | with one, the two analyses follow different functions |
| LineScanners.UnquotedArgument | src/transform/crucible_safety.rs:403-440 | an unquoted argument is read with its punctuation |
| GenVerifyCallgraph.CrucibleSafe | src/gen_verify_callgraph.rs:288-308 | a query answered through the changing analyzer equals a property of the module; neither symbol nor name may match the override registry |
| GenVerifyCallgraph.ShouldRecurse | src/gen_verify_callgraph.rs:270-285 | descends exactly into a function with a body whose symbol and name are both free of library overrides, and if it is a system function only when the switch is off and its key is safe |
| GenVerifyCallgraph.LookupIsLast | src/gen_verify_callgraph.rs:35-41 | a lookup answers with the last function under the symbol, else the last under the name, else nothing |
| GenVerifyCallgraph.WalkCallgraph | src/gen_verify_callgraph.rs:171-200 | only call targets of the gated closure are returned; the whole closure is processed exactly when keys identify the functions in reach, and then every target is returned |
| GenVerifyCallgraph.GatedTargetIs | src/gen_verify_callgraph.rs:171-200 | read off the functions: a gated call target is a symbol called at the end of some chain of calls the walk may enter |
| GenVerifyCallgraph.WalkExactIff | src/gen_verify_callgraph.rs:171-200 | a finished walk processed only functions in reach, and all of them exactly when keys identify those |
| GenVerifyCallgraph.DuplicateKeyLosesTarget | src/gen_verify_callgraph.rs:182-184 | two functions with one key: every finished walk misses a call target |
| GenVerifyCallgraph.ReachableCallTargets | src/gen_verify_callgraph.rs:129-165 | the ungated walk returns only call targets of the full closure, and all of them when keys identify the functions in reach |
| GenVerifyCallgraph.FullTargetIs | src/gen_verify_callgraph.rs:129-165 | read off the functions: a target of the full closure is a nonempty symbol or name called at the end of any chain |
| GenVerifyCallgraph.GatedWithinFull | src/gen_verify_callgraph.rs:79-94 | a dispatch the gated walk records is one the ungated walk finds |
| GenVerifyCallgraph.AnyInterfaceReachable | src/gen_verify_callgraph.rs:79-94 | the gate opens only for call targets of the full closure, and with unique keys for all of them, hence for whatever any gated walk records |
| GenVerifyCallgraph.ClashMissesDispatch | src/gen_verify_callgraph.rs:129-165 | two functions under one key: a gated target that a finished ungated walk misses |
| GenVerifyCallgraph.FilterExternalSpecs | src/gen_verify_callgraph.rs:202-251 | keeps, in order, exactly the specs whose symbol is called, that are not virtual, resolve to nothing virtual, carry no builtin name or symbol, and whose function has no body to run |
| GenVerifyCallgraph.CollectExternalCallSpecs | src/gen_verify_callgraph.rs:28-60 | walk and filter together return only specs to override, and all of them when keys identify the functions in reach |
| GenVerifyCallgraph.ExternalCallSpecIs | src/gen_verify_callgraph.rs:28-60 | read off the functions and specs: what is returned in all, both directions |
| GenVerifyCallgraph.ExternalIffNotDescended | src/gen_verify_callgraph.rs:218-285 | the two separately written tests are exact negations |
| GenVerifyCallgraph.MangledSameFunction | src/gen_verify_callgraph.rs:187-217 | call and spec resolve to the same function whenever their symbol is indexed |
| GenVerifyCallgraph.DescendOrOverride | src/gen_verify_callgraph.rs:171-308 | for derived specs: a reached call is never descended into and returned; it is descended into, returned or excluded exactly unless it should be overridden and no reached call uses its spec's symbol |
| GenVerifyCallgraph.SymbolCallHandled | src/gen_verify_callgraph.rs:171-308 | a call by its spec's own symbol always goes one of the three ways |
| GenVerifyCallgraph.PlainCallForgotten | src/gen_verify_callgraph.rs:187-248 | a declared function called by its plain name gets neither a body nor an override, with no symbol or with one |
| GenVerifyCallgraph.DeriveConstraints | src/constraints/derive.rs:328-340 | exactly one spec per function, under its names and with its body and virtual flags |
| GenVerifyCallgraph.PartitionFailsIff | src/gen_verify_callgraph.rs:171-308 | for any spec list and any spec for a call, by symbol or by function, exactly when both or neither happens |
| GenVerifyCallgraph.DescendedAndReturned | src/gen_verify_callgraph.rs:187-226 | a call and a spec of one unindexed symbol under two names: entered and overridden |
| GenVerifyCallgraph.NeitherDescendedNorReturned | src/gen_verify_callgraph.rs:187-226 | an unresolved call whose spec claims a body: neither |
| GenVerifyCallgraph.ReturnedNotEntered | src/gen_verify_callgraph.rs:171-251 | a returned spec's function was entered by the walk exactly if it is the target itself |
| PatchRefinement.WrapCompare | src/transform/patch_llvm_ir.rs:200-210 | add, unsigned compare and select compute the clamped sum at every width |
| PatchRefinement.ExpansionOfDefined | src/transform/patch_llvm_ir.rs:211-263 | on poison or defined operands the three instructions give the intrinsic's value |
| PatchRefinement.ExpansionRefinesIff | src/transform/patch_llvm_ir.rs:258-262 | for all operand values, the expansion refines the intrinsic exactly when the compare and the wrapped sums show nothing the saturating sums do not |
| PatchRefinement.PlainAllowedIff | src/transform/patch_llvm_ir.rs:258-262 | for operands that are poison, undef or one value: unless one is undef and the other nonzero |
| PatchRefinement.PartlyUndefNotAllowed | src/transform/patch_llvm_ir.rs:258-262 | an operand that is one of two values, plus zero, fails |
| PatchRefinement.ExpandedMono | src/transform/patch_llvm_ir.rs:258-262 | the expansion of refined operands refines the expansion |
| PatchRefinement.ExpansionNames | src/transform/patch_llvm_ir.rs:255-262 | the added names are fresh, the two differ, and no two destinations share one |
| PatchRefinement.ExpansionExact | src/transform/patch_llvm_ir.rs:211-263 | along runs whose adds have poison or defined operands, the expansion leaves blocks, original registers and results unchanged |
| PatchRefinement.BinMono | src/transform/patch_llvm_ir.rs:162-195 | dropping overflow flags and refining operands refines the result |
| PatchRefinement.RunSim | src/transform/patch_llvm_ir.rs:79-99 | each pass keeps related runs related for any number of blocks, the expansion along runs whose adds allow it |
| PatchRefinement.PatchRefines | src/transform/patch_llvm_ir.rs:79-99 | whatever the patched program shows, the original allows, for every program without `__sat_` registers and every run whose executed adds allow the expansion, with or without slot zeroing |
| PatchRefinement.ExpandLastProgram | src/transform/patch_llvm_ir.rs:79-99 | the expansion commutes with the passes before it |
| PatchRefinement.PatchRefinesMarked | src/transform/patch_llvm_ir.rs:79-99 | refinement for every run when each saturating add has noundef or constant operands |
| PatchRefinement.SingleAddRefinesIff | src/transform/patch_llvm_ir.rs:211-263 | a program returning one saturating add is refined by its patched form exactly when the operand values allow it |
| PatchRefinement.UnmarkedAddNotRefined | src/transform/patch_llvm_ir.rs:211-263 | for every width and nonzero constant, an unmarked undef operand breaks refinement |
| PatchRefinement.PartlyUndefAddNotRefined | src/transform/patch_llvm_ir.rs:211-263 | nor for an operand that is one of two values |
| StripFlags.StripLine | src/transform/patch_llvm_ir.rs:176-190 | the repeated replacement ends with no interior flag and computes the line without them |
| StripFlags.ReplaceKeepsStripped | src/transform/patch_llvm_ir.rs:180-183 | each replacement removes interior flags and nothing else |
| StripFlags.StripNswNuwFlags | src/transform/patch_llvm_ir.rs:162-195 | the pass is that, line by line; the count is zero exactly when nothing changes, and each round it counts removed at least four characters |
| StripFlags.StripTextFixpoint | src/transform/patch_llvm_ir.rs:162-195 | no processed line of the result has a flag left, and a second run changes nothing |
| StripFlags.LineUnchangedIff | src/transform/patch_llvm_ir.rs:158-190 | a line survives exactly when it holds no flag, or neither starts with a percent sign, `ret`, `store` or `br` nor holds an equals sign between blanks |
| PoisonWords.ReplacePoisonWithUndef | src/transform/patch_llvm_ir.rs:106-148 | every whole word is replaced, the rest copied, and the count is the number of occurrences |
| PoisonWords.CountIsPositions | src/transform/patch_llvm_ir.rs:111-130 | the words the left-to-right scan takes are all the whole-word positions |
| PoisonWords.WordAtIs | src/transform/patch_llvm_ir.rs:134-148 | a whole word is `poison` with no letter, digit, underscore or double quote on either side |
| PoisonWords.ReplacePoisonFixpoint | src/transform/patch_llvm_ir.rs:106-132 | no whole word is left, not even across edges, and a second run changes nothing |
| PoisonWords.UnchangedIff | src/transform/patch_llvm_ir.rs:101-148 | any text survives exactly when no whole word stands in it |
| PoisonWords.MessageChanged | src/transform/patch_llvm_ir.rs:101-148 | any text with ` poison` before a boundary, a message included, is changed |
| PatchText.StripCode | src/transform/patch_llvm_ir.rs:162-195 | stripping the text of any code prints the stripped instructions |
| PatchText.PoisonCodeIff | src/transform/patch_llvm_ir.rs:106-148 | replacing in the text is replacing poison operands, exactly when no register's printed name holds the word |
| PatchText.RegisterRenamed | src/transform/patch_llvm_ir.rs:134-148 | a load into `%poison` is one it changes |
| SatText.ExpandUaddSatIntrinsics | src/transform/patch_llvm_ir.rs:211-223 | rewrites each recognised line, keeps the others, counts the rewritten ones |
| SatText.ExpandLine | src/transform/patch_llvm_ir.rs:227-280 | a printed line is recognised exactly when it is a saturating add whose width fits 32 bits, and becomes the printed expansion |
| SatText.ExpandCode | src/transform/patch_llvm_ir.rs:211-263 | expanding the text of any code prints the expanded instructions |
| SatText.QuotedMisprinted | src/transform/patch_llvm_ir.rs:255-262 | a recognised line with a quoted destination prints a misplaced quote |
| AllocaText.ZeroUndefAllocas | src/transform/patch_llvm_ir.rs:288-299 | adds each store after its line, keeps all lines, counts the stores |
| AllocaText.HasUnbracketedComma | src/transform/patch_llvm_ir.rs:336-347 | true exactly when some comma stands at depth zero |
| AllocaText.ZeroLine | src/transform/patch_llvm_ir.rs:304-332 | a printed line is recognised exactly when it is an alloca whose alignment fits 32 bits, and gets the printed store of zero |
| AllocaLines.AnyAlloca | src/transform/patch_llvm_ir.rs:304-332 | any alloca line, whatever its slot and type text: it gets its store, with its alignment or 1, unless a comma is bare or the alignment exceeds 32 bits |
| AllocaLines.StaticZeroed | src/transform/patch_llvm_ir.rs:304-332 | a type with its commas in brackets gets its store |
| AllocaLines.DynamicSkipped | src/transform/patch_llvm_ir.rs:321-325 | a type with closed brackets and a count gets none, whatever the count and with or without an alignment |
| AllocaLines.BareCommaIff | src/transform/patch_llvm_ir.rs:336-347 | the count test is true exactly when a comma stands behind a text all of whose bracket groups are closed |
| AllocaLines.UnclosedDynamicZeroed | src/transform/patch_llvm_ir.rs:321-325 | a dynamic alloca behind an open bracket gets a store |
| AllocaText.ZeroCode | src/transform/patch_llvm_ir.rs:288-332 | zeroing slots in the text of any code prints the instructions with their stores |
| PatchPipeline.PatchLlvmIr | src/transform/patch_llvm_ir.rs:79-99 | runs the passes in order; all counts zero means the text is unchanged |
| PatchPipeline.StripGlobals | src/transform/eh_globals.rs:33-47 | the loop of both exception-global passes rewrites the lines its rewriter takes and counts them |
| PatchPipeline.PatchedCode | src/transform/patch_llvm_ir.rs:79-99 | the text pipeline on printed code prints the instruction pipeline's result |
| PatchPipeline.PatchedTextRefines | src/transform/patch_llvm_ir.rs:79-99 | the text written for every block is the code of a program that refines the original, under the conditions of `PatchRefines` |
| SpecRewrite.RewriteUnresolvedAliases | src/transform/spec_rewrite.rs:58-122 | the scanning loop rewrites exactly the closed aliases and reports exactly those that no table and no lookup knows |
| SpecRewrite.AliasBecomes | src/transform/spec_rewrite.rs:74-111 | on the text, from the tables: which aliases stay, which become the array of their own, looked-up or fallback size, and which the integer of an enum width |
| SpecRewrite.ShortNameSized | src/transform/spec_rewrite.rs:95-96 | a short name the table has in one namespace only becomes the array of that size |
| SpecRewrite.TokensSpell | src/transform/spec_rewrite.rs:58-122 | text outside aliases is unchanged and in order |
| SpecRewrite.ReplacementCopied | src/transform/spec_rewrite.rs:58-122 | a replacement starts no alias and hides none |
| SpecRewrite.NoNewAlias | src/transform/spec_rewrite.rs:58-122 | rewriting creates no occurrence across an edge |
| SpecRewrite.RewriteTwice | src/transform/spec_rewrite.rs:58-122 | rewriting is idempotent, and the aliases left are the kept ones in order |
| SpecRewrite.LeftAliases | src/transform/spec_rewrite.rs:58-122 | each alias left is a plain name of the module or in the unresolved set |
| TypeResolve.FindClosingAngle | src/transform/type_resolve.rs:188-201 | returns the first closing bracket in front of which brackets balance, or the length if there is none |
| TypeResolve.NormalizeTemplateArgs | src/transform/type_resolve.rs:131-169 | the loop computes the specified normal form |
| TypeResolve.NormalizePrinted | src/transform/type_resolve.rs:117-179 | normalising a printed tree prints the tree with the namespaces of leaf arguments dropped |
| TypeResolve.NormalizeTail | src/transform/type_resolve.rs:131-169 | with text behind the closing bracket, the rest stays exactly when there is none |
| TypeResolve.NestedTypeMistaken | src/transform/type_resolve.rs:84-169 | a nested type is given the size of the type it is nested in |
| TypeResolve.NormalizeTwice | src/transform/type_resolve.rs:131-179 | a second round changes nothing exactly on settled arguments |
| TypeResolve.UnsettledArgument | src/transform/type_resolve.rs:117-121 | an argument on which the second round changes something |
| TypeResolve.AmbiguousSuffixAnswered | src/transform/type_resolve.rs:84-108 | an ambiguous second step gives no answer exactly when the third does not single one out |
| TypeResolve.AmbiguousYetResolved | src/transform/type_resolve.rs:84-108 | a table and name with two suffix matches that is answered |
| TypeResolve.ResolveIs | src/transform/type_resolve.rs:49-111 | read off the table: own entry, else the only entry that puts the name in a namespace under any kind, else the only one with the same normal form |
| TypeResolve.LastComponentIs | src/transform/type_resolve.rs:117-121 | what stands behind the last separator, or the whole name |
| Mangle.ExtractItaniumSegments | src/mangle.rs:139-170 | the index loop computes the specified segments |
| Mangle.ExtractV0Segments | src/mangle.rs:91-135 | likewise with back-reference and disambiguator blocks |
| Mangle.ScanMangled | src/mangle.rs:91-170 | encoding identifiers between gaps and scanning returns exactly the identifiers |
| Mangle.ScanSeparated | src/mangle.rs:91-135 | a whole name of gaps and separated identifiers gives exactly its identifiers if and only if each starts with a letter or is all underscores |
| Mangle.ScanShifted | src/mangle.rs:91-135 | any other identifier comes back with the separator in front, and its last character is scanned with the rest of the name |
| Mangle.NextIdentifierLost | src/mangle.rs:91-135 | `2__15hello` gives `__` only |
| CryptolSig.TokensAgree | src/parsers/cryptol_poly_sig.rs:223-274 | on every string the two type parsers agree, except for a sequence of variable length |
| CryptolSig.ParseArrowTypeLoop | src/parsers/cryptol_sig.rs:189-204 | the accumulating loop splits and parses every piece |
| CryptolSig.CollectTypeVars | src/parsers/cryptol_poly_sig.rs:134-144 | the binder loop keeps the nonempty names in order |
| CryptolSig.CollectUpperBounds | src/parsers/cryptol_poly_sig.rs:148-195 | the context loop keeps the last bound of each variable |
| CryptolRoundTrip.SignaturesAgree | src/parsers/cryptol_poly_sig.rs:213-221 | the parsers agree exactly on signatures without a binder, context or fat arrow in front, and on text without an arrow |
| CryptolRoundTrip.TupleRefused | src/parsers/cryptol_poly_sig.rs:148-160 | a tuple in front of an arrow: accepted by one parser, refused by the other |
| CryptolRoundTrip.RecordBinds | src/parsers/cryptol_poly_sig.rs:134-144 | a record in front becomes a type variable |
| CryptolRoundTrip.TypeRoundTrip | src/parsers/cryptol_poly_sig.rs:223-274 | parsing a printed type returns it; other text is carried as it stands, provided no other form reads it |
| CryptolRoundTrip.VariableLengthIff | src/parsers/cryptol_poly_sig.rs:202-265 | a bracketed word is a variable length exactly when it starts with a letter or underscore and goes on with those, digits and primes |
| CryptolRoundTrip.BodyRoundTrip | src/parsers/cryptol_poly_sig.rs:213-221 | parsing a printed arrow type returns its parameters and result |
| CryptolRoundTrip.PredRoundTrip | src/parsers/cryptol_poly_sig.rs:175-195 | the predicate parser reads back exactly the upper bounds |
| CryptolRoundTrip.SignatureRoundTrip | src/parsers/cryptol_poly_sig.rs:128-169 | parsing a printed signature returns variables, bounds, parameters and result exactly when no type in front is taken for a binder or context |
| BufferShapes.ShapeRoundTrip | src/buffer_overrides.rs:299-358 | parsing a printed shape yields the type it denotes |
| BufferShapes.AcceptedIsPositive | src/buffer_overrides.rs:299-378 | any accepted text has positive widths and nonempty structs at every level |
| ValueClauses.PushValueClauses | src/constraints/value_clauses.rs:39-92 | the recursive push appends the clauses of the type to the shared vector |
| ValueClauses.EnumClauseExact | src/constraints/value_clauses.rs:105-127 | the enum clause holds of exactly the declared bit patterns, in any order, with gaps and repeats |
| ValueClauses.ClausesExact | src/constraints/value_clauses.rs:39-127 | the clauses hold exactly when every constrained leaf is inhabited, through nested structs |
| ValueClauses.ClausesAre | src/constraints/value_clauses.rs:39-127 | the clauses are exactly those of the leaves, each under its path and at its width: the discriminant's for enums, eight bits for options and results |
| ValueClauses.EnumClauseOrderFree | src/constraints/value_clauses.rs:105-120 | the clause depends on the set of values only |
| AliasFallbacks.Fallbacks.InsertBytes | src/transform/alias_fallbacks.rs:32-37 | raises one entry to the maximum and leaves the other map alone |
| AliasFallbacks.Fallbacks.InsertEnum | src/transform/alias_fallbacks.rs:40-45 | likewise for enum widths |
| AliasFallbacks.Fallbacks.WalkTypeForSizes | src/transform/alias_fallbacks.rs:117-170 | the recursive walk records exactly the hints of the type |
| AliasFallbacks.CollectTypeSizes | src/transform/alias_fallbacks.rs:71-91 | the result is the hints of all functions recorded in order |
| AliasSizes.CollectedIs | src/transform/alias_fallbacks.rs:71-170 | read off the types: a name has an entry exactly when a type of that name stands, at any depth, in a parameter, result or global with a declared or known size or a width, or a first `Dereferenceable` sizes its pointee; the entry is the largest of these |
| AliasFallbacks.RecordedIsMax | src/transform/alias_fallbacks.rs:32-45 | each entry is the maximum of its hints, and present exactly when there is one |
| AliasFallbacks.CollectedConcat | src/transform/alias_fallbacks.rs:71-91 | collecting concatenated lists is the pointwise maximum of collecting each |
| AliasFallbacks.CollectedOrderFree | src/transform/alias_fallbacks.rs:71-91 | the order and repetition of functions do not matter |
| AliasFallbacks.ApplyCliOverrides | src/transform/alias_fallbacks.rs:181-208 | the two loops compute the specified override, or fail on the first bad entry |
| AliasFallbacks.OverrideRead | src/transform/alias_fallbacks.rs:187-203 | an entry is the trimmed name in front of the first equals sign and the trimmed number behind it |
| AliasFallbacks.OverrideEffect | src/transform/alias_fallbacks.rs:181-208 | succeeds exactly when all entries parse; each name ends in one map, enum form and last entry winning |
| LengthBinding.FunctionInfo.RecognizeAndAnnotate | src/constraints/struct_shape_recognizer.rs:60-94 | annotates exactly the unsized buffers followed by a length, and names them in order |
| LengthBinding.PairedIs | src/constraints/struct_shape_recognizer.rs:69-84 | a pair is a pointer with none of six annotations and an unsigned integer with one of thirteen names in any case |
| LengthBinding.BindLengthsLoop | src/constraints/length_binding.rs:78-118 | the loop returns one binding per sequence parameter that is a pointer |
| LengthBinding.BoundTo | src/constraints/length_binding.rs:78-118 | a variable length gets its upper bound, or sixteen and is open-ended; a literal length gets itself |
| LengthBinding.BoundAllocation | src/constraints/length_binding.rs:134-171 | for a pointer without a length that is the element count allocated, and at least one |
| LengthBinding.LengthBlocks | src/constraints/length_binding.rs:140-152 | any of five annotations keeps a parameter as it is |
| LengthBinding.FunctionInfo.ApplyToFunction | src/constraints/length_binding.rs:134-171 | annotates exactly the bound parameters without a length, and warns of the open-ended ones among them, in order |
| LengthBinding.WarnedIs | src/constraints/length_binding.rs:153-156 | a warning names the variable of an open-ended binding whose parameter had no length |
| LengthBinding.PreparedKeeps | src/constraints/length_binding.rs:134-171 | both passes add at most one length annotation, none to sized parameters, and are idempotent together |
| LengthBinding.BindingTakesEffect | src/constraints/length_binding.rs:134-171 | a bound length becomes the allocated count exactly when it is positive and nothing annotates a length yet, or what does says the same |
| LengthBinding.BareInBlocks | src/parsers/clang_ast/sal.rs:107 | a bare `_In_` blocks a binding of eight and leaves one element |
| LengthBinding.LengthCoveredIff | src/constraints/derive.rs:96-140 | the assumed bound fits the allocation exactly when the parameter is a pointer and no short literal annotation sizes it first |
| LengthBinding.AllocatedIs | src/constraints/derive.rs:96-111 | the elements allocated for a pointer: the literal above one, or sixteen for a named sibling, of the first annotation that is either; else one |
| LengthBinding.ShortBufferNotCovered | src/constraints/derive.rs:96-140 | a literal of four in front of the sibling length fails |
| LengthBinding.SiblingIsCovered | src/constraints/derive.rs:229-276 | after both passes, every pointer whose only length annotation names a sibling is covered |
| LengthBinding.RecognizedIsCovered | src/constraints/derive.rs:229-276 | for the recogniser's own annotations it always fits |

## Left out

- Turning IR text into function bodies (src/transform/crucible_safety.rs:149-400, src/transform/extern_override_scan.rs:259-480): the models of the analyses start from items `Safe`, `Unsafe`, `Call` and from parsed functions; the classifiers are tables of opcodes and prefixes. Only the store and call scanners are modelled on text.
- OverrideSoundness.FrameSound: is about the direct stores that were recorded; which ones are is `LineScanners.DirectStoreIff`, and stores through derived pointers are never recorded.
- The STL registry, the mutex-helper list and the table of well-known sizes: uninterpreted parameters.
- Diagnostic texts and the reasons' wording; only flags, kinds of reasons and the variables warned about are modelled.
- ExternOverrideScan.Scan: the `memcmp` length recorded on a target comes from the text of the module and is not modelled.
- OverrideSoundness.ScanSound: with callbacks, it is for a target that has a body; an opaque target would be entered and call back unscanned.
- PatchPipeline.PatchLlvmIr: what the two exception-global passes make of a global's definition is uninterpreted; that they leave all other lines alone is modelled.
- PatchPipeline.PatchedTextRefines: covers the instruction lines of each block; labels, phis and terminators are refined as instructions but not printed.
- PatchPipeline.PatchedCode: is for unquoted names (quoted ones are misprinted, `QuotedMisprinted`), registers the poison pass does not rename, and widths and alignments below 2^32, since outside these the text passes do something else (see `PoisonCodeIff`, `ExpandLine`, `ZeroLine`).
- PatchRefinement.PatchRefines: the instruction language has integers, slots and branches; calls, aggregates, vectors, `freeze` and pointers as values are not in it.
- StripFlags.StripNswNuwFlags: the counter counts rounds that changed a line, as in the source, not flags.
- AllocaText.HasUnbracketedComma: the depth is unbounded, the source's is a 32-bit integer.
- CryptolRoundTrip.TypeRoundTrip: for text that is no other form, being read back is part of its being well-formed.
- Unicode: blanks, letters and digits are the ASCII ones.
- Which lines of a Cryptol file form a signature (`collect_signature_text`), and `detect_prestate`.
- Rendering clauses and types as SAW text; clauses are values with a path, and the executor's own meaning is not modelled.
- LengthBinding.LengthCoveredIff: the pointer, allocation and postcondition parts of `derive_function_constraints` that do not mention lengths, and `infer_len_preconds`, are not modelled.
- GenVerifyCallgraph.WalkCallgraph: that a call target is lost when keys clash is shown by `DuplicateKeyLosesTarget`; which targets survive a given clash is not stated.
- CrucibleSafety.IsCrucibleSafe: for a nonempty visited set the answer is safety while avoiding that set, not safety.
