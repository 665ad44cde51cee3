# trust-cg: loop threading, source scanner, kernels, ledger and proof files

A Dafny model of the parts of trust-cg whose correctness rests on an argument about all runs or all
inputs, with proofs of those arguments. `dafny verify dfyconfig.toml` checks the project.

**Loop threading.** When the compiler lowers a Rust loop, each local the loop carries becomes a
parameter of the emitted header block. `trust_ir_interp.rs` checks that lowering. It folds the emitted
instructions from the header back to the header into bit-vector expressions, rebuilds the same loop
from the MIR (chain of blocks, guard, entry values, updates), and asks a solver whether the two agree
slot by slot. The model has both machines (the emitted code in `TrustIr`, MIR with Rust's integer
semantics in `Mir`), the expression language and its SMT-LIB meaning (`Smt`, over `Bits`), the fold
(`SymbolicFold`), the entry-edge resolver (`EntryEdge`), the verification conditions (`LoopVc`), the
MIR analyses (`LoopConv`, `MirAnalysis`, `LoopModel`), the emitted side of a loop (`Bridge`) and the
per-function check (`Discharge`). The main result is `Discharge.CheckedFunctionThreadsItsLoops`: if
the check accepts a function and the solver is sound, then in every pair of runs through the same
blocks the emitted header parameters equal the MIR locals at every visit of every checked header,
however many iterations and entries there are. `WholeRun` holds its induction. A loop the check cannot
read is skipped, so `FoldCoverage` and `LoopCoverage` say exactly which loops are read: each partial
step answers if and only if the machine or Rust defines what it reads, up to
`LoopCoverage.ObligationIff` for a whole header. `Euclid` takes the
Euclid loop of the interpreter's own tests as a whole function and shows that the hypotheses can be
met.

What the result takes as given:
- the solver's verdict is a parameter; its soundness, with no structural error
  of its own (`Discharge.SoundSolver`), is a hypothesis;
- the two runs visit the same blocks (`Paired`): the check ignores emitted branch conditions, so
  control-flow equivalence is not claimed;
- the emitted function is in SSA form with function arguments as the entry block's parameters, the
  MIR start block has no predecessors, and the predecessor lists hold every MIR edge;
- dominators are an arbitrary set of blocks: nothing proved depends on what the set is;
- instructions and statements outside the modelled slice may put any value in their result;
- an unsigned MIR division by zero, which an assertion excludes in a real run, has SMT-LIB's value.

Division follows SMT-LIB (`bvudiv` by zero is all ones), which the generated formulas mean to a
solver; the evaluator in `crates/trust-cg-verify/src/smt.rs` uses zero instead. Variable names
`p<i>` and `arg<i>` are a datatype, and the fingerprint used for deduplication is the pair of loop
and edges itself rather than its debug text.

**Source scanner.** `generate_unwrap_audit.py` masks comments and literals in Rust source in place
(`RustMask`, `RustLexemes`), decides which cfg attributes are test-only (`CfgText`, `CfgAbstraction`,
`CfgKeys`), finds where each attributed item ends (`ItemSpans`, `ItemShapes`), merges the spans
(`TestRanges`) and writes and reads a Markdown audit table (`AuditRow`). Three of its promises are
false of the code; for each the model has a failing family and a condition under which it holds:
- The masker skips one character after a backslash, so a character literal written `'\x41'` or
  `'\u{1f}'` is not recognised. Every literal is blanked if and only if there is no such literal
  (`RustLexemes.MaskOfLexemes`). Code is lost when the closing quote of one is taken to open the next
  character literal (`RustLexemes.CodeKeptIff`, `RustLexemes.HiddenTextIsCode`).
- The class documentation of `_CfgParser` says unusual cfg syntax cannot hide production code.
  Masking has blanked the literal of `key = "value"`, so the parser takes the delimiter after the
  equals sign for the value, and an operand after the atom can be misread. Call a flag named `test` or
  `doctest`, or a group without operands, a constant. An expression is judged rightly when no key is
  named `test` or `doctest` and either no operand follows a key-value atom, as in `any(test, k = "v")`,
  or no constant occurs, as in `all(k = "v", k = "w")` (`CfgKeys.TestOnlyIsNeverEnabled`). Other
  expressions may or may not be. For a class of expressions given by its keys, its constants and the
  numbers of groups closed between an atom and the next operand, the judgement is sound on the whole
  class if and only if the class has no keys, or has none so named and lacks either constants or
  operands after atoms (`CfgKeys.SoundIff`).
- An attributed item is taken to end at its first semicolon or braces. An attributed field, variant,
  match arm or parameter has neither, and the span runs on through the body of the next item
  (`ItemShapes.NextItemIsHidden`). It stays inside the item if and only if the item has a semicolon or
  braces of its own or ends the file (`ItemShapes.AnnotatedSpanIff`).

**Matrix kernels.** `MatMul` has the two trust-ir loop orders and the C loop nest of
`matmulfuzz.py` over arrays of wrapping 32-bit integers. The C product is read as wrapping, as the
fuzzer's byte-for-byte comparison needs.

**Performance ledger.** `PerfLedger` is the append-only ledger of `check_perf_ratchet.py` as a state
machine over any sequence of invocations, with metrics as reals.

**Proof files.** `Sidecars` groups codegen certificates into lowering sidecars and counts per-rule
files; `ProofPaths` says when functions and rules keep files of their own; `JsonText` escapes JSON
strings.

## Model

| member | source | states |
|---|---|---|
| Smt.LowMaskKeepsLowBits | crates/rustc-codegen-trust-cg/src/trust_ir_interp.rs:109-115 | masking a 64-bit constant payload keeps exactly its low bits at every width, 64 and above included |
| Smt.MaskShiftAmountValue | crates/rustc-codegen-trust-cg/src/trust_ir_interp.rs:131-134 | at every machine width the masked shift amount is the amount modulo the width, amounts at or above the width included |
| Smt.RemExprValue | crates/rustc-codegen-trust-cg/src/trust_ir_interp.rs:161-165 | `a - (a udiv b) * b` is the remainder for a nonzero divisor and `a` itself for zero |
| Smt.SignedRelations | crates/rustc-codegen-trust-cg/src/trust_ir_interp.rs:236-239 | the four signed bit-vector relations compare the two's-complement readings |
| SymbolicFold.ConstSound | crates/rustc-codegen-trust-cg/src/trust_ir_interp.rs:119-126 | an encoded constant denotes the constant the machine loads, at every width and sign |
| SymbolicFold.BinSound | crates/rustc-codegen-trust-cg/src/trust_ir_interp.rs:149-199 | every encoded binary operation denotes what the machine computes for all operand values |
| SymbolicFold.NotSound | crates/rustc-codegen-trust-cg/src/trust_ir_interp.rs:206-209 | exclusive or with the low mask complements every bit of the value |
| SymbolicFold.CmpSound | crates/rustc-codegen-trust-cg/src/trust_ir_interp.rs:222-243 | every encoded comparison holds exactly when the machine's comparison of the two values does, signed relations included |
| SymbolicFold.CastSound | crates/rustc-codegen-trust-cg/src/trust_ir_interp.rs:244-259 | every encoded zero-extension, sign-extension and truncation denotes the machine's result |
| SymbolicFold.InstSound | crates/rustc-codegen-trust-cg/src/trust_ir_interp.rs:145-269 | whenever one instruction is encoded, the machine computes, and computes what the encoding denotes in every agreeing state |
| SymbolicFold.FoldInstructions | crates/rustc-codegen-trust-cg/src/trust_ir_interp.rs:322-325 | the loop over a block body yields the fold of its instructions, or nothing if one is outside the slice |
| SymbolicFold.FoldSound | crates/rustc-codegen-trust-cg/src/trust_ir_interp.rs:145-357 | after any execution of a folded block body the machine state agrees with the symbolic one |
| FoldCoverage.BinExprIff | crates/rustc-codegen-trust-cg/src/trust_ir_interp.rs:149-199 | a binary operation is encoded if and only if it is one of eleven, which are those the machine defines for all operands |
| FoldCoverage.InstExprIff | crates/rustc-codegen-trust-cg/src/trust_ir_interp.rs:145-269 | one instruction is encoded if and only if the machine computes it in a state that binds the same values at the same widths, and at the same width |
| FoldCoverage.FoldBodyIff | crates/rustc-codegen-trust-cg/src/trust_ir_interp.rs:322-325 | a block body is folded if and only if the machine computes every instruction of it |
| FoldCoverage.EdgesToIs | crates/rustc-codegen-trust-cg/src/trust_ir_interp.rs:273-300 | the edges listed for a block are the arms that target it, each once and in order |
| SymbolicFold.TakenEdgeListed | crates/rustc-codegen-trust-cg/src/trust_ir_interp.rs:273-300 | whatever arm the machine takes to a block is among the arms listed for that block, for every terminator |
| SymbolicFold.InterpretChainToBackEdge | crates/rustc-codegen-trust-cg/src/trust_ir_interp.rs:311-357 | the imperative walk over the blocks computes the recursive chain interpretation the soundness theorems are about |
| SymbolicFold.ChainSound | crates/rustc-codegen-trust-cg/src/trust_ir_interp.rs:311-357 | symbolic soundness: executing the chain from any header state, for any number of blocks and instructions, threads to the header exactly what the returned expressions denote |
| FoldCoverage.ChainSpecIff | crates/rustc-codegen-trust-cg/src/trust_ir_interp.rs:311-357 | a chain is interpreted if and only if the machine runs every block of it, each passes on without args and the last threads bound args on its one back edge; the expressions have the widths threaded |
| SymbolicFold.ChainClosed | crates/rustc-codegen-trust-cg/src/trust_ir_interp.rs:145-357 | every returned expression is well-sorted and mentions only seeded variables |
| EntryEdge.BuildDefMap | crates/rustc-codegen-trust-cg/src/trust_ir_interp.rs:361-371 | the nested loops over blocks and nodes build the definition map |
| EntryEdge.ResolveDefExact | crates/rustc-codegen-trust-cg/src/trust_ir_interp.rs:377-397 | the resolver answers if and only if a copy chain that fits the remaining depth ends in that origin; a cyclic definition has no such end |
| EntryEdge.DepthMonotone | crates/rustc-codegen-trust-cg/src/trust_ir_interp.rs:377-397 | a smaller starting depth never changes a successful answer |
| EntryEdge.RunKeepsOrigins | crates/rustc-codegen-trust-cg/src/trust_ir_interp.rs:361-397 | at every point of every run of the emitted function, each value that resolves holds what it resolves to |
| EntryEdge.EntryEdgeSound | crates/rustc-codegen-trust-cg/src/trust_ir_interp.rs:402-418 | whenever any run takes the entry edge, the header parameters receive the values the resolved expressions denote |
| FoldCoverage.EdgeArgsIff | crates/rustc-codegen-trust-cg/src/trust_ir_interp.rs:402-418 | the entry edge is resolved, at the widths of the slots, if and only if one arm leads to the header and a copy chain that fits the depth leads from each arg to a constant or function argument of that width |
| LoopVc.ObligationsBuiltIff | crates/trust-cg-verify/src/mir_semantics.rs:2792-2933 | obligations are built if and only if both edges thread one arg per header param, the guard is absent or names a header param, and no signed division is left in the statements |
| LoopVc.FoldVerdictsIff | crates/trust-cg-verify/src/mir_semantics.rs:2762-2790 | a loop is Refined if and only if every slot has identical sides or is proved by the solver; otherwise the verdict is the solver's on the first slot that is neither |
| LoopVc.RefinedMeansAllSlotsAgree | crates/trust-cg-verify/src/mir_semantics.rs:2762-2867 | with a sound solver, Refined means every slot of both edges is equal for all inputs the guard admits, at equal widths |
| LoopConv.BinarySound | crates/trust-cg-verify/src/mir_semantics.rs:668-739 | the encoding of each MIR binary operation denotes Rust's result on every operand pair, read as integers of the type and wrapped |
| LoopConv.UnarySound | crates/trust-cg-verify/src/mir_semantics.rs:639-661 | the encoding of negation and not denotes Rust's result |
| LoopConv.CastSound | crates/trust-cg-verify/src/mir_semantics.rs:902-1001 | the encoding of an integer cast denotes Rust's cast between any two scalar types |
| LoopConv.ConvStatements | crates/rustc-codegen-trust-cg/src/trust_ir_interp.rs:528-624 | the nested loops with their readable set compute the recursive conversion |
| LoopCoverage.RvalueIff | crates/rustc-codegen-trust-cg/src/trust_ir_interp.rs:528-624 | a right-hand side is converted if and only if Rust defines it on a store that holds exactly the readable locals |
| LoopCoverage.ConvBlocksIff | crates/rustc-codegen-trust-cg/src/trust_ir_interp.rs:528-624 | header and chain are converted if and only if every statement in a row assigns a plain scalar local what Rust defines from the params and the locals written before, and a division is noted if and only if there is one |
| LoopConv.ConvBlocksSound | crates/rustc-codegen-trust-cg/src/trust_ir_interp.rs:528-624 | after any MIR execution of the converted blocks each readable local holds what the encoded store denotes |
| LoopConv.ConvBlocksClosed | crates/rustc-codegen-trust-cg/src/trust_ir_interp.rs:528-624 | every local a converted statement reads is a header parameter or was defined earlier in the chain, so the encoded store depends on header parameters alone |
| MirAnalysis.FindLastWriter | crates/rustc-codegen-trust-cg/src/trust_ir_interp.rs:650-655 | the backward scan returns the last statement that writes the local, or none |
| MirAnalysis.ResolveToParam | crates/rustc-codegen-trust-cg/src/trust_ir_interp.rs:639-664 | the loop over copy steps computes the recursive copy-chain resolution |
| MirAnalysis.ToParamSound | crates/rustc-codegen-trust-cg/src/trust_ir_interp.rs:639-664 | through any length of copy chain the resolved parameter's entry value is what the local holds |
| LoopCoverage.ToParamExact | crates/rustc-codegen-trust-cg/src/trust_ir_interp.rs:639-664 | the resolution answers a param if and only if some number of copies leads back to it and to no other param before |
| MirAnalysis.ResolveCondShape | crates/rustc-codegen-trust-cg/src/trust_ir_interp.rs:671-727 | the loop computes the recursive condition-shape resolution |
| MirAnalysis.GuardFaithful | crates/rustc-codegen-trust-cg/src/trust_ir_interp.rs:671-727 | for every store at header entry the switch takes the body arm if and only if the guard parameter's entry value is nonzero, for the direct, Ne-zero and Eq-zero shapes |
| LoopCoverage.ResolveCondIff | crates/rustc-codegen-trust-cg/src/trust_ir_interp.rs:671-727 | a condition shape is found if and only if copies lead back to a param, or to a comparison of a copy of one with the constant zero on either side, and the header assigns that param nowhere |
| MirAnalysis.ResolveEntryValue | crates/rustc-codegen-trust-cg/src/trust_ir_interp.rs:736-814 | the backward scan of the preheader computes the recursive entry value |
| MirAnalysis.EntryValueSound | crates/rustc-codegen-trust-cg/src/trust_ir_interp.rs:736-814 | leaving the preheader, the local really holds the constant or function argument the scan returned |
| LoopCoverage.EntryValueIff | crates/rustc-codegen-trust-cg/src/trust_ir_interp.rs:736-814 | an entry value is found if and only if the preheader has plain statements only and some number of copies leads back to a constant or, in the start block, a scalar argument |
| LoopModel.PartitionPredecessors | crates/rustc-codegen-trust-cg/src/trust_ir_interp.rs:838-847 | the predecessors split in order into those the header dominates and the rest |
| LoopModel.WalkChain | crates/rustc-codegen-trust-cg/src/trust_ir_interp.rs:888-909 | the chain walk terminates on every CFG, its length test never fires, and it computes the recursive walk |
| LoopModel.CollectEntryArgs | crates/rustc-codegen-trust-cg/src/trust_ir_interp.rs:970-979 | the loop collects one width-checked entry value per parameter, or nothing |
| LoopCoverage.HeaderBranchIff | crates/rustc-codegen-trust-cg/src/trust_ir_interp.rs:863-886 | the header is read if and only if it jumps, or switches with the single case zero on a local whose condition is known; which arm is the body is fixed by the shape |
| LoopCoverage.WalkIff | crates/rustc-codegen-trust-cg/src/trust_ir_interp.rs:888-909 | the walk returns a chain if and only if it is a repetition-free line of jumps and assertions from the body arm back to the header |
| LoopCoverage.ControlFlowIff | crates/rustc-codegen-trust-cg/src/trust_ir_interp.rs:838-936 | the control flow is accepted if and only if the header has two predecessors, one it dominates, and such a chain ends in that one, is entered nowhere else and is not the exit |
| LoopCoverage.ModelIff | crates/rustc-codegen-trust-cg/src/trust_ir_interp.rs:829-991 | a loop model is built if and only if the control flow is accepted, the params are scalars, the statements convert, a guard is there if they divide, and every param has a known entry value of its width |
| LoopModel.BuildMirLoopModel | crates/rustc-codegen-trust-cg/src/trust_ir_interp.rs:829-991 | the whole builder, every bail-out included, computes the specification of the loop model |
| LoopModel.LatchArrivalIsOneTraversal | crates/rustc-codegen-trust-cg/src/trust_ir_interp.rs:838-936 | on any CFG path, arriving at the header of an accepted model through the latch ends one complete uninterrupted traversal of header and chain; every other arrival is from the preheader; the chain repeats no block |
| LoopModel.DivisionIsGuarded | crates/rustc-codegen-trust-cg/src/trust_ir_interp.rs:945-950 | a loop whose converted body divides is accepted only with a reconstructed guard |
| LoopModel.GuardExcludesZeroIff | crates/rustc-codegen-trust-cg/src/trust_ir_interp.rs:945-957 | over the inputs the guard admits, a divisor that no earlier statement assigns is never zero if and only if it is the guard parameter itself |
| Bridge.SeedHeader | crates/rustc-codegen-trust-cg/src/trust_ir_interp.rs:1047-1060 | the seeding loop maps each header parameter to its own variable at its MIR width |
| Bridge.BuildBridgeEdges | crates/rustc-codegen-trust-cg/src/trust_ir_interp.rs:1006-1112 | the whole builder, every bail-out included, computes the specification of the two edges |
| LoopCoverage.BridgeIff | crates/rustc-codegen-trust-cg/src/trust_ir_interp.rs:1006-1112 | the two edges are built if and only if all blocks are emitted, the header is entered only as modelled and has the params, the machine runs the chain and threads values of their widths, and the entry edge resolves |
| Bridge.EmittedArrival | crates/rustc-codegen-trust-cg/src/trust_ir_interp.rs:1017-1038 | in any emitted run at all, control reaches the header only from the preheader or the latch |
| Bridge.LatchExpressionsClosed | crates/rustc-codegen-trust-cg/src/trust_ir_interp.rs:1047-1079 | accepted latch expressions have exactly their slots' widths and no free variable other than header parameters |
| WholeRun.HeaderArmIffGuard | crates/rustc-codegen-trust-cg/src/trust_ir_interp.rs:863-886 | for every store at header entry, control leaves the header by the body arm if and only if the guard parameter is nonzero and by the exit arm otherwise; without a guard only by the body arm. So the guard in the obligation excludes no traversal and admits no exit |
| WholeRun.TraversalKeepsAgreement | crates/rustc-codegen-trust-cg/src/trust_ir_interp.rs:938-991 | if header parameters and MIR locals agree at a header visit, they agree again after both sides run header and chain once |
| WholeRun.EntryAgrees | crates/rustc-codegen-trust-cg/src/trust_ir_interp.rs:1081-1106 | arriving from the preheader, emitted parameters and MIR locals agree |
| WholeRun.EveryHeaderVisitAgrees | crates/rustc-codegen-trust-cg/src/trust_ir_interp.rs:1017-1112 | whole-run simulation: in every pair of runs through the same blocks the header parameters agree at every header visit, over any number of entries and iterations |
| Discharge.CheckLoopThreadingRefinements | crates/rustc-codegen-trust-cg/src/trust_ir_interp.rs:1126-1219 | collecting the headers, sorting them and the loop with its seen set compute the recursive check of the function |
| Discharge.SortedHeaders | crates/rustc-codegen-trust-cg/src/trust_ir_interp.rs:1141-1142 | whatever order the keys of the map are found in, sorting gives the one increasing list of them |
| Discharge.NoStructuralError | crates/trust-cg-verify/src/mir_semantics.rs:2792-2933 | obligations built for an accepted loop always pass the verifier's structural checks, so the arm that skips a loop on such an error is dead |
| Discharge.OkMeansAllRefined | crates/rustc-codegen-trust-cg/src/trust_ir_interp.rs:1126-1219 | deduplication loses nothing: if the check returns Ok, every in-slice header is Refined, headers skipped as duplicates included |
| Discharge.ErrNamesAFailure | crates/rustc-codegen-trust-cg/src/trust_ir_interp.rs:1126-1219 | a rejection names an in-slice header whose own obligation is refuted or undecided |
| Discharge.RejectionNamesTheFirst | crates/rustc-codegen-trust-cg/src/trust_ir_interp.rs:1140-1216 | the header named is the first in block order: no in-slice header before it is refuted or undecided |
| Discharge.AcceptsIffAllRefined | crates/rustc-codegen-trust-cg/src/trust_ir_interp.rs:1126-1219 | the check accepts if and only if every in-slice header is Refined |
| Discharge.AcceptableIffSlotsAgree | crates/rustc-codegen-trust-cg/src/trust_ir_interp.rs:1126-1219 | for every function, some sound solver leads to acceptance if and only if every slot of every in-slice header agrees at every valuation its guard admits |
| Discharge.WrongSlotIsRejected | crates/rustc-codegen-trust-cg/src/trust_ir_interp.rs:1126-1219 | for every function, one slot of one in-slice header that differs at one valuation its guard admits makes the check reject under every sound solver |
| Discharge.AcceptedDivisorIff | crates/rustc-codegen-trust-cg/src/trust_ir_interp.rs:945-957 | in every accepted loop the guard keeps a divisor the chain has not reassigned from being zero if and only if the divisor is the guard parameter: the stated purpose of the guard is met exactly then |
| LoopCoverage.ObligationIff | crates/rustc-codegen-trust-cg/src/trust_ir_interp.rs:1149-1162 | a header is checked if and only if its loop is in the slice on the MIR side and on the emitted side; every other one is skipped |
| Discharge.CheckedFunctionThreadsItsLoops | crates/rustc-codegen-trust-cg/src/trust_ir_interp.rs:1126-1219 | if the per-function check accepts and the solver is sound, emitted header parameters equal MIR locals at every visit of every in-slice header in every pair of runs through the same blocks |
| LoopCoverage.SlicedLoopIsThreaded | crates/rustc-codegen-trust-cg/src/trust_ir_interp.rs:1126-1219 | in a function accepted with a sound solver, every loop in the slice has agreeing header parameters and MIR locals at every visit, none having been skipped |
| Euclid.CorrectRotationRefines | crates/rustc-codegen-trust-cg/src/trust_ir_interp.rs:1366-1374 | the whole Euclid function with the correct back edge is accepted, whatever the solver |
| Euclid.WrongBackEdgeIsRejected | crates/rustc-codegen-trust-cg/src/trust_ir_interp.rs:1376-1398 | with swapped back-edge args, or with a stale one, it is accepted by no sound solver |
| Euclid.HypothesesAreMet | crates/rustc-codegen-trust-cg/src/trust_ir_interp.rs:1250-1365 | an actual MIR run and emitted run of the Euclid function meet every hypothesis of the main theorem at the second header visit |
| RustMask.Blank | scripts/generate_unwrap_audit.py:65-70 | in place, the range becomes spaces except for line breaks and nothing else changes |
| RustMask.RawStringEnd | scripts/generate_unwrap_audit.py:73-96 | the hash-counting scan finds the end of a raw string, or that none starts here |
| RustMask.BlockCommentEnd | scripts/generate_unwrap_audit.py:125-139 | the depth-counting loop finds the end of a nested comment |
| RustMask.StringLiteralEnd | scripts/generate_unwrap_audit.py:141-156 | the escape-tracking loop finds the end of a string literal |
| RustMask.MaskRustCommentsAndLiterals | scripts/generate_unwrap_audit.py:99-172 | the in-place masker with its moving cursor leaves the array equal to the masked text of the recursive specification |
| RustMask.MaskPreservesPositions | scripts/generate_unwrap_audit.py:65-172 | masking keeps the length and every line break, and changes other characters only to spaces |
| RustMask.NothingLexes | scripts/generate_unwrap_audit.py:99-172 | no comment, string, raw string or char literal can be lexed at any position of masked text |
| RustMask.MaskIdempotent | scripts/generate_unwrap_audit.py:99-172 | masking any masked text changes nothing |
| RustMask.KeptOrBlanked | scripts/generate_unwrap_audit.py:108-172 | a character survives exactly when the cursor stops on it as no token's start; all others lie in a token and are blanked |
| RustMask.NestedCommentIsOneToken | scripts/generate_unwrap_audit.py:125-139 | a block comment with comments nested to any depth is consumed as one token ending at its own closing delimiter |
| RustMask.StringIsOneToken | scripts/generate_unwrap_audit.py:141-156 | a string literal with any escapes is one token ending at its closing quote |
| RustMask.RawStringIsOneToken | scripts/generate_unwrap_audit.py:73-96 | a raw string or raw byte string with any number of hashes is one token ending at the first quote followed by that many hashes |
| RustMask.UnclosedRawString | scripts/generate_unwrap_audit.py:93-96 | a raw string that is never closed is one token to the end of the file |
| RustMask.UnclosedComment | scripts/generate_unwrap_audit.py:125-139 | so is a block comment at any depth that is never closed |
| RustMask.UnclosedString | scripts/generate_unwrap_audit.py:141-156 | and a string literal without a closing quote |
| RustLexemes.LexemeIsOneToken | scripts/generate_unwrap_audit.py:111-170 | in lexed Rust text each comment or literal is exactly one token, except that a character literal with a numeric escape is none, and no token starts on a code character |
| RustLexemes.MaskOfLexemes | scripts/generate_unwrap_audit.py:99-172 | for every lexed text, masking keeps every code character, lifetimes included, and blanks every comment and literal if and only if no character literal has a numeric escape |
| RustLexemes.CodeKeptIff | scripts/generate_unwrap_audit.py:99-172 | for every lexed text, every code character is kept if no closing quote of a numeric escape is taken to open a literal; where such a quote has code other than blank space directly behind it, only if |
| RustLexemes.OneLexing | scripts/generate_unwrap_audit.py:99-172 | no text is lexed in two ways: any two lexings cut it at the same places, with the same pieces code and the same ones numeric escapes |
| RustLexemes.EscapeHidesCode | scripts/generate_unwrap_audit.py:158-168 | after a byte escape and a quoted quote everything up to the next quote is blanked, for every escape and every such text |
| RustLexemes.HiddenTextIsCode | scripts/generate_unwrap_audit.py:158-168 | the characters so blanked include code: in the lexing of the text the blanked character is code |
| RustLexemes.RawCStringHidesCode | scripts/generate_unwrap_audit.py:83-84 | a raw C string is read as an ordinary string, so a backslash before its closing quote blanks what follows it |
| CfgAbstraction.CfgParser.Parse | scripts/generate_unwrap_audit.py:200-202 | the parser object returns the value set of the recursive parse, both values when there is no expression |
| CfgAbstraction.CfgParser.Expr | scripts/generate_unwrap_audit.py:204-244 | on every token list, malformed ones included, parsing terminates with the cursor in range and computes the recursive parse |
| CfgAbstraction.CfgParser.Operands | scripts/generate_unwrap_audit.py:212-223 | the operand loop collects the children of the recursive parse and stops where it does |
| CfgKeys.ParseLast | scripts/generate_unwrap_audit.py:204-244 | inside any nesting of groups, an expression that no operand follows and whose own key-value atom comes last gets its value set; the cursor runs past at most the ending of the innermost group |
| CfgKeys.ParseComputesValues | scripts/generate_unwrap_audit.py:204-244 | parsing the tokens of any all/any/not expression in which no operand follows a key-value atom, trailing commas included, gives the value set of the expression |
| CfgAbstraction.ValuesContainTruth | scripts/generate_unwrap_audit.py:188-244 | abstraction soundness: the value set contains the truth value under every assignment with test and doctest off |
| CfgKeys.NothingDecided | scripts/generate_unwrap_audit.py:204-244 | from any cursor of any token list without a test name and without an empty group, malformed ones included, the parse yields both values or nothing |
| CfgKeys.NoConstantIsKept | scripts/generate_unwrap_audit.py:247-254 | no such token list is judged test-only |
| CfgKeys.TestOnlyIsNeverEnabled | scripts/generate_unwrap_audit.py:247-254 | an expression with no key named test or doctest, in which no operand follows a key-value atom or no constant occurs, is off in every non-test build if it is judged test-only |
| CfgAbstraction.EveryValueIsReached | scripts/generate_unwrap_audit.py:188-244 | on expressions that repeat no atom every value in the set is attained by some assignment |
| CfgKeys.LinearJudgementIsExact | scripts/generate_unwrap_audit.py:247-254 | such an expression, if it repeats no atom either, is judged test-only if and only if no non-test build enables the item |
| CfgKeys.GapsExact | scripts/generate_unwrap_audit.py:238-241 | an expression has no gap, that is no operand after a key-value atom, if and only if its key-value atoms come last |
| CfgKeys.KeyValueCanHideProductionCode | scripts/generate_unwrap_audit.py:188-254 | for every key, value, kind of constant and number of groups closed between the atom and the next operand, none included, an expression with just these that is judged test-only and that a non-test build enables |
| CfgKeys.SoundIff | scripts/generate_unwrap_audit.py:188-254 | over all expressions with given keys, constants and gaps between atom and next operand, the judgement never hides production code if and only if there are no keys, or none is named test or doctest and there are no gaps or no constants |
| CfgText.TokenizeText | scripts/generate_unwrap_audit.py:196-198 | finding tokens left to right in the text of any expression gives its tokens |
| CfgText.CompactIff | scripts/generate_unwrap_audit.py:248 | removing whitespace undoes putting it in anywhere and changes nothing else |
| CfgText.RemovedIffTestForm | scripts/generate_unwrap_audit.py:247-254 | whatever its text, an attribute is removed if and only if, whitespace aside, it is test, doctest, a path that ends in ::test, or a cfg whose tokens are judged test-only |
| CfgText.OtherAttributesAreKept | scripts/generate_unwrap_audit.py:249-252 | an attribute of none of these forms is never removed |
| CfgText.TestNamesAreRemoved | scripts/generate_unwrap_audit.py:249-250 | test, doctest and every path to test are always removed |
| CfgText.AttributeJudgement | scripts/generate_unwrap_audit.py:247-254 | an attribute that is `cfg(..)` around the text of an expression, with whitespace anywhere, is judged exactly as the expression's tokens |
| CfgText.RemovedAttributeIsNeverEnabled | scripts/generate_unwrap_audit.py:247-254 | the same of attribute text: an attribute of such an expression, with whitespace anywhere, is off in every non-test build if the scanner removes it |
| CfgText.NoConstantTextIsKept | scripts/generate_unwrap_audit.py:247-254 | a cfg attribute of any text at all, well formed or not, whose tokens have no test name and no empty group is never removed |
| CfgText.RemovedIffNeverEnabled | scripts/generate_unwrap_audit.py:247-254 | where no atom is repeated either, the attributes removed are exactly those no non-test build enables |
| ItemSpans.MatchingDelimiter | scripts/generate_unwrap_audit.py:175-185 | the depth-counting loop finds the delimiter of the recursive specification |
| ItemSpans.SkipAttributes | scripts/generate_unwrap_audit.py:257-268 | the loop skips whitespace and attributes as the recursive specification does |
| ItemSpans.AnnotatedItemEnd | scripts/generate_unwrap_audit.py:271-292 | the loop with its two depths computes the end of the recursive specification |
| ItemSpans.TestOnlyRanges | scripts/generate_unwrap_audit.py:295-317 | a position is covered by the separated result if and only if it lies between the start of a test-only attribute and the end found for its item |
| ItemSpans.RemovedPositionIff | scripts/generate_unwrap_audit.py:295-317 | whole files: a position is removed if and only if it lies between the start of an attribute of one of the test forms and the end found for its item |
| ItemShapes.MatchingCloses | scripts/generate_unwrap_audit.py:175-185 | in well-bracketed text the delimiter found is the one that closes the group |
| ItemShapes.SkipsToItem | scripts/generate_unwrap_audit.py:257-268 | any number of attributes and whitespace are skipped, up to the item |
| ItemShapes.ItemEndIs | scripts/generate_unwrap_audit.py:271-292 | the scan ends after the first semicolon or braced group of the item that is outside parentheses and brackets |
| ItemShapes.ItemEndIff | scripts/generate_unwrap_audit.py:271-292 | for every item and whatever follows it, the scan stays within the item if and only if the item has such a stop or ends the file, and ends with it if and only if the first stop is its last part |
| ItemShapes.NextItemIsHidden | scripts/generate_unwrap_audit.py:271-292 | for every field, variant, arm or parameter without a stop, the closing delimiter is passed over and the span ends with the body of the next item |
| ItemShapes.AnnotatedSpanIff | scripts/generate_unwrap_audit.py:257-305 | the span of a test-only attribute with any attributes after it: nothing behind the item is removed if and only if the item has a stop or ends the file |
| ItemShapes.OnlyTestItemsAreRemoved | scripts/generate_unwrap_audit.py:295-317 | in a file whose test-only attributes all annotate items with a stop, every position removed belongs to such an item |
| TestRanges.SortKeeps | scripts/generate_unwrap_audit.py:309 | sorting orders the spans and permutes them |
| TestRanges.MergeRanges | scripts/generate_unwrap_audit.py:307-317 | sorting and the merging pass give ordered spans with a gap between them that cover exactly the positions of the input spans |
| TestRanges.SeparatedIsCanonical | scripts/generate_unwrap_audit.py:307-317 | two separated lists of non-empty spans covering the same positions are equal, so the merged form is unique |
| TestRanges.InsideRanges | scripts/generate_unwrap_audit.py:346-354 | the lookup that stops early agrees with membership in any span |
| AuditRow.SplitMarkdownRow | scripts/generate_unwrap_audit.py:483-503 | the character loop gives the cells of the recursive splitter without the empty ends |
| AuditRow.EscapeIsPerCharacter | scripts/generate_unwrap_audit.py:538-539 | three global replaces in sequence escape each character on its own |
| AuditRow.EscapeRoundTrip | scripts/generate_unwrap_audit.py:506-510 | three global replaces in sequence undo the escaping of every string |
| AuditRow.RowRoundTrip | scripts/generate_unwrap_audit.py:483-510 | splitting any rendered row gives exactly five cells; line and category come back, and unquoting the kind and snippet cells returns the originals whatever they contain |
| MatMul.MultiplyAccumulate | scripts/fuzz/matmulfuzz.py:75-84 | one wrapped multiply and add takes an entry from k exact products modulo 2^32 to k + 1 |
| MatMul.MatmulIkj | scripts/fuzz/matmulfuzz.py:43-94 | the store-form kernel leaves C0 + A * B modulo 2^32 in every entry, stays in bounds of n * n elements, and does nothing for n at most zero |
| MatMul.MatmulIjk | scripts/fuzz/matmulfuzz.py:96-147 | the dot-product kernel, its sum carried in a block parameter, meets the same specification |
| MatMul.MatmulReference | scripts/fuzz/matmulfuzz.py:151-156 | the C loop nest meets the same specification |
| MatMul.ProductIsUnique | scripts/fuzz/matmulfuzz.py:43-156 | the specification fixes every element, so the three kernels leave identical memory |
| PerfLedger.FlagsIffGatesOff | scripts/check_perf_ratchet.py:77-81 | there is a weakening flag if and only if some proof gate is switched off |
| PerfLedger.FlagsAre | scripts/check_perf_ratchet.py:77-81 | which flags are reported |
| PerfLedger.ProblemsAre | scripts/check_perf_ratchet.py:84-101 | which problems are reported, and with which missing fields, flags and count |
| PerfLedger.ValidIff | scripts/check_perf_ratchet.py:84-101 | results pass validation if and only if every mandatory stamp is there, every proof gate was on and nothing mismatched |
| PerfLedger.RatchetCheck | scripts/check_perf_ratchet.py:158-193 | the loop over metrics collects the failures of the specification, or stops where the percentage divides by zero |
| PerfLedger.MetricPassesIff | scripts/check_perf_ratchet.py:178-187 | exactly when one metric passes, for a positive, a negative and a zero best value |
| PerfLedger.PassingMeansWithinIff | scripts/check_perf_ratchet.py:178-187 | for every ledger and floor, some value passes and every one that passes is within the floor of the best if and only if the best is positive; from a negative best exactly the values at or above 100 + floor percent of it pass, however far above |
| PerfLedger.RatchetIs | scripts/check_perf_ratchet.py:158-193 | whatever the metrics are, the check stops if and only if a metric is compared with a best of zero, and otherwise reports exactly the regressions beyond the floor and drops of coverage, with their values; none for a row that is not evidence |
| PerfLedger.PassingIff | scripts/check_perf_ratchet.py:158-193 | a row passes if and only if nothing is compared with zero and there is no such failure, and always if it is not evidence |
| PerfLedger.RatchetPassesIff | scripts/check_perf_ratchet.py:158-193 | with positive metrics an evidence row passes if and only if it is within the floors of, and covers no less than, every committed evidence row of its architecture |
| PerfLedger.LedgerFile.Run | scripts/check_perf_ratchet.py:364-398 | the exit code is zero if and only if the results are evidence-worthy and complete and their row passes; one row that records the run is appended if and only if in addition the run asks for it and its source is new; otherwise nothing changes |
| PerfLedger.RunIff | scripts/check_perf_ratchet.py:364-398 | after a run the ledger has the row that records it added at the end, or is unchanged, exactly under these conditions |
| PerfLedger.EveryAcceptedRunIsRecorded | scripts/check_perf_ratchet.py:387-394 | over any sequence of invocations every acceptable appending run is in the ledger from then on under its source, with the row that records it if the source was new |
| PerfLedger.LedgerFile.CheckLedger | scripts/check_perf_ratchet.py:350-362 | the exit code is zero exactly when every row is free of proof-weakening flags and mismatches |
| PerfLedger.LedgerStaysValid | scripts/check_perf_ratchet.py:77-101 | after any sequence of invocations from empty, sources are unique and every row is clean, so re-validation always passes |
| PerfLedger.RowsComeFromResults | scripts/check_perf_ratchet.py:104-141 | every row of every reachable ledger records, in every copied field, with the defaults of missing ones and the verdict of every gate, valid results submitted for appending |
| PerfLedger.CoverageOnlyRises | scripts/check_perf_ratchet.py:188-192 | over any sequence of invocations evidence coverage per architecture never decreases |
| PerfLedger.RegressionsCannotAccumulate | scripts/check_perf_ratchet.py:158-193 | over any sequence of invocations with positive metrics each geomean is within its floor of every earlier evidence row of its architecture |
| PerfLedger.AppendOnly | scripts/check_perf_ratchet.py:387-397 | further invocations only add rows at the end |
| Sidecars.BuildGroups | crates/trust-cg-cli/src/emit_proofs.rs:348-433 | the pass over three collections returns groups if and only if no certificate is unverified or needed without a categorised obligation, and then those of the first-appearance specification; otherwise the error that describes the first such certificate |
| Sidecars.RefusedIff | crates/trust-cg-cli/src/emit_proofs.rs:359-414 | sidecars are refused if and only if some certificate is unverified, or is not exempt and has no obligation or an uncategorised one |
| Sidecars.FirstErrorIff | crates/trust-cg-cli/src/emit_proofs.rs:359-414 | the error names the first such certificate, with the kind that fits it |
| Sidecars.ExemptIff | crates/trust-cg-cli/src/emit_proofs.rs:377-400 | the exempt certificates are those of two categories and those whose rule name starts with a fixed prefix |
| Sidecars.NeededExact | crates/trust-cg-cli/src/emit_proofs.rs:377-400 | the certificates grouped are exactly those not exempt |
| Sidecars.FunctionsExact | crates/trust-cg-cli/src/emit_proofs.rs:423-431 | a function has a group if and only if a certificate names it |
| Sidecars.FunctionsInOrder | crates/trust-cg-cli/src/emit_proofs.rs:423-431 | no function has two groups, and groups come in order of first appearance |
| Sidecars.RulesExact | crates/trust-cg-cli/src/emit_proofs.rs:416-421 | a function's rules are exactly those of its certificates, each once |
| Sidecars.RulesInOrder | crates/trust-cg-cli/src/emit_proofs.rs:416-432 | a function's rules come in order of first appearance |
| Sidecars.ObligationsMatchRules | crates/trust-cg-cli/src/emit_proofs.rs:402-432 | when nothing is refused each rule contributes its own obligation, in order and with a check kind |
| Sidecars.SanitizeSafe | crates/trust-cg-cli/src/emit_proofs.rs:75-88 | a sanitized path segment is never empty, holds only safe characters, is unchanged by sanitizing again and differs from the name only in its unsafe characters |
| Sidecars.KeysExact | crates/trust-cg-cli/src/emit_proofs.rs:287-304 | the keys seen are exactly the pairs of directory and stem of the certificates |
| Sidecars.FilesExact | crates/trust-cg-cli/src/emit_proofs.rs:279-339 | one file is written per distinct directory and stem, none lost and none twice |
| Sidecars.FirstCertificateWins | crates/trust-cg-cli/src/emit_proofs.rs:287-334 | each file is written for the first certificate with its key |
| Sidecars.TagsAre | crates/trust-cg-cli/src/emit_proofs.rs:309-330 | a file is tagged verified, failed or eval-only if and only if its certificate is verified with an obligation, unverified with one, or has none |
| Sidecars.EmitPerRuleProofFiles | crates/trust-cg-cli/src/emit_proofs.rs:279-339 | the files are those of the first certificate of each key; as many SMT files are counted as there are files with an obligation and as many skipped as there are without, together the number of distinct keys |
| ProofPaths.SamePathIff | crates/trust-cg-cli/src/emit_proofs.rs:75-88 | two names share a path segment if and only if they are equal up to characters written as underscores, an empty name read as unknown |
| ProofPaths.WriteSidecars | crates/trust-cg-cli/src/emit_proofs.rs:268-273 | the writing loop leaves the last contents of each path and counts every write |
| ProofPaths.SurvivesIff | crates/trust-cg-cli/src/emit_proofs.rs:459-470 | the two sidecars of a group are on disk at the end if and only if no later group has an alike name |
| ProofPaths.EverySidecarSurvivesIff | crates/trust-cg-cli/src/emit_proofs.rs:459-470 | every function keeps its sidecars if and only if no two functions have alike names |
| ProofPaths.EveryRuleFiledIff | crates/trust-cg-cli/src/emit_proofs.rs:279-339 | every rule has a proof file of its own if and only if no two different rules have alike names and alike directories |
| JsonText.EscapeJson | crates/trust-cg-cli/src/emit_proofs.rs:91-107 | the buffer loop produces the escaped text |
| JsonText.EscapeRoundTrip | crates/trust-cg-cli/src/emit_proofs.rs:91-107 | decoding by section 7 of RFC 8259 returns every string |
| JsonText.EscapedIsClean | crates/trust-cg-cli/src/emit_proofs.rs:91-107 | the output of every string holds no raw control character and no unescaped quote |
| JsonText.EscapeInjective | crates/trust-cg-cli/src/emit_proofs.rs:91-107 | different strings are never escaped alike |

## Left out

- RustLexemes.MaskOfLexemes: raw C strings are not in the lexeme grammar, because the scanner takes them for ordinary strings; RustLexemes.RawCStringHidesCode says what it does with them.
- LoopVc.ObligationsBuiltIff: refuses signed division, which the verifier would encode with a trap sentinel; no converted loop has one (LoopCoverage.RvalueIff).
- RustLexemes.CodeKeptIff: says only one direction where such a quote has blank space and then a literal, or a string that begins with a quote, directly behind it; what is lost then depends on all the text that follows.
- CfgKeys.TestOnlyIsNeverEnabled: is silent on an expression with both an operand after a key-value atom and a constant; which of these are misread depends on where every delimiter falls, and CfgKeys.KeyValueCanHideProductionCode has misread ones for every key, gap and constant.
- ItemShapes.AnnotatedSpanIff: is about source that is well bracketed after the attribute; in any other text ItemSpans.TestOnlyRanges still says what is covered.
- Discharge.AcceptedDivisorIff: speaks of divisors the chain has not reassigned before the division; whether a computed divisor can be zero is a question about its value, which the guard does not settle.
- CfgText.RemovedAttributeIsNeverEnabled: for atoms that an expression repeats only this direction holds; the scanner may keep an item no build enables, which is its documented conservative side.
- AuditRow.RowRoundTrip: says nothing of the reason cell's text, which is kept escaped when a table is read back.
- LoopConv.BinarySound: floating-point operands and checked arithmetic are outside the integer slice the loop model converts.
- MatMul.MatmulReference: reads signed overflow in the C product as wrapping, and does not model aliased arrays.
- PerfLedger.LedgerFile.Run: the evaluator of gate predicates is a parameter, and the rendered table is not modelled.
- Sidecars.BuildGroups: generating and serializing each lowering certificate from its group is not modelled.
- The solver, batching and timeouts behind a discharge: a verdict function with a soundness hypothesis.
- rustc's type and constant queries: types and constants are part of the MIR datatype.
- Signed division and remainder, memory, calls and floating point in emitted code: the fold refuses them, and in the machine they may produce any value.
- The vectorizers, register allocator, encoders and object writers that the fuzz scripts drive.
- Site patterns, crate walking, digests and atomic writes of the scanner; Markdown rendering of the ledger.
- Annotation carry-over between audit regenerations.
- Floating-point rounding of ledger percentages.
- Benchmark runners, report generators, build scripts and command-line plumbing: processes, files and clocks.
- The remaining fuzz generators: easy loops or random text.
