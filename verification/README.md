# DolRecomp: a verified model

DolRecomp translates PowerPC (Gekko/Broadway) code to native code ahead of time. This project models
the parts of it where a transformation, an index, a fixpoint or a lock-free protocol has to agree with
a simple specification, and proves that they do.

`dafny verify dfyconfig.toml` checks everything.

## What is modelled

- **Two backends.** The same instruction is compiled to DolIR, with CR and XER split into fields, and
  to C on packed registers. `Lowering`, `LowerInteger`, `LowerRegister` and `LowerChunk` are the
  builder: a class whose methods append instructions, each proved to compute a function of the split
  state. `EmittedC` is the meaning of the emitted text. `SplitRelation` relates the two states, and
  `BitFacts`, `LoweringCorrect`, `RegisterCorrect` and `TwoBackends` prove that they agree, with the
  exact condition wherever they do not. `Numbers` reads words as numbers, and `Meaning` says bit by bit
  and as numbers what the instructions compute, apart from both compilations.
- **Emitted control flow.** `ControlFlow` computes leaders, cycle sums and counted loops;
  `EmittedControl` is the emitted C as labels, budget tests, calls and returns, with the graph of its
  transfers. `FreeCycles` runs through cycles that charge nothing, `EmittedTermination` has a measure
  that every step lowers when there are none, and `ChargedBlocks` says which functions have none.
  Registers, and with them conditions and return addresses, are data.
- **Native modules.** `NativeValidation` is the versioned compare-and-swap protocol as interleaved
  steps of any number of threads. `NativeLookup` is the lossy cache and the entry bitmap,
  `NativeState`, `NativeReload` and `StateMask` the commit and reload of staged state, and `NativeRun`
  the loop that chains ranges. `NativeRanges` says which tables of ranges are emitted, and
  `NativeHonesty` for which of them VALID means unchanged; `NativeAnnounce` says which ranges an
  invalidation bumps.
- **Address analysis.** `AddressAnalysis` is the interval domain, `AddressSoundness` the analysis, its
  soundness over every run, and what it licenses: direct RAM access. `AddressPrecision` says what it
  does not give up, and `WordBits` reads its integer words digit by digit.
- **Call sites and ABIs.** `CallLiveness`, `MustDefine` and `MayDirty` are the three dataflow loops over
  one graph of recorded successors, `CallSites` and `FunctionAbi` take them from DolIR blocks to masks,
  and `AbiRelations`, `AbiPropagation` and `AbiPolicy` propagate the masks over the call graph.
- **Indexes and partitions.** `Dispatch` and `DispatchIndex` are the linear and the page-and-run lookup,
  `Partition` cuts sections into ranges, `ProfileSeeds` and `ProfileClosure` select ranges from a
  profile.
- **Single and double.** `SingleDouble` is the bit-level conversion.

Masks of state slots are sets of slot numbers, and arrays the source updates in place are arrays.
Library sorts are modelled by an insertion sort with the contract of the library.

## Where code and expectation part

Each of these is proved, with the exact condition under which the two sides agree, and the code is
kept as it is.

- `mcrxr`: the emitted C copies XER bit 28 into the CR field, the lowering leaves it out.
- An untaken linking conditional branch: the lowering writes LR, the emitted C does not.
- `bcctr` that also counts CTR down: the lowering reads the target after counting, the emitted C before.
- A block of nothing but embedded data words charges no cycles, and a function with one can loop for
  ever: runs are bounded exactly when no cycle of labels is free of charge.
- The last page of the address space is counted as empty when `max_per_page` is computed: the bound
  holds exactly when no page ends there or that page has no more runs than the others.
- No loader rejects sections that overlap (`validate_dol_layout` looks at file bounds, alignment and
  the entry point; the only test for overlap is that of patches, src/app/pipeline.c:531-538), and the
  allocation of ranges counts a shared partition point once: the writes fit exactly when the pieces
  between points number at most the capacity.
- A section that ends at 2^32 wraps to an end of 0 and gets no range.
- No loader sorts sections either, and `llvm_range_for` is a binary search over their ranges in section
  order: it finds every range at every address exactly when the sections ascend without overlap.
  Otherwise a seed, a call target or a forced point may be dropped from the selection.
- The invalidation of a native module is a binary search too: VALID can be trusted exactly when every
  write is announced, which for ranges that do not overlap means that they ascend. `emit_ranges`
  refuses a table that is out of order and does not overlap; it accepts some that overlap, and there
  a write can leave a range VALID.
- An invalidation of no bytes bumps the range its address lies strictly inside; one of a byte or more,
  over ranges in order, bumps exactly the ranges it hits.
- CR and a CR field staged together: the field wins, so CR reads back as staged only if they agree.

## Hypotheses carried by the theorems

- Atomics are sequentially consistent. No version tag wraps round during one validation, and no reset
  runs beside one.
- A helper changes only the state its `state_defs` mask names. Runs enter a function only at leaders.
- Liveness, must-define and may-dirty are stated over the recorded successor edges.
- Termination of emitted functions assumes helpers never raise downcount.
- Patches are non-empty and disjoint, as their loader checks, and bounded by partition points, which
  are extended by both ends of every patch. Chunks are at most 4096 instructions, as the command line
  and the environment allow. Sections may overlap and come in any order unless a row says otherwise.
- A chunk ends below 2^32, as every range that is cut does. A branch to a register enters again at its
  address, through the switch over continuations and through the dispatcher alike.
- Ranges of a native module are whole words. That none overlap, or that they ascend, is assumed only
  by the rows that say so, next to rows that prove it necessary.

## Model

| member | source | states |
|---|---|---|
| TwoBackends.StraightLineAgrees | src/ir/dolir_builder.c:1433-1478 | over every run of decoded non-branch instructions without an OE bit or embedded data, running the lowered blocks from a related split state succeeds, continues at the next block, and leaves a state related to what the emitted C leaves; packing it gives the same CR and XER |
| TwoBackends.BranchEndAgrees | src/ir/dolir_builder.c:1384-1431 | a straight line that ends in a branch: both backends take it alike, continue at the same address and leave related states under the exact conditions of LowerChunk.BranchAgreesIff and LowerChunk.TargetAgreesIff |
| TwoBackends.StepAgreesIff | src/ir/dolir_builder.c:1384-1478 | one instruction of a chunk from related states: the block comes to the same block, address and related state as the emitted statements if and only if the instruction has one meaning there (mcrxr bit 28, the LR of untaken links, the target of a counting bcctr) |
| TwoBackends.ChunkRunAgreesIff | src/ir/dolir_builder.c:1433-1478 | over runs of any length through the recorded targets of all branches: after every number of steps both backends stand at the same block and address in related states if and only if every instruction the emitted code comes to has one meaning there; both stop at a fallback and where the chunk is left |
| TwoBackends.FollowsAddress | src/ir/dolir_builder.c:1378-1382 | the block a branch terminator records for the way it goes is the block of the address it continues at |
| TwoBackends.NextNumber | src/ir/dolir_builder.c:348-353 | the next instruction lies four bytes on, modulo 2^32 |
| Meaning.MaskBits | src/backend/emitter.c:11-23 | bit k of a rotate mask, counted from the left, is set if and only if mb <= k <= me, or round the end of the word when mb > me |
| Meaning.RotatedBits | src/backend/emitter.c:1061-1094 | a rotated word has at bit k the bit k + n, modulo 32, of the word, n being the low five bits of the amount |
| Meaning.RotateMeans | src/backend/emitter.c:1061-1094 | rlwinm, rlwnm and rlwimi bit by bit: inside the mask the rotated rS, outside nothing or the old rA; RotateAgrees says the same of the lowered block |
| Meaning.MtcrfMeans | src/backend/emitter.c:1733-1747 | mtcrf bit by bit: a bit of CR comes from rS exactly if the mask has the bit of its field, the first field by the highest |
| Meaning.ImmediateOn | src/backend/emitter.c:628-753 | the constants of the immediate group bit by bit, those of addis, oris, xoris and andis. sixteen places up |
| Meaning.ArithmeticShiftOn | src/backend/emitter.c:1037-1060 | a signed shift to the right moves every bit down and fills with the sign |
| Meaning.ExtensionOn | src/backend/emitter.c:1003-1018 | extsb and extsh: every bit above the byte or halfword is its sign |
| Meaning.SumMeans | src/backend/emitter.c:754-850 | add and subf as numbers, modulo 2^32 |
| Meaning.CompareMeans | src/backend/emitter.c:676-713 | the order bits of the compares are those of the signed or unsigned numbers |
| Meaning.DivwMeans | src/backend/emitter.c:939-964 | divw: the quotient of the absolute values, negative if and only if the signs differ, modulo 2^32 |
| Numbers.WidenedSigned | src/backend/emitter.c:909-938 | a word widened with its sign keeps its low word, and its high word is all sign |
| LowerChunk.InstructionAgrees | src/backend/emitter.c:611-1846 | for every modelled opcode the state after the lowered code is related to the state after the emitted statement, the one exception being an mcrxr that meets XER bit 28, which RegisterCorrect.McrxrAgreesIff shows to be exact |
| LowerChunk.LowerIntegerOp | src/ir/dolir_builder.c:375-632 | the instructions appended for any integer opcode compute exactly the split-state function of that opcode, and define each value before it is used |
| LowerChunk.LowerStateOp | src/ir/dolir_builder.c:1146-1277 | the same for the condition register and SPR opcodes |
| LowerChunk.LowerControl | src/ir/dolir_builder.c:1384-1431 | the terminator recorded for a branch continues where the lowered branch goes, for every state, and its code writes LR and counts CTR as that branch does |
| LowerChunk.LowerBranchCode | src/ir/dolir_builder.c:257-275 | the appended condition code evaluates to the branch condition, with CTR counted down when the BO field asks for it |
| LowerChunk.TakenAgrees | src/backend/emitter.c:290-309 | the lowered condition on split CR and CTR and the emitted condition on packed CR agree on taken or not taken, and on CTR |
| LowerChunk.BranchAgreesIff | src/backend/emitter.c:378-436 | both take the branch alike, and the states after it are related if and only if the branch is taken, does not link, or LR already holds the return address: the lowering writes LR of an untaken linking branch, the emitted C does not |
| LowerChunk.TargetAgreesIff | src/ir/dolir_builder.c:1406-1417 | the targets agree if and only if the branch is not a bcctr that counts CTR down, or counting does not change its word-aligned value: the lowering reads CTR after counting, the emitted C before |
| LowerChunk.BlockFor | src/ir/dolir_builder.c:1367-1376 | a guest address of the chunk maps to the one block built for it |
| LowerChunk.BuildBlock | src/ir/dolir_builder.c:1433-1478 | the block of one instruction lowers it: straight-line code with a fall-through, a branch terminator, or a fallback for the forms the lowering rejects |
| LowerChunk.BuildChunk | src/ir/dolir_builder.c:1433-1478 | one block per instruction, each lowering its instruction |
| LoweringCorrect.ImmediateAgrees | src/backend/emitter.c:628-753 | lowered and emitted forms leave related states: mulli, addi, addis, ori, oris, xori, xoris, andi., andis. |
| LoweringCorrect.CarryImmediateAgrees | src/backend/emitter.c:633-665 | lowered and emitted forms leave related states: subfic, addic and addic. with their carry |
| LoweringCorrect.CompareGroupAgrees | src/backend/emitter.c:676-713 | lowered and emitted forms leave related states: the signed and unsigned compares into any CR field |
| LoweringCorrect.AddAgrees | src/backend/emitter.c:754-797 | lowered and emitted forms leave related states: add, addc and adde with carry in and out |
| LoweringCorrect.SubtractAgrees | src/backend/emitter.c:826-869 | lowered and emitted forms leave related states: subf, subfc and subfe, whose lowering adds a complement |
| LoweringCorrect.ExtendedAgrees | src/backend/emitter.c:798-908 | lowered and emitted forms leave related states: neg, addme, addze, subfme and subfze |
| LoweringCorrect.ProductAgrees | src/backend/emitter.c:909-938 | lowered and emitted forms leave related states: mullw, mulhw and mulhwu |
| LoweringCorrect.QuotientAgrees | src/backend/emitter.c:939-964 | lowered and emitted forms leave related states: divw and divwu, division by zero and the overflowing division included |
| LoweringCorrect.LogicalAgrees | src/backend/emitter.c:965-992 | lowered and emitted forms leave related states: the eight logical operations |
| LoweringCorrect.UnaryAgrees | src/backend/emitter.c:993-1018 | lowered and emitted forms leave related states: cntlzw, extsb and extsh |
| LoweringCorrect.RotateAgrees | src/backend/emitter.c:1061-1094 | lowered and emitted forms leave related states: rlwinm, rlwnm and rlwimi |
| LoweringCorrect.ShiftAgrees | src/backend/emitter.c:1019-1036 | lowered and emitted forms leave related states: slw and srw, amounts of 32 and more included |
| LoweringCorrect.AlgebraicAgrees | src/backend/emitter.c:1037-1060 | lowered and emitted forms leave related states: sraw and srawi and their carry |
| LowerInteger.LowerImmediate | src/ir/dolir_builder.c:392-429 | the code appended for the immediate group computes the split-state function of the opcode, keeps what was built before and records CR0 when asked |
| LowerInteger.LowerCarryImmediate | src/ir/dolir_builder.c:399-411 | the code appended for the carrying immediates computes the split-state function of the opcode, keeps what was built before and records CR0 when asked |
| LowerInteger.LowerCompare | src/ir/dolir_builder.c:430-435 | the code appended for the compares computes the split-state function of the opcode, keeps what was built before and records CR0 when asked |
| LowerInteger.LowerAdd | src/ir/dolir_builder.c:436-461 | the code appended for the additions computes the split-state function of the opcode, keeps what was built before and records CR0 when asked |
| LowerInteger.LowerSubtract | src/ir/dolir_builder.c:462-487 | the code appended for the subtractions computes the split-state function of the opcode, keeps what was built before and records CR0 when asked |
| LowerInteger.LowerExtended | src/ir/dolir_builder.c:488-503 | the code appended for neg and the extended forms computes the split-state function of the opcode, keeps what was built before and records CR0 when asked |
| LowerInteger.LowerProduct | src/ir/dolir_builder.c:584-595 | the code appended for the products computes the split-state function of the opcode, keeps what was built before and records CR0 when asked |
| LowerInteger.LowerQuotient | src/ir/dolir_builder.c:596-632 | the code appended for the divisions with their guards computes the split-state function of the opcode, keeps what was built before and records CR0 when asked |
| LowerInteger.LowerLogical | src/ir/dolir_builder.c:504-518 | the code appended for the logical operations computes the split-state function of the opcode, keeps what was built before and records CR0 when asked |
| LowerInteger.LowerUnary | src/ir/dolir_builder.c:519-529 | the code appended for the one-operand operations computes the split-state function of the opcode, keeps what was built before and records CR0 when asked |
| LowerInteger.LowerRotate | src/ir/dolir_builder.c:530-541 | the code appended for the rotates computes the split-state function of the opcode, keeps what was built before and records CR0 when asked |
| LowerInteger.LowerShift | src/ir/dolir_builder.c:542-552 | the code appended for the logical shifts computes the split-state function of the opcode, keeps what was built before and records CR0 when asked |
| LowerInteger.LowerAlgebraic | src/ir/dolir_builder.c:553-583 | the code appended for the algebraic shifts computes the split-state function of the opcode, keeps what was built before and records CR0 when asked |
| LowerRegister.LowerCrLogical | src/ir/dolir_builder.c:1187-1211 | a CR logical instruction rewrites one bit of one split field |
| LowerRegister.LowerMtcrf | src/ir/dolir_builder.c:1152-1161 | mtcrf writes exactly the selected fields |
| LowerRegister.LowerMcrxr | src/ir/dolir_builder.c:1166-1186 | mcrxr moves the three flags and clears them |
| LowerRegister.LowerMfcr | src/ir/dolir_builder.c:1149-1151 | mfcr reads the packed fields |
| LowerRegister.LowerMcrf | src/ir/dolir_builder.c:1162-1165 | mcrf copies a field |
| LowerRegister.PackCrWord | src/ir/dolir_builder.c:124-133 | the appended code computes the packed CR |
| LowerRegister.PackXerWord | src/ir/dolir_builder.c:135-151 | the appended code computes the packed XER |
| LowerRegister.UnpackXer | src/ir/dolir_builder.c:153-169 | the appended code splits a word into XER and its three flags |
| LowerRegister.LowerFromSpr | src/ir/dolir_builder.c:1212-1233 | mfspr of XER, LR and CTR |
| LowerRegister.LowerToSpr | src/ir/dolir_builder.c:1234-1277 | mtspr of XER, LR and CTR |
| LowerRegister.LowerBranchCondition | src/ir/dolir_builder.c:257-275 | the two halves of the branch condition and their conjunction |
| RegisterCorrect.CrLogicalAgrees | src/backend/emitter.c:438-446 | the split and packed CR logical instructions agree |
| RegisterCorrect.MtcrfAgrees | src/backend/emitter.c:1733-1747 | writing selected fields agrees with merging under the field mask |
| RegisterCorrect.MfcrAgrees | src/backend/emitter.c:1729-1732 | mfcr agrees |
| RegisterCorrect.MoveFieldAgrees | src/backend/emitter.c:1707-1717 | mcrf agrees |
| RegisterCorrect.McrxrAgreesIff | src/backend/emitter.c:1718-1728 | mcrxr agrees if and only if XER bit 28 is clear: the emitted C copies four bits, the lowering three |
| RegisterCorrect.PackAgrees | src/ir/dolir_builder.c:124-133 | packing split fields gives the related packed CR |
| RegisterCorrect.PackedXerIs | src/ir/dolir_builder.c:135-151 | packing split XER gives the related packed XER |
| RegisterCorrect.FromSprAgrees | src/backend/emitter.c:1780-1810 | mfspr agrees |
| RegisterCorrect.ToSprAgrees | src/backend/emitter.c:1811-1835 | mtspr agrees, XER being split again |
| SplitRelation.RelatedPacks | src/ir/dolir_builder.c:124-151 | related states pack to the same CR and XER |
| SplitRelation.FieldsRebuild | src/ir/dolir_builder.c:124-133 | the eight fields of a packed CR join to it again |
| SplitRelation.FlagsRebuild | src/ir/dolir_builder.c:135-151 | XER is its rest and its three flags |
| Lowering.Builder.constructor | src/ir/dolir_builder.c:1433-1440 | an empty block computes nothing |
| Lowering.Builder.Append | src/ir/dolir.c:66-98 | an appended instruction runs after what was there and defines a new value |
| Lowering.Builder.SetCrField | src/ir/dolir_builder.c:171-186 | the appended order bits and summary overflow are the compare result in the field |
| Lowering.Builder.AddWideWithCarry | src/ir/dolir_builder.c:235-244 | the appended 64-bit sum of two words and a carry |
| Lowering.Builder.WriteCarryResult | src/ir/dolir_builder.c:246-255 | result, carry and record in the order the source writes them |
| BitFacts.CountsAgree | src/backend/emitter.c:993-1002 | the emitted counting loop and the DolIR count of leading zeros agree |
| BitFacts.CrBitsAgree | src/backend/emitter.c:438-446 | each of the eight Boolean forms of the emitted text is the appended one |
| BitFacts.AlgebraicFlag | src/backend/emitter.c:1037-1060 | the carry of an algebraic shift: negative and a one bit lost |
| SplitMachine.RunAppend | src/ir/dolir_builder.c:58-63 | running appended code is running the code, then the appendix |
| ControlFlow.BuildCfg | src/backend/c_cfg.c:254-328 | leaders, block cycle sums, PC materialisation, return targets and counted loops are exactly the described ones; no leader is marked after an embedded word that only ends a block |
| ControlFlow.KeepBack | src/backend/c_cfg.c:307-316 | the instructions inside a direct back-edge whose text does not look at the guest PC, and only those, run without it in memory |
| ControlFlow.FindLoops | src/backend/c_cfg.c:306-326 | a counted loop is found exactly where an outlinable backward branch closes a straight line |
| EmittedControl.GotoGoes | src/backend/emitter.c:1903-1972 | every transfer a label can make inside its activation is an edge of the local goto graph, and the label's charge is paid first |
| EmittedControl.GoesGoto | src/backend/emitter.c:1903-1972 | while budget is left every edge of the graph can be taken, at exactly the cost of the label |
| EmittedControl.CallsIff | src/backend/emitter.c:355-376 | a label calls another emitted function if and only if it is a linking branch out of the function with a local continuation |
| EmittedControl.BackwardTestsBudget | src/backend/emitter.c:378-436 | a transfer to an earlier or the same label is made only with budget left, and only to a leader |
| EmittedControl.Progress | src/backend/emitter.c:1903-1972 | while a function is active some step is possible |
| FreeCycles.RunThroughCall | src/backend/emitter.c:355-376 | a call whose callee can return without a charge comes back to the label after it without a charge, by a run of the whole program |
| FreeCycles.CycleRunsForever | src/backend/emitter.c:1884-1972 | a cycle of labels that charge nothing (branches, return dispatch, outlined loops, calls that return free) gives, from one entry, runs of every length |
| EmittedTermination.FreeWalkIsShort | src/backend/emitter.c:1903-1972 | without such a cycle a walk that charges nothing is no longer than the labels of the function |
| EmittedTermination.GotoDescends | src/backend/emitter.c:1903-1972 | without such a cycle every transfer of an activation, backward or forward, lowers a rank of budget left, longest free walk ahead and forward distance |
| EmittedTermination.StepDescends | src/backend/emitter.c:355-376 | a step of a whole program, calls and returns included, lowers a weight that counts outer frames with a higher power |
| EmittedTermination.EveryActivationReturns | src/backend/emitter.c:1903-1972 | without free cycles every run from an entry is bounded by its weight, and one that cannot go on has returned from everything it entered |
| EmittedTermination.RunsAreBoundedIff | src/backend/emitter.c:1903-1972 | the runs of a program of emitted functions are bounded if and only if no function has a cycle of labels that charge nothing |
| ChargedBlocks.NoLeadingDataCharges | src/backend/c_cfg.c:279-304 | functions built from code in which no block starts with an embedded word charge every block that goes on |
| ChargedBlocks.ChargesBlocksIff | src/backend/c_cfg.c:279-304 | exactly when a function charges every block that goes on: no label that goes on starts a block of nothing but data words |
| ChargedBlocks.ChargingHasNoFreeCycle | src/backend/c_cfg.c:279-304 | a function that charges its blocks has no free cycle, because a cycle leads back to the start of a block |
| ChargedBlocks.ChargingProgramReturns | src/backend/emitter.c:1903-1972 | so a program of such functions has bounded runs |
| ChargedBlocks.LeadingDataLoopsForever | src/backend/c_cfg.c:279-300 | a data word that ends a block, with a branch back to it, is a free cycle: the program has runs of every length |
| ChargedBlocks.LeadingDataMayReturn | src/backend/c_cfg.c:279-300 | the same data word in front of a return charges nothing either, and has no free cycle |
| ControlFlow.MarkLeaders | src/backend/c_cfg.c:276-292 | an instruction is marked a leader, or a return target, if and only if it is one |
| ControlFlow.SumBlocks | src/backend/c_cfg.c:294-304 | each leader carries the cycles of its block |
| ControlFlow.BlockCharges | src/backend/c_cfg.c:294-304 | a block whose leader is not an embedded word charges at least one cycle |
| ControlFlow.SumIsZeroIff | src/backend/c_cfg.c:294-304 | a block charges nothing exactly when it holds only data words and fallback instructions |
| ControlFlow.Classes | src/backend/c_cfg.c:65-131 | transfers end a block and everything else runs on; data words and fallback instructions alone cost nothing; sc and rfi cost 2, branches 1 |
| NativeValidation.FindFirstAfter | src/backend/native_module.c:397-408 | the loop ends, on any list of ranges, behind a range that ends by the address and before one that does not, at the position the invalidation begins from |
| NativeValidation.StepKeepsInv | src/backend/native_module.c:247-274 | every step of every thread keeps the protocol invariant, whatever the order of the ranges |
| NativeValidation.RunKeepsInv | src/backend/native_module.c:395-434 | so every state of every interleaving from a reset satisfies it |
| NativeValidation.ResetEstablishes | src/backend/native_module.c:424-432 | a reset establishes it |
| NativeValidation.BumpKeeps | src/backend/native_module.c:411-422 | bumping a version keeps the invariant whatever validations are under way: every exchange begun before it must fail |
| NativeValidation.PublishKeeps | src/backend/native_module.c:264-272 | publishing a validation result keeps the invariant: VALID is only published for bytes nobody changed since the word was read |
| NativeValidation.ValidIsHonest | src/backend/native_module.c:247-274 | where every write is announced to the ranges it hits (NativeHonesty.CoversIff): in every reachable state a VALID range with no write awaiting its invalidation holds bytes whose hash is the stored one |
| NativeValidation.CounterTracksStatuses | src/backend/native_module.c:252-286 | whatever the order of the ranges, the counter with its pending updates is the number of ranges not VALID modulo 2^32, and at rest is zero exactly when all are VALID |
| NativeAnnounce.FirstAfterParts | src/backend/native_module.c:402-408 | where ranges ascend without overlap, exactly those before the position end by the address |
| NativeAnnounce.VisitsIsOverlap | src/backend/native_module.c:402-411 | there the walk of an invalidation comes to exactly the ranges the write overlaps, which for a write of one byte or more are those it hits |
| NativeAnnounce.BumpsVisited | src/backend/native_module.c:397-422 | on any list, among any other threads: one invalidation bumps every range its walk comes to once, and no other |
| NativeAnnounce.BumpsOverlapped | src/backend/native_module.c:397-422 | where ranges ascend without overlap it bumps a range if and only if the write overlaps it, and once |
| NativeAnnounce.UntouchedIsKept | src/backend/native_module.c:397-422 | there, over every interleaving, a range that no write overlaps keeps its version, and once it is not DIRTY its word |
| NativeHonesty.HonestIff | src/backend/native_module.c:397-422 | no state of any interleaving marks a range VALID, with no write under way, whose bytes it was not compiled from, if and only if every write is announced to every range it hits; each range is taken to have been compiled from some readable bytes |
| NativeHonesty.MissedWriteIsDishonest | src/backend/native_module.c:397-422 | for any write the invalidation does not bring to a range it hits: the run that validates the range, changes one byte of it, invalidates, and ends with the range still VALID |
| NativeHonesty.OneByteShows | src/backend/native_module.c:247-251 | bytes that differ in one place have different hashes |
| NativeHonesty.CoversIff | src/backend/native_module.c:397-410 | every write is announced if and only if the starts never fall and the search for the last address of each range ends at it or before, a condition on the table alone |
| NativeHonesty.CoversIsOrder | src/backend/native_module.c:397-410 | for ranges of which no two overlap that is when they ascend |
| NativeHonesty.AcceptedCovers | src/backend/native_module.c:91-120 | a table that the emission accepts, of ranges of which no two overlap, announces every write |
| NativeHonesty.DescendingIsNotTold | src/backend/native_module.c:397-410 | two descending ranges: the search for a write to the upper one ends behind the table |
| NativeHonesty.RepeatedIsNotTold | src/backend/native_module.c:397-410 | two sections loaded twice: the table is accepted and a write to the lower section is announced to its first copy only |
| NativeRanges.FindLlvmRange | src/backend/native_module.c:14-25 | the lower bound of a start, or none, on any list |
| NativeRanges.EmitRanges | src/backend/native_module.c:91-120 | the table is the list of functions as given, and there is one if and only if every function is found by its start |
| NativeRanges.AcceptedAscends | src/backend/native_module.c:91-120 | the table of functions chosen from ranges of which no two overlap ascends, because its functions are found: sections that descend give no module |
| NativeRanges.AcceptsAllIff | src/backend/native_module.c:91-120 | all of such ranges are accepted if and only if they ascend |
| NativeRanges.DescendingIsRefused | src/backend/native_module.c:91-120 | two descending ranges that do not overlap give no module |
| NativeRanges.RepeatedIsAccepted | src/backend/native_module.c:91-120 | overlapping ranges that do not ascend can be accepted |
| NativeLookup.Lookup.Find | src/backend/native_module.c:135-165 | whatever the cache holds, the result is that of the binary search without a cache, on any list of ranges, and the cache stays truthful |
| NativeLookup.FindIsScanIff | src/backend/native_module.c:148-162 | for ranges of which no two overlap the search agrees with a linear scan at every address if and only if they ascend |
| NativeLookup.StoresKeepTruth | src/backend/native_module.c:156-158 | any thread's store of a found range keeps every entry truthful |
| NativeLookup.ScanSome | src/backend/native_module.c:150-162 | where one range only contains the address the scan finds it |
| NativeLookup.EmitEntryMap | src/backend/native_module.c:167-216 | on any list of whole-word ranges: offsets are the running slot counts, and a bit is set exactly for the entries that the emitting pass, which goes over ranges and entries once, gives to a range they lie aligned in; nothing is emitted when the slots cannot be numbered |
| NativeLookup.BitsApart | src/backend/native_module.c:195-196 | different aligned addresses, and different ranges, have different bits when ranges are whole words |
| NativeLookup.BitsOnto | src/backend/native_module.c:167-196 | every bit below the total is that of an aligned address of some range |
| NativeLookup.WordsAreFull | src/backend/native_module.c:167-216 | the bitmap has as many 64-bit words as the slots need, and no more |
| NativeLookup.SlotsShared | src/backend/native_module.c:141-142 | aligned addresses share a cache slot if and only if they lie a multiple of 16 KiB apart |
| NativeLookup.SupportsEntry | src/backend/native_module.c:217-228 | true if and only if the address is a listed entry, the search finds its range, and that range is the one that took the entry |
| NativeLookup.SupportsListedIff | src/backend/native_module.c:167-228 | for ranges of which no two overlap those are exactly the listed entries that lie aligned in a range, whatever the list, if and only if the ranges ascend |
| NativeRun.PrepareState | src/backend/native_module.c:312-325 | exactly the inputs neither staged nor valid are reloaded and become valid |
| NativeRun.NextRange | src/backend/native_module.c:356-363 | the loop goes on exactly when the exit spent its budget with cycles to spare, did something, and leads to a recognised entry of a validated range |
| NativeRun.Run | src/backend/native_module.c:330-391 | over every script of range exits: the first range is entered with nothing staged, every later one where and with what the one before left: its persistent dirty slots, its valid slots and its values, only the missing inputs being read from the host; prior and remaining cycles sum to the budget; the returned counters are the saturated sums; the state staged last is committed |
| NativeRun.StagedArrives | src/backend/native_module.c:342-388 | a register staged by one range and read by the next arrives with its staged value |
| NativeRun.CyclesAreConserved | src/backend/native_module.c:380-386 | the cycles before a visit are the sum of the exits before it, and some remain at every chained visit |
| NativeRun.PriorMore | src/backend/native_module.c:371-385 | adding with saturation exit by exit is saturating the sum |
| NativeState.Host.CommitRegisters | src/backend/native_state.c:54-75 | exactly the masked general and paired-single registers change |
| NativeState.Host.CommitCr | src/backend/native_state.c:76-91 | CR field by field: a masked field wins over a masked CR |
| NativeState.Host.CommitXer | src/backend/native_state.c:92-109 | XER's own slot changes only the low 29 bits, each flag slot only its flag |
| NativeState.Host.CommitSprs | src/backend/native_state.c:112-126 | exactly the masked SPRs, segment registers and GQRs change |
| NativeState.SprNumbers | src/backend/native_state.c:112-126 | each staged special register is written under its number in the architecture |
| NativeState.Host.Commit | src/backend/native_state.c:50-139 | commit changes exactly the masked state |
| NativeState.MergeXerIs | src/backend/native_state.c:92-109 | the four merges into XER do not disturb one another |
| NativeReload.Reload | src/backend/native_state.c:142-218 | exactly the masked slots are read, each from its place, and all others keep their value |
| NativeReload.CommitThenReload | src/backend/native_state.c:50-218 | every masked slot but CR and XER reads back the staged value at its width |
| NativeReload.CrRoundTrip | src/backend/native_state.c:79-90 | CR reads back as staged if and only if every masked field agrees with it, hence always when no field is masked |
| NativeReload.XerRoundTrip | src/backend/native_state.c:96-108 | XER reads back its low 29 bits, and the whole word if and only if its flags are those committed |
| NativeReload.ReloadThenCommit | src/backend/native_state.c:142-218 | committing what was just reloaded changes nothing, for a reservation flag of 0 or 1 |
| StateMask.Mask32Bits | src/backend/native_state.c:37-44 | bit i of the 32-bit extract is the mask bit of slot + i, for every slot and word boundary |
| StateMask.ShiftedLeft | src/backend/native_state.c:42 | shifting a word left and cutting it to 64 bits keeps the bits that fit |
| AddressAnalysis.UnarySound | src/ir/dolir_address.c:51-76 | the interval of a unary operation contains its result, for all operand values in the operand interval |
| AddressAnalysis.BinarySound | src/ir/dolir_address.c:78-149 | every result of operands inside their intervals lies inside the computed interval; AddressPrecision.IntervalIsNarrowest and BinaryExact say it is no wider than it must be |
| AddressAnalysis.KnownSound | src/ir/dolir_address.c:118-149 | exact operands give an interval that contains the result |
| AddressPrecision.UnaryExact | src/ir/dolir_address.c:51-76 | a tracked operation on a known operand gives exactly its result |
| AddressPrecision.BinaryExact | src/ir/dolir_address.c:78-149 | a tracked operation on two known words of its width gives exactly its result whenever that is defined |
| AddressPrecision.UndefinedIsUnknown | src/ir/dolir_address.c:120-149 | a division by zero or a shift by the width or more of known operands has no result and is unknown |
| AddressPrecision.IntervalIsNarrowest | src/ir/dolir_address.c:91-118 | add, sub and shifts of intervals keep an interval if and only if no values of the operands wrap (and a shift amount is known), and then both of its ends are results |
| AddressPrecision.MaskIsNarrowest | src/ir/dolir_address.c:84-90 | a known mask of an unknown word gives 0 to the mask, and both are results |
| AddressPrecision.SelectIsNarrowest | src/ir/dolir_address.c:204-216 | a known choice gives the chosen interval, another the narrowest around both |
| AddressPrecision.ConversionKeepsIff | src/ir/dolir_address.c:60-63 | widening and narrowing keep an interval if and only if it fits |
| AddressPrecision.ConstantsAreKnown | src/ir/dolir_address.c:251-292 | along every run all that is computed from constants since the last leader, through registers and across fall-through blocks, is known exactly |
| AddressPrecision.ConstantAddressIsAnnotated | src/ir/dolir_address.c:254-272 | a load or store whose address a run computes from constants is annotated with that address and its class |
| AddressPrecision.RangeClassIff | src/ir/dolir_address.c:218-233 | more than one address has a class if and only if all of them resolve to one RAM, which is the one named |
| AddressPrecision.RamClassIff | src/ir/dolir_address.c:151-169 | an address has a class of RAM if and only if it resolves to that RAM |
| AddressPrecision.NativeAccessIff | src/backend/llvm/abi_liveness.cpp:13-25 | an access is made native if and only if every address of its interval resolves to RAM with room for its width |
| AddressPrecision.OtherClassIff | src/ir/dolir_address.c:151-169 | the device, physical and unknown classes by the high digits of the address |
| WordBits.RotatedDigit | src/ir/dolir_address.c:136-142 | rotating moves every binary digit up, round the end of the word |
| WordBits.XorDigits | src/ir/dolir_address.c:127-130 | exclusive or digit by digit; AndDigits, OrDigits and ComplementDigit likewise |
| WordBits.LeadingZerosMeans | src/ir/dolir_address.c:64-72 | the counted zeros stand right above the highest digit set |
| WordBits.SubtractUndone | src/ir/dolir_address.c:122 | a difference with what was taken away added is the word again |
| AddressSoundness.FindLeaders | src/ir/dolir_address.c:176-189 | a block is marked if and only if it is a leader |
| AddressSoundness.AnalyzeInstruction | src/ir/dolir_address.c:235-287 | one instruction updates values and state slots as the transfer function says |
| AddressSoundness.AnalyzeBlock | src/ir/dolir_address.c:235-287 | a block's facts are folded over its instructions and its accesses annotated |
| AddressSoundness.AnalyzeAddresses | src/ir/dolir_address.c:235-287 | the annotation of every access is the classification of the interval known there |
| AddressSoundness.KnownAtStart | src/ir/dolir_address.c:249-252 | a leader starts with every state slot unknown, any other block with what the block before it left |
| AddressSoundness.InstructionSound | src/ir/dolir_address.c:191-216 | executing an instruction keeps every bounded value inside its interval |
| AddressSoundness.RunSound | src/ir/dolir_address.c:235-287 | in every run that enters at leaders, every value and slot the analysis calls bounded lies in its interval |
| AddressSoundness.RangeClass | src/ir/dolir_address.c:218-233 | every address of a classified range has the class of the range |
| AddressSoundness.NativeAccessResolves | src/backend/llvm/abi_liveness.cpp:13-25 | an access accepted as native resolves at every address of its interval with room for its width |
| AddressSoundness.ProvenAccessStaysInRam | src/cpu/cpu.c:113-142 | together: in every run an access proven native reads or writes RAM only |
| CallLiveness.SolveLiveness | src/backend/llvm/call_liveness.cpp:124-149 | the backward loop ends with masks that satisfy the equations and hold only live slots |
| CallLiveness.UpdateLive | src/backend/llvm/call_liveness.cpp:129-147 | one visit: unchanged masks satisfy the block's equations, changed ones use up room |
| CallLiveness.LivenessIsExact | src/backend/llvm/call_liveness.cpp:103-149 | a slot is in liveIn if and only if a recorded path reaches a use, or an exit with it among the outputs, before any definition |
| MustDefine.Predecessors | src/backend/llvm/call_liveness.cpp:119-121 | the predecessor lists invert the successor lists |
| MustDefine.SolveCertain | src/backend/llvm/call_liveness.cpp:151-173 | the forward loop ends with the least solution, every entry stamped with when it became certain |
| MustDefine.CertainIsExact | src/backend/llvm/call_liveness.cpp:151-173 | a slot is in definedBefore if and only if no backward walk that avoids its definitions reaches the entry or a block without predecessors, or goes round a cycle |
| MustDefine.CertainOnEveryPath | src/backend/llvm/call_liveness.cpp:151-173 | it is written on every recorded path from block 0 through the block |
| MayDirty.SolveDirty | src/backend/llvm/call_liveness.cpp:175-198 | the may-dirty loop ends with masks that satisfy the equations and hold only slots some path dirties |
| MayDirty.DirtyIsExact | src/backend/llvm/call_liveness.cpp:175-218 | a slot is in mayDirtyBefore if and only if some recorded path ending at the block writes it, or had it written after an earlier call |
| MayDirty.CertainIsDirty | src/backend/llvm/call_liveness.cpp:216-218 | definedBefore lies within mayDirtyBefore in every block |
| CallSites.AddSuccessors | src/backend/llvm/call_liveness.cpp:20-40 | block t is recorded if and only if it is a target the kind of the terminator may go to, or the terminator is linked and block t lies at its address plus 4 inside the function |
| CallSites.Summarize | src/backend/llvm/call_liveness.cpp:108-118 | uses are the reads not preceded by a write, defs the writes |
| CallSites.BuildGraph | src/backend/llvm/call_liveness.cpp:104-122 | the graph records exactly the function's successors, exposed reads and writes |
| CallSites.AnalyzeCallsites | src/backend/llvm/call_liveness.cpp:94-222 | liveAfter of a block whose call returns to block t, the block at the address behind the call, is exactly what is live into t, and otherwise what is live out of it; a slot is defined before if and only if no recorded path avoids defining it, may be dirty if and only if some recorded path dirties it; the first lies within the second |
| CallSites.AnalyzeCallsiteDirty | src/backend/llvm/call_liveness.cpp:44-92 | the separate may-dirty analysis computes the same masks |
| FunctionAbi.AnalyzeFunctionAbi | src/backend/llvm/abi_liveness.cpp:87-211 | input, may-define, must-define and output masks by the paths that justify them |
| FunctionAbi.ReadsAreInputs | src/backend/llvm/abi_liveness.cpp:183-193 | a slot read on a path from block 0 before the path writes it is an input |
| FunctionAbi.OutputsAreWrittenOrInputs | src/backend/llvm/abi_liveness.cpp:200-208 | on every path to an exit an output slot is written, or was passed in |
| AbiRelations.Containing | src/backend/llvm/abi_policy.cpp:63-71 | the upper-bound search is the linear search from the highest start |
| AbiRelations.HolderContains | src/backend/llvm/abi_policy.cpp:63-71 | for disjoint ranges it finds exactly the range that contains the address |
| AbiRelations.BuildRelations | src/backend/llvm/abi_policy.cpp:84-100 | relations, caller and callee lists, live-after masks and call counts of all edges |
| AbiRelations.AcceptedAreCalls | src/backend/llvm/abi_policy.cpp:84-100 | for disjoint ranges the relations are exactly the edges from a range start into a native range |
| AbiPropagation.Absorb | src/backend/llvm/abi_policy.cpp:118-138 | one merge grows the caller's masks by what the edge carries, and settles the relation |
| AbiPropagation.SpreadToCallers | src/backend/llvm/abi_policy.cpp:107-144 | the worklist terminates with every relation settled and every bit justified by a call chain |
| AbiPropagation.MasksAreExact | src/backend/llvm/abi_policy.cpp:107-144 | a slot is in a mask if and only if a chain of calls leads to a range that had it, no edge on the way defining it first |
| AbiPropagation.SpreadToCallees | src/backend/llvm/abi_policy.cpp:152-175 | the escape worklist terminates settled and justified |
| AbiPropagation.EscapesAreExact | src/backend/llvm/abi_policy.cpp:152-175 | a slot escapes from a range if and only if a chain of native callers leads back to one that writes it or from which it escaped |
| AbiPolicy.CallDepth | src/backend/llvm/abi_policy.cpp:177-192 | a finished range has the depth of some chain of calls, and without call cycles a depth above every callee's |
| AbiPolicy.ComputeDepths | src/backend/llvm/abi_policy.cpp:193-194 | depths are those of real call chains, and of the longest ones when no calls go round in a circle |
| AbiPolicy.PropagateAbis | src/backend/llvm/abi_policy.cpp:48-196 | all masks, escapes, target counts and depths at once, whatever order the worklists take |
| AbiPolicy.ResultIsStable | src/backend/llvm/abi_policy.cpp:107-175 | the result is a fixed point of both worklists |
| AbiPolicy.PropagationIsIdempotent | src/backend/llvm/abi_policy.cpp:48-196 | running the propagation on its own result changes no mask |
| Dispatch.UniformRunEnd | src/backend/dispatch.c:60-88 | the longest uniform run: equal adjoining chunks and at most one shorter last one |
| Dispatch.SplitIsUniform | src/backend/dispatch.c:60-88 | a section split into equal chunks and at most one short one is a uniform run |
| Dispatch.RunIndex | src/backend/dispatch.c:117-121 | dividing the offset by the stride gives the range of the run that contains the address |
| Dispatch.CheckFindsOwner | src/backend/dispatch.c:90-124 | one emitted check finds what the ranges of its run own |
| Dispatch.EmitFunctionLookup | src/backend/dispatch.c:309-322 | for every list and every 32-bit address the emitted lookup returns the function of the first range owning the address |
| DispatchIndex.Sort | src/backend/dispatch.c:151-162 | the non-empty ranges, each as often as given, in order |
| DispatchIndex.BeforeOrders | src/backend/dispatch.c:126-134 | the order of the sort: by start, and by end where starts are equal |
| DispatchIndex.CheckSeparate | src/backend/dispatch.c:164-172 | the overlap test over neighbours decides whether any two ranges overlap |
| DispatchIndex.SameOwner | src/backend/dispatch.c:162 | sorting does not change the owner of any address |
| DispatchIndex.BuildRuns | src/backend/dispatch.c:194-198 | the runs partition the sorted list |
| DispatchIndex.BuildPages | src/backend/dispatch.c:200-209 | page_first is the first run that ends after the page begins |
| DispatchIndex.CountPerPage | src/backend/dispatch.c:211-220 | the bound is the largest count over all pages, with the page end taken modulo 2^32 |
| DispatchIndex.EmitLookupIndexed | src/backend/dispatch.c:136-307 | an index is emitted if and only if there are ranges, none overlap and the pages are few enough; its tables represent the sorted list, max_per_page being exactly the largest page count |
| DispatchIndex.FindIndexed | src/backend/dispatch.c:273-296 | the indexed lookup returns the first owner in the original list, as the linear one does, and walks over exactly the runs from the page's first that end by the address |
| DispatchIndex.WalkBoundIff | src/backend/dispatch.c:211-220 | max_per_page bounds the walk at every 32-bit address if and only if the last page does not end at the top of the address space or has no more runs than max_per_page |
| DispatchIndex.CountsMeeting | src/backend/dispatch.c:211-220 | for a page that does not end at the top, the runs counted from its first on are exactly those that share an address with it |
| DispatchIndex.WrappedPageBreaksBound | src/backend/dispatch.c:211-220 | two ranges in the last page: max_per_page is 0 and the lookup of 0xFFFFF100 walks over one run |
| Partition.AppendPatchPoints | src/app/pipeline.c:553-571 | the points become the old ones and the patch bounds, sorted without repeats |
| Partition.NextPoint | src/app/pipeline.c:732-744 | the first point after the start, or the end, with no point between |
| Partition.PatchForStart | src/app/pipeline.c:545-551 | the patch that begins at an address, or none |
| Partition.CutSection | src/app/pipeline.c:760-781 | one section, overlapping others or not, is tiled by well-cut ranges; a write falls outside the allocation if and only if it needs more ranges than are left |
| Partition.BuildRanges | src/app/pipeline.c:746-784 | for all sections, points and patches: every write falls inside the 32-bit allocation if and only if the pieces between neighbouring points, each rounded up to chunks, and the patches number at most its capacity; then every section is tiled |
| Partition.PieceCut | src/app/pipeline.c:770-775 | each range the loop cuts is one of those pieces |
| Partition.ApartFits | src/app/pipeline.c:752-755 | sections that do not overlap need no more ranges than point_count plus the section ceilings, and so fit the allocation when that sum is below 2^32 |
| Partition.OverlapOverruns | src/app/pipeline.c:752-755 | two sections of eight words at one address with every word a point: sixteen ranges against a capacity of ten |
| Partition.HoldsWordsIff | src/app/pipeline.c:760-762 | the loop runs through all words of a section if and only if they end below 2^32 or there are none |
| Partition.TopSectionIsDropped | src/app/pipeline.c:760-762 | a section that ends at 2^32 gets no range |
| Partition.PatchIsRange | src/app/pipeline.c:764-768 | a patch that starts in a section is exactly one of its ranges |
| Partition.EndsExactlyIff | src/app/pipeline.c:764-768 | the ranges of a section end where it ends if and only if no patch that starts in it crosses its end |
| Partition.LoadedPatchesStay | src/app/pipeline.c:426-437 | patches inside a section, as their loader checks, cross no end when sections do not overlap |
| Partition.CoveredOnce | src/app/pipeline.c:760-781 | an address is in some range if and only if some section holds it, and in one range only if and only if one section only holds it |
| Partition.RangeFor | src/app/pipeline.c:786-800 | the loop computes the binary search on any list of ranges, ascending or not; Partition.FindsEveryIff says when that finds the containing range |
| Partition.FindsEveryIff | src/app/pipeline.c:786-800 | the search finds every non-empty range at every address it contains if and only if the ranges ascend without overlap |
| Partition.TiledInOrderIff | src/app/pipeline.c:746-800 | the ranges cut from the sections are in that order if and only if the sections that hold words ascend, and no patch that starts in one reaches into a later one |
| Partition.DescendingIsMissed | src/app/pipeline.c:786-800 | two descending ranges that do not overlap: the search finds nothing at the start of the first |
| ProfileSeeds.CollectHot | src/app/pipeline.c:980-998 | each eligible range once with its weight, hottest first, and their total |
| ProfileSeeds.HotterOrders | src/app/pipeline.c:851-859 | more samples first, of equally many the lower index: a total order |
| ProfileSeeds.CountSeeds | src/app/pipeline.c:1000-1010 | the first count, at least one, that reaches the coverage target |
| ProfileSeeds.HottestAreMost | src/app/pipeline.c:851-859 | no choice of as many ranges has more samples than the hottest ones |
| ProfileSeeds.SeedsAreFewest | src/app/pipeline.c:1000-1010 | no smaller choice of eligible ranges reaches the target |
| ProfileClosure.Select | src/app/pipeline.c:879-889 | a range is queued once, when it is first selected |
| ProfileClosure.QueueHasRoom | src/app/pipeline.c:923-924 | the queue never holds more entries than there are ranges |
| ProfileClosure.AddNeighbours | src/app/pipeline.c:1014-1034 | exactly the ranges at most the given number of adjoining steps away are added |
| ProfileClosure.QueueSeeds | src/app/pipeline.c:1012-1035 | the selection is the neighbourhood of the seeds and everything selected is queued |
| ProfileClosure.SelectAddresses | src/app/pipeline.c:1063-1082 | exactly the ranges the search finds for one of the addresses are added, on any list of ranges |
| ProfileClosure.SelectsContainingIff | src/app/pipeline.c:861-889 | an address selects exactly the ranges that contain it, whatever the address, if and only if the ranges ascend without overlap |
| ProfileClosure.SelectMissed | src/app/pipeline.c:1039-1049 | exactly the ranges with enough misses are added |
| ProfileClosure.Close | src/app/pipeline.c:1084-1159 | on any list of ranges: a range is selected if and only if it is within the depth limit of the ranges selected before, a transfer leading to what the search finds and patched ranges being left by nothing |
| ProfileClosure.WithinIsReach | src/app/pipeline.c:1084-1159 | over ranges that ascend without overlap that is reachability by address |
| ProfileClosure.FlowTargets | src/app/pipeline.c:1100-1157 | the call closure follows direct linked branches only; the successor closure direct unlinked branches, the instructions after conditional ones, and the end of a range that runs on |
| ProfileClosure.CallIsDropped | src/app/pipeline.c:1084-1120 | on two descending ranges a call from one to the other is lost, however deep the closure |
| ProfileClosure.NothingFurther | src/app/pipeline.c:1089 | once a round adds nothing the selection is that of every greater depth |
| ProfileClosure.SelectRanges | src/app/pipeline.c:980-1161 | seeds, neighbours, and the missed, forced and patched ranges the search finds, then both closures, on any list of ranges |
| ProfileClosure.SelectProfiled | src/app/pipeline.c:912-1167 | from weights to the ranges that stay, on any list of ranges: refused if and only if no range is eligible; otherwise exactly the ranges both closures reach, through what the search finds, from the fewest hot seeds, their neighbours, and the missed, forced and patched ranges remain |
| ProfileClosure.Compact | src/app/pipeline.c:1163-1167 | the selected ranges remain, in place and in order |
| SingleDouble.FromBits | src/backend/emitter.c:529-556 | sign, exponent and fraction of the double for every single; the normalising loop terminates |
| SingleDouble.ShiftKeeps | src/cpu/cpu.c:626-629 | each shift of the normalising loop keeps the value |
| SingleDouble.ValueIsKept | src/cpu/cpu.c:613-643 | a finite single and its double denote the same real number; infinities stay infinite and NaNs NaN |
| SingleDouble.RoundTrip | src/backend/emitter.c:558-575 | converting to a double and back gives every bit again, denormals, infinities and NaNs included |
| SingleDouble.ThereAndBack | src/backend/emitter.c:529-575 | the two conversions run one after the other give back every pattern |

## Left out

- LLVM IR construction, passes and services: they depend on the LLVM API.
- What the fallback runs, to which OE forms and embedded data words lower.
- LowerChunk.LowerIntegerOp: the trap instructions, which lower to a conditional helper call for the program exception (src/ir/dolir_builder.c:379-391).
- LowerChunk.BuildBlock: the same trap instructions, and the memory and floating-point instructions.
- LowerChunk.LowerStateOp: SPRs other than XER, LR and CTR, and the supervisor checks.
- LowerRegister.LowerFromSpr: the same SPRs and checks.
- LowerRegister.LowerToSpr: the same SPRs and checks.
- RegisterCorrect.FromSprAgrees: XER, LR and CTR only, as in the lowering.
- RegisterCorrect.ToSprAgrees: XER, LR and CTR only, as in the lowering.
- Memory, paired-single and floating-point lowering, halfword byte-reverse, and the estimate and rounding helpers.
- Writing the guest PC before helpers and at exits; which instructions write it is modelled.
- `dolir_effects.c`: the use and def masks are inputs of the analyses. `dcbz_l` changes HID2 without a def mark, so it is outside the helper hypothesis.
- `smc.c`: a heuristic without a soundness claim.
- Symbols, module ABI tables, caches, stamps, worker queues and all file and console output; emitted text is modelled by what it computes.
- Parsing of profiles, patches and entry points; a profile is its weights, a decoded range its branch words.
- Overflow of 64-bit sample sums, and of downcount below the range of a signed 64-bit word.
- NativeState.Host.CommitRegisters: the host callback try_write_registers; either path writes the same registers.
- NativeReload.Reload: the host callback try_read_registers; either path reads the same registers.
- Weak-memory effects beyond sequential consistency, and concurrent resets.
- NativeRun.Run: exits that report instructions but no cycles may chain without end, so the loop is modelled over a finite script.
- NativeRun.NextRange: whether the next range validates is part of the script; `NativeValidation` says what a positive answer means.
- FunctionAbi.AnalyzeFunctionAbi: ABI flags, blockers, access counters and helper classification, which are switches over opcodes.
- ABI compactness policy and statistics: bit counting over the masks proved here.
- AbiPolicy.ComputeDepths: with call cycles the depth depends on the visiting order, and only that some chain has it is stated.
- AbiPolicy.CallDepth: the same for one range.
- ProfileSeeds.CountSeeds: the coverage test is over exact reals; the source multiplies in long double, whose rounding may move a count that lies on the target.
- ProfileSeeds.SeedsAreFewest: the same exact coverage test.
- Partition.BuildRanges: a failed allocation, and an allocation of size zero.
