# Verified model of a CUDA assembler's control-code and encoder cores

A Dafny model of the parts of the assembler that compute rather than move data, with proofs of what
they promise. `dafny verify dfyconfig.toml` checks everything.

**Scoreboard control codes.** Kernels are decoded instructions with register accesses, a latency class
and a control code. `ControlFlow` resolves branches, `HazardGraph` runs the forward dataflow and is
proved to find exactly the hazards of a path definition, and `Reordering` shows what the graph is for:
orders that keep its edges compute the same registers. `Scoreboard` simulates six slot queues;
`ScoreboardMachine` is a nondeterministic machine with in-order issue and out-of-order completion
against which the simulation is exact. `BarrierIntervals`, `SlotAssignment`, `Correction` and
`Corrector` are the repair pass: intervals, share groups, first-fit slots, new codes.
`CorrectionProperties` has the results over whole kernels and runs: safety of every machine run, queue
bounds, idempotence, and what correction never takes away. `ControlCode`, `ControlCodeText`, `Bytes`,
`InstructionPacking` and `CubinPatching` carry the codes down to bits, text, bytes and a patched image, and
`CorrectedCubins` closes the circle: every kernel of a corrected image passes verification.

**The learned instruction encoder.** `LinearAlgebra`, `RowReduction`, `InPlaceReduction`,
`LinearSystems`, `NullSpaces`, `Rationals`, `RationalReduction` and `RationalMatrix` are exact
Gauss-Jordan elimination, linear systems and null spaces. `InsSamples` states what a push does to an
encoder and proves the invariants of all runs; `InsTraining` computes weights and null-space matrix;
`InsAssembler` is the class itself, with `OrderedMap` holding the modifier columns.

**Around them.** `InsFeeder` is the disassembly line machine, `ElfLayout` places sections and writes
the file. The repository format is printed and parsed by `ReposLexer`, `ReposNumbers`,
`ReposTokenizer`, `ReposParser`, `ReposMatrices`, `ReposStates`, `ReposFile`, `ReposFaithful`,
`ReposPrinter` and `ReposRoundTrip`, which ends in the round trip of whole repositories and of every
repository of learned encoders.

## Conventions

- 32- and 64-bit words are naturals with explicit remainders; masks and shifts are divisions and
  remainders by powers of two.
- The arbitrary-precision rationals of the encoder are reals, with a predicate that picks out the
  rationals wherever denominators matter.
- Exceptions are `Result` values. Loops that mutate arrays or fields are methods over arrays and
  classes; each is proved against a function or predicate whose properties are the lemmas.
- Every parser method takes, as ghost arguments, the value it should find and the tokens behind it:
  a token function `XToks(x, k)` is the printed form of `x` before the tokens `k`.

## Where the code does less than its comments or formats suggest

- `ControlCodeText.TextOfCode`: the text pattern admits two-digit stall counts up to 99 and trailing
  characters, but only texts that end behind a stall count of at most 15 survive encoding.
- `ControlCodeText.CodeOfText`: a scoreboard field of 6 is printed but rejected when read.
- `InstructionPacking.MergeOfSplitBytes5x6x`: bit 63 of an sm_5x/6x control word is lost.
- `InsAssembler.CuInsAssembler.Push`: a first sample without modifiers ends in a shape error.
- `ReposLexer.PlainRoundTrip`: assembly text is saved without escapes, so quotes and backslashes do not
  survive.
- `ReposRoundTrip.CommentSkippedIff`: text behind a line end in a modifier is read unless it is blank or
  itself a comment. `ReposRoundTrip.LoadStray` has a modifier that adds a row to the loaded solution.
- `CorrectionProperties.CorrectionIsIdempotent`: a margin of 2^32 - 1 wraps around when the stall count of its
  producer is raised, so that a second correction adds a barrier.
- `ReposFile.ParseReposFile`: a repository saved without an architecture cannot be loaded.
- `ElfLayout.LayoutSections`: padding a memory-only section named like text moves the file offset past what
  is written; `ElfLayout.MemoryTextDrifts` is an example.
- `ReposMatrices.ParseMatrix`: matrices without entries lose their dimensions.

## Model

| member | source | states |
|---|---|---|
| ControlCode.SplitOfMerge | CuAsm/CuControlCode.cpp:48-73 | fields within their widths survive merge then split, and take 17 bits |
| ControlCode.MergeOfSplit | CuAsm/CuControlCode.cpp:48-73 | split then merge keeps exactly the low 17 bits of any 32-bit code, in which stall count, yield bit, write and read scoreboard and wait mask stand at bits 0, 4, 5, 8 and 11 |
| ControlCode.MaskWeights | CuAsm/CuControlCode.cpp:38-46 | the wait mask is the sum of 2^s over the slots s that are waited on; there are six |
| ControlCode.GetBarrierSet | CuAsm/CuControlCode.cpp:38-46 | the wait set is exactly the slots below six whose mask bit is set |
| ControlCodeText.Decode | CuAsm/CuControlCode.cpp:75-93 | the loop prints the fields of the code |
| ControlCodeText.Encode | CuAsm/CuControlCode.cpp:95-121 | the loop reads the code of a text, or rejects it |
| ControlCodeText.CodeOfText | CuAsm/CuControlCode.cpp:75-121 | encode after decode gives the low 17 bits of every code, and is rejected exactly if a scoreboard field is 6 |
| ControlCodeText.PaddingText | CuAsm/CuSMVersion.cpp:72-74 | the padding code 0x7e0 is printed as B------:R-:W-:Y:S00 |
| ControlCodeText.TextOfCode | CuAsm/CuControlCode.cpp:75-121 | decode after encode gives back an accepted text if and only if it has no trailing characters and its stall count is at most 15; a larger one spills into the other fields |
| DecodedInstructions.RegisterAccessesOf | bin/ccCommon.hpp:510-548 | one entry per register; it reads (writes) exactly if the low three bits of the first value, or operand k by its role and value k + 1, name the register as read (written), constant registers excluded |
| DecodedInstructions.AccessMeaning | bin/ccCommon.hpp:510-548 | the accesses the hazards are defined by are those that roles and values name |
| ControlFlow.AddressIndexFindsFirst | bin/ccCommon.hpp:410-434 | every instruction address resolves to the first index that carries it |
| ControlFlow.ComputeControlFlowSuccessors | bin/ccCommon.hpp:407-497 | either the successor lists of all instructions, or the error of the first branch that cannot be resolved |
| ControlFlow.BranchSuccessors | bin/ccCommon.hpp:453-485 | a direct branch goes to the first instruction at its last value, counted from the next instruction unless it is absolute, and to the next instruction; guard values of 7 and 15 modulo 16 leave only one of the two; fails exactly if no instruction is there |
| ControlFlow.ExitSuccessors | bin/ccCommon.hpp:446-451 | an exit or return is followed by the next instruction unless its guard is 7 modulo 16 |
| ControlFlow.UnknownSuccessors | bin/ccCommon.hpp:453-461 | every branch that is not direct is an error |
| ControlFlow.PlainSuccessors | bin/ccCommon.hpp:487-489 | all other opcodes, calls included, fall through |
| ControlFlow.NoTransfersIsStraightLine | bin/ccCommon.hpp:435-497 | without exits and branches the kernel resolves to the straight line |
| HazardGraph.LiveOutEquation | bin/ccCommon.hpp:654-707 | the dataflow equation: an access is live after an instruction if it starts there, or entered it alive and nothing overwrites it |
| HazardGraph.BuildHazardGraph | bin/ccCommon.hpp:622-710 | the edges are exactly the hazards of the path definition (an index-increasing control-flow path without interior writer), both directions; fails exactly if the control flow does not resolve |
| HazardGraph.ReachingAccesses | bin/ccCommon.hpp:648-707 | one index-ascending pass computes exactly the writers and pure readers live before every instruction |
| HazardGraph.HazardForward | bin/ccCommon.hpp:598-616 | every hazard edge points to a larger index |
| Reordering.ConflictsAreConnected | bin/ccCommon.hpp:572-576 | two conflicting instructions joined by a forward path are joined by a chain of hazard edges |
| Reordering.ReorderingPreservesRegisters | bin/ccCommon.hpp:572-576 | any reordering of straight-line register-only code that keeps the order of every hazard edge computes the same registers, for every instruction semantics |
| Scoreboard.PendingMeaning | bin/ccCommon.hpp:794-878 | a slot queue holds exactly the claimants of the slot that no later instruction waited for |
| Scoreboard.SimulateAndVerify | bin/ccCommon.hpp:794-878 | a RAW or WAW (WAR) edge of a producer with an open write (read) scoreboard is reported exactly if no instruction up to the consumer waits on that slot, any other edge exactly if it is adjacent with a zero stall; each with its reason |
| Scoreboard.ViolationMeaning | bin/ccCommon.hpp:826-862 | so are the violations that verification and correction speak of |
| ScoreboardMachine.SimulationIsExact | bin/ccCommon.hpp:794-878 | a barrier-protected edge is reported if and only if some run of a nondeterministic scoreboard machine issues the consumer while the producer is outstanding |
| ScoreboardMachine.OvertakenIffNotRetired | bin/ccCommon.hpp:794-878 | an instruction can be overtaken exactly if nothing up to the consumer waits on its slot |
| ScoreboardMachine.NeverStuck | bin/ccCommon.hpp:794-878 | from every reachable machine state the next instruction can still issue |
| Corrector.VerifyControlCodes | bin/ccCommon.hpp:1054-1070 | verified exactly if every hazard of the path definition is closed by the current control codes; otherwise it reports exactly the complaints about them, or the error of the first branch that cannot be resolved |
| BarrierIntervals.CollectBarrierIntervals | bin/ccCommon.hpp:1303-1351 | sorted by producer, the producers with a hazard of the kind their barrier waits for, up to the nearest one, whose scoreboard is open in the input or whose distance and stall count, in 32 bits, fall short of the table |
| BarrierIntervals.IntervalMeaning | bin/ccCommon.hpp:1303-1351 | so are the intervals that plans are made of |
| BarrierIntervals.IntervalsUnique | bin/ccCommon.hpp:1303-1351 | there is only one such list |
| BarrierIntervals.ComputeShareGroups | bin/ccCommon.hpp:1394-1411 | a change of key or direction starts a new group, and along a run of one key and direction every third interval does |
| BarrierIntervals.RunGroups | bin/ccCommon.hpp:1394-1411 | the i-th interval of a run stands in its (i / 3)-th group |
| BarrierIntervals.GroupMembers | bin/ccCommon.hpp:1394-1411 | members of a share group are consecutive, of one key and direction, and at most three |
| SlotAssignment.SequentialColoring | bin/ccCommon.hpp:1476-1495 | the loop computes the first-fit colouring: proper, and every smaller colour is taken by an earlier neighbour |
| SlotAssignment.FirstFitUnique | bin/ccCommon.hpp:1476-1495 | there is only one first-fit colouring |
| SlotAssignment.AssignBarrierSlots | bin/ccCommon.hpp:1455-1507 | slots are the first-fit colours; fails exactly if they exceed six |
| SlotAssignment.SlotsWithinMaxLive | bin/ccCommon.hpp:1455-1475 | first-fit never uses more slots than intervals are in flight together, whatever may be shared |
| SlotAssignment.ExactWithoutSharing | bin/ccCommon.hpp:1455-1475 | without sharing it uses exactly the maximum number in flight |
| SlotAssignment.ColorWithinOthers | bin/ccCommon.hpp:1476-1495 | only intervals of other groups in flight keep an interval from the lower slots |
| SlotAssignment.SlotIsGroup | bin/ccCommon.hpp:1476-1507 | where all intervals are in flight together, every group has exactly one slot |
| SlotAssignment.ThreeShareOneSlot | bin/ccCommon.hpp:1394-1507 | n producers of one key and direction in flight together take n / 3 slots, rounded up |
| SlotAssignment.SharingNeverHurts | bin/ccCommon.hpp:1455-1475 | sharing never uses more slots than not sharing |
| CorrectionProperties.SixInFlightSuffice | bin/ccCommon.hpp:1455-1507 | with at most six intervals in flight at any moment a correction is always found |
| Correction.MaskMeaning | bin/ccCommon.hpp:1566-1590 | an instruction waits on a slot exactly if some interval with that slot ends there |
| Correction.BarMeaning | bin/ccCommon.hpp:1566-1590 | the scoreboard field of a producer is the slot of its interval |
| Correction.CorrectionClosesEverything | bin/ccCommon.hpp:1610-1645 | once slots are assigned, the recomputed codes close every hazard edge and leave no violation: the self-check cannot fail |
| Corrector.CorrectControlCodes | bin/ccCommon.hpp:1560-1645 | corrected exactly if the first-fit colouring fits six slots, with the codes the plan calls for; otherwise, or on a control-flow error, the codes stay; overflow and self-check exits are dead |
| CorrectionProperties.CorrectedRunsAreSafe | bin/ccCommon.hpp:1576-1625 | no run of the scoreboard machine on corrected codes issues a protected consumer while its producer is outstanding |
| CorrectionProperties.CorrectedQueues | bin/ccCommon.hpp:1394-1411 | in corrected code every slot queue holds at most three producers, all of one key and latency class, none of which has reached its first consumer |
| CorrectionProperties.CorrectionIsIdempotent | bin/ccCommon.hpp:1566-1625 | correcting corrected codes chooses the same plan, and then the same codes, if and only if no margin wraps around, which the raised stall count of an unprotected producer could make it do |
| CorrectionProperties.MarginAfter | bin/ccCommon.hpp:1323-1350 | after correction the margin of a producer without an interval is too small exactly if it was the largest 32-bit number and the stall count was raised |
| CorrectionProperties.SmallKernelsDoNotWrap | bin/ccCommon.hpp:1323-1350 | no margin wraps in kernels of at most 2^32 instructions |
| CorrectionProperties.CorrectionIsConservative | bin/ccCommon.hpp:1592-1625 | stalls never drop and rise only from 0 to 1, yield stays, and a producer with an eligible consumer whose barrier was open keeps one |
| CorrectionProperties.PlanUnique | bin/ccCommon.hpp:1560-1645 | a kernel has only one correction plan |
| CorrectionProperties.GraphSame | bin/ccCommon.hpp:622-710 | the hazard graph does not depend on control codes |
| InstructionPacking.MergeOfSplit7x8x | CuAsm/CuSMVersion.cpp:190-205 | sm_7x/8x: merging what was split gives back the same bytes |
| InstructionPacking.MergedWordAt7x8x | CuAsm/CuSMVersion.cpp:190-205 | for any codes, in range or not, word i is the instruction code plus the control code at bit 105, modulo 2^128 |
| InstructionPacking.SplitOfMerge7x8x | CuAsm/CuSMVersion.cpp:536-551 | sm_7x/8x: splitting what was merged gives back both lists |
| InstructionPacking.SplitCtrlCode7x8x | CuAsm/CuSMVersion.cpp:468-491 | splitting a byte stream of 16-byte instructions; fails exactly on a length that is no multiple of 16 |
| InstructionPacking.SplitIntList5x6x | CuAsm/CuSMVersion.cpp:500-533 | splitting groups of four words: instruction i has the 17 bits at bit 0, 21 or 42 of the control word of its group, and the four bits above them at bit 81 of its code |
| InstructionPacking.SplitMeaning | CuAsm/CuSMVersion.cpp:500-533 | so has what splitting any words computes |
| InstructionPacking.MergeCtrlCodes5x6x | CuAsm/CuSMVersion.cpp:146-188 | the merged stream is the padded triples; fails exactly on lists of different length |
| InstructionPacking.MergeCtrlCodes7x8x | CuAsm/CuSMVersion.cpp:190-205 | the merged stream of sm_7x/8x; fails exactly on lists of different length |
| InstructionPacking.MergeOfSplitBytes5x6x | CuAsm/CuSMVersion.cpp:146-188 | sm_5x/6x: a byte stream survives split and merge if and only if no control word has bit 63 set |
| InstructionPacking.SplitCtrlCode5x6x | CuAsm/CuSMVersion.cpp:468-491 | splitting a byte stream of 32-byte groups; fails exactly on a length that is no multiple of 32 |
| InstructionPacking.SplitOfMerge5x6x | CuAsm/CuSMVersion.cpp:500-533 | sm_5x/6x: splitting the merged bytes of any instructions returns them plus NOP padding up to a multiple of three |
| InstructionPacking.ControlWordAt | CuAsm/CuSMVersion.cpp:146-188 | in the merged bytes of any instructions, the control word of group q, at byte 32 q, holds their control codes at bits 0, 21 and 42 and their reuse bits above them; padding holds 0x7e0 |
| InstructionPacking.ControlWordSum | CuAsm/CuSMVersion.cpp:133-188 | for any codes, in range or not, the control word of group q is the sum of control codes and high words at bits 0, 21 and 42, modulo 2^64 |
| InstructionPacking.OffsetRoundTrip | CuAsm/CuSMVersion.cpp:407-423 | the index of the offset of instruction i is i, and control words have no index |
| InstructionPacking.WordAtOffset | CuAsm/CuSMVersion.cpp:407-412 | in the merged bytes of any instructions, the eight bytes at the offset of instruction i are its low word |
| CubinPatching.LoadControlCodes | bin/ccCommon.hpp:212-235 | every text section is split; fails exactly if some section has a bad length |
| CubinPatching.CorrectCubinControlCodes | include/CuAsmTools/CorrectCC.hpp:88-127 | for disjoint sections: statuses of all kernels, patched sections for corrected ones, no other byte changed, output written exactly if all kernels could be repaired |
| CubinPatching.PatchChangesOnlyControlBits | include/CuAsmTools/CorrectCC.hpp:103-116 | a patched instruction keeps bytes 0-12, bit 0 of byte 13 and bits 2-7 of byte 15 |
| CubinPatching.OnlySeventeenBits | CuAsm/CuSMVersion.cpp:190-205 | two instruction words that agree outside the control bits differ in 17 bits of bytes 13-15 at most |
| CorrectedCubins.CorrectedAllClosed | bin/ccCommon.hpp:1054-1070 | a corrected kernel has all hazards of its own path definition closed |
| CorrectedCubins.VerifyPatched | bin/ccCommon.hpp:1054-1070 | verifying a kernel with the control codes that its patched section holds answers Verified |
| CorrectedCubins.CorrectThenVerify | include/CuAsmTools/CorrectCC.hpp:88-127 | every kernel of an image that correction writes passes verification |
| RowReduction.RrefCorrect | CuAsm/utils/RationalMatrix.hpp:232-275 | the result is in reduced row echelon form and is reached by row operations |
| LinearAlgebra.ReducesKeeps | CuAsm/utils/RationalMatrix.hpp:232-275 | row operations keep the solution set and the independence of the rows |
| InPlaceReduction.RrefInPlace | CuAsm/utils/RationalMatrix.hpp:232-275 | the in-place loop computes exactly that form and its pivot columns |
| RationalMatrix.Solve | CuAsm/utils/RationalMatrix.hpp:153-184 | a solution of every right-hand side, or failure exactly if some right-hand side has none |
| RationalMatrix.Nullspace | CuAsm/utils/RationalMatrix.hpp:191-224 | independent vectors that span exactly the vectors the matrix sends to zero |
| RationalMatrix.VStack | CuAsm/utils/RationalMatrix.hpp:52-73 | stacking, with an empty matrix as neutral element and an error on different widths |
| RationalMatrix.DotOf | CuAsm/utils/RationalMatrix.hpp:136-145 | the dot product of two columns, or a shape error |
| RationalMatrix.Multiply | CuAsm/utils/RationalMatrix.hpp:116-134 | the matrix product, or a shape error |
| RationalMatrix.MatrixDenomLcm | CuAsm/utils/RationalMatrix.hpp:288-300 | the least common multiple of all denominators: it clears them and divides every number that does |
| RationalMatrix.ScaleToIntegerMatrix | CuAsm/utils/RationalMatrix.hpp:303-318 | an integer matrix that is the input times that factor |
| RationalMatrix.NullSpaceMatrixOf | CuAsm/utils/RationalMatrix.hpp:321-335 | integer rows that are a basis of the null space; the unset matrix if it is trivial |
| NullSpaces.NullMatrixDecides | CuAsm/CuInsAssembler.cpp:258-281 | a vector vanishes under the null-space matrix exactly if its value is determined by the rows |
| NullSpaces.StackedPivots | CuAsm/CuInsAssembler.cpp:370-399 | null-space rows over independent sample rows make a square system with a pivot in every column |
| NullSpaces.StackedUnique | CuAsm/CuInsAssembler.cpp:370-399 | at most one vector fits the sample rows and vanishes on their null space |
| OrderedMaps.OrderedMap.InsertOrAssign | CuAsm/utils/OrderedMap.hpp:81-92 | overwrites in place or appends |
| OrderedMaps.OrderedMap.Emplace | CuAsm/utils/OrderedMap.hpp:100-112 | appends only a new key, and says so |
| OrderedMaps.OrderedMap.Erase | CuAsm/utils/OrderedMap.hpp:115-131 | removes one entry, keeps the order of the others, and keeps the index right |
| OrderedMaps.OrderedMap.Find | CuAsm/utils/OrderedMap.hpp:41-51 | finds the entry of a key exactly if it is present |
| InsSamples.RunConsistent | CuAsm/CuInsAssembler.cpp:283-399 | over every run of pushes the sample rows stay linearly independent |
| InsSamples.RunReproduces | CuAsm/CuInsAssembler.cpp:283-399 | over every run, a sample answered NewModi, NewVals or Verified is reproduced in every later state, also after new modifier columns |
| InsSamples.ConsistentExplained | CuAsm/CuInsAssembler.cpp:370-399 | in every reachable state some weight vector explains all samples |
| InsSamples.ForcedMeansOneValue | CuAsm/CuInsAssembler.cpp:258-281 | an instruction is forced exactly if all weight vectors that fit the samples give it one value |
| InsTraining.Train | CuAsm/CuInsAssembler.cpp:370-399 | computes null-space matrix and weights of a consistent encoder; the inconsistent-system exit is never reached, and the weights are the one explanation orthogonal to the null space, scaled by the least factor that makes them integers |
| InsTraining.VanishesIffForced | CuAsm/CuInsAssembler.cpp:258-281 | an instruction vector vanishes under the null-space matrix exactly if the samples force its value |
| InsTraining.WeightedValue | CuAsm/CuInsAssembler.cpp:349-368 | weights divided by their factor give the explained value |
| InsAssembler.FloorDiv | CuAsm/CuInsAssembler.cpp:173-182 | floor of an exact rational, from truncating division |
| InsAssembler.CuInsAssembler.ExpandModiSet | CuAsm/CuInsAssembler.cpp:230-238 | appends the unseen modifiers in order; reports whether there were any |
| InsAssembler.CuInsAssembler.BuildInsValVec | CuAsm/CuInsAssembler.cpp:240-252 | one flag per modifier column, then the values |
| InsAssembler.CuInsAssembler.BuildMatrix | CuAsm/CuInsAssembler.cpp:370-399 | matrices, weights and null-space matrix of all samples |
| InsAssembler.CuInsAssembler.CanAssemble | CuAsm/CuInsAssembler.cpp:258-281 | accepts exactly the instructions with known modifiers whose value all fitting weight vectors agree on, and names what is missing otherwise |
| InsAssembler.CuInsAssembler.RecordConflict | CuAsm/CuInsAssembler.cpp:310-345 | a conflict is recorded under the difference to the predicted code, or under the code itself where the prediction is no integer |
| InsAssembler.CuInsAssembler.Push | CuAsm/CuInsAssembler.cpp:283-347 | one step of the encoder; every accepted sample stays reproduced; the error, record and conflict bookkeeping; a first sample without modifiers fails |
| InsAssembler.CuInsAssembler.BuildCode | CuAsm/CuInsAssembler.cpp:349-368 | the floor of the value; for duplicate-free modifiers the forced value, and the recorded code of every sample ever accepted |
| InsFeeder.GroupsAreExactly | CuAsm/CuInsFeeder.cpp:218-279 | a line sequence leaves Ready and first returns to it exactly if it is a control word and three instructions, dual-issued or not; then 4 code words, 3 addresses and 3 texts are pushed |
| InsFeeder.CuInsFeeder.FeedSm5x6x | CuAsm/CuInsFeeder.cpp:218-279 | one line: the state machine step, or an error that changes nothing; exactly which lines are accepted, and the name they set |
| InsFeeder.CuInsFeeder.FeedSm7x8x | CuAsm/CuInsFeeder.cpp:281-302 | an instruction line and the line with its high word; exactly which other lines are accepted, and the name they set |
| InsFeeder.GroupSplit | CuAsm/CuInsFeeder.cpp:317-360 | splitting the words of a group gives every instruction the control and reuse bits at its place in the control word |
| InsFeeder.CuInsFeeder.IterPopIns5x6x | CuAsm/CuInsFeeder.cpp:317-360 | a complete group yields exactly three records, every text with its own address, code and control field |
| InsFeeder.CuInsFeeder.IterPopIns7x8x | CuAsm/CuInsFeeder.cpp:317-360 | one record for every two code words, in order |
| InsFeeder.CuInsFeeder.SwitchArch | CuAsm/CuInsFeeder.cpp:146-161 | the sm_5x/6x machine for versions below 70, the sm_7x/8x machine for the others; fails exactly for text that names none |
| SMVersion.ValidateVersionString | CuAsm/CuSMVersion.cpp:26-51 | accepts exactly the digits of a supported version, by themselves or behind SM or SM_ in any case |
| SMVersion.SupportedTexts | CuAsm/CuSMVersion.cpp:26-51 | exactly nine versions are accepted, by their digits behind nothing, SM or SM_ in upper or lower case |
| ElfLayout.AlignTo | CuAsm/common.cpp:259-266 | the least multiple of the alignment not below the position, and the distance; 0 and 1 align nothing |
| ElfLayout.CuAsmSection.EmitBytes | CuAsm/CuAsmParser.cpp:370-560 | overwrites or extends the buffer at the current position |
| ElfLayout.CuAsmSection.UpdateForFixup | CuAsm/CuAsmParser.cpp:370-560 | replaces bytes inside the buffer and restores the position; fails exactly outside of it |
| ElfLayout.CuAsmSection.EmitAlign | CuAsm/CuAsmParser.cpp:370-560 | pads with zeros up to the alignment; at position 0 sets the section alignment instead |
| ElfLayout.UpdateSectionPadding | CuAsm/CuAsmParser.cpp:2045-2107 | fails exactly if text would need a broken NOP; the file grows by what the file offset moves if and only if the section is not memory-only text off its alignment; text is padded with whole NOPs, other sections with zeros |
| ElfLayout.StartMeaning | CuAsm/CuAsmParser.cpp:1498-1527 | behind other file bytes a section starts at the first multiple of its alignment, behind text at the first multiple of the larger of the alignment of the text and 128, or of its own alignment if it is memory-only, behind other memory-only bytes where those start |
| ElfLayout.PlaceSections | CuAsm/CuAsmParser.cpp:1482-1534 | every section gets the offset that the input sections determine; fails exactly if text in front of another section needs a broken NOP |
| ElfLayout.LayoutSections | CuAsm/CuAsmParser.cpp:1482-1602 | for every section list with an empty null section: succeeds exactly if text can be padded with whole NOPs; then the first section lies at 64, every other one at the first aligned offset behind its neighbour, section headers at a multiple of 8, and offsets, section header table and program headers agree with the written sizes if and only if every memory-only text section with a successor starts at an offset that needs no padding |
| ElfLayout.DriftIffUnaligned | CuAsm/CuAsmParser.cpp:2067-2107 | layout and writer drift apart exactly at memory-only text off its alignment |
| ElfLayout.MemoryTextDrifts | CuAsm/CuAsmParser.cpp:1482-1602 | a section list on which they do, by 64 bytes |
| ElfLayout.FileTextAligned | CuAsm/CuAsmParser.cpp:1482-1602 | with bytes in the file for all text they never do |
| ElfLayout.NoTextFits | CuAsm/CuAsmParser.cpp:2045-2064 | without text sections the layout always succeeds |
| ElfLayout.SaveAsCubin | CuAsm/CuAsmParser.cpp:2158-2193 | in the written file every section with file bytes lies at its offset, every section header at e_shoff and every program header at e_phoff |
| ReposLexer.LexRenders | CuAsm/CuInsAssemblerRepos.cpp:65-157 | whatever white space and comments stand between them, printed tokens are read back |
| ReposLexer.ReadEscaped | CuAsm/common.cpp:429-439 | quoted strings are read back for all strings |
| ReposLexer.PlainNotEscaped | CuAsm/common.cpp:429-439 | nothing but quotes and backslashes is escaped |
| ReposLexer.PlainRoundTrip | CuAsm/CuInsAssembler.cpp:546-557 | text printed in double quotes is read back if and only if it has neither quotes nor backslashes |
| ReposLexer.InvisibleIffBlank | CuAsm/CuInsAssemblerRepos.cpp:103-116 | whole lines leave the tokens of every text behind them alone if and only if they are white space and comments |
| ReposRoundTrip.CommentSkippedIff | CuAsm/CuInsAssembler.cpp:486-506 | the comment behind a solution entry is skipped if and only if the text behind a first line end in it is blank |
| ReposRoundTrip.InLineNamesSkipped | CuAsm/CuInsAssembler.cpp:486-506 | so the comments of modifiers without line ends are skipped |
| ReposRoundTrip.LoadStray | CuAsm/CuInsAssembler.cpp:458-510 | a state whose only modifier holds a line end and the text of a row: its saved text loads with one more row of the solution |
| ReposNumbers.DecRoundTrip | CuAsm/CuInsAssemblerRepos.cpp:159-163 | decimal numbers are read back |
| ReposNumbers.HexRoundTrip | CuAsm/CuInsAssemblerRepos.cpp:159-163 | hexadecimal numbers of any width and sign are read back |
| ReposNumbers.DigitText | CuAsm/CuInsAssembler.cpp:40-64 | hexadecimal digits are printed in lower case |
| ReposTokenizer.Tokenizer.Advance | CuAsm/CuInsAssemblerRepos.cpp:65-157 | reads exactly the next token, or fails at unreadable text |
| ReposTokenizer.Tokenizer.TakeInt | CuAsm/CuInsAssemblerRepos.cpp:43-64 | takes an expected number |
| ReposParser.ParseStrList | CuAsm/CuInsAssemblerRepos.cpp:175-186 | inverts the printed list of strings |
| ReposParser.ParseIntList | CuAsm/CuInsAssemblerRepos.cpp:188-199 | inverts the printed list of numbers |
| ReposParser.ParseInsReposList | CuAsm/CuInsAssemblerRepos.cpp:201-219 | inverts the printed samples |
| ReposParser.SortOfAscending | CuAsm/CuInsAssemblerRepos.cpp:234-238 | sorting keeps columns that are in index order |
| ReposParser.ParseModiSetDict | CuAsm/CuInsAssemblerRepos.cpp:221-244 | inverts the printed modifier columns |
| ReposMatrices.CellValue | CuAsm/CuInsAssemblerRepos.cpp:165-173 | numerator over least denominator is the printed rational |
| ReposMatrices.ParseMatrix | CuAsm/CuInsAssemblerRepos.cpp:246-285 | inverts every printed matrix of rationals; one without entries comes back as the unset matrix |
| ReposStates.ParseInsInfoList | CuAsm/CuInsAssemblerRepos.cpp:298-316 | inverts the printed records |
| ReposStates.ParseErrRecordsDict | CuAsm/CuInsAssemblerRepos.cpp:318-338 | inverts the printed error records |
| ReposStates.ParseField | CuAsm/CuInsAssemblerRepos.cpp:369-400 | reads the value of a field by its name |
| ReposFaithful.ShownIffFaithful | CuAsm/CuInsAssembler.cpp:458-510 | exactly the states whose matrices are unset or have entries, and whose solution is one integer per column, are read back unchanged |
| ReposFile.ParseCuInsAssembler | CuAsm/CuInsAssemblerRepos.cpp:340-419 | reads an encoder with any fields in any order, the last of a name winning, if the architecture is among them |
| ReposFile.ParseReposFile | CuAsm/CuInsAssemblerRepos.cpp:421-455 | for any text that prints a repository: loading succeeds exactly if an architecture was saved, and gives every encoder the state that its fields set |
| ReposPrinter.MatrixPrints | CuAsm/CuInsAssembler.cpp:66-170 | aligned decimal and hexadecimal matrix texts are printed forms of the matrix tokens |
| ReposPrinter.CellsAlign | CuAsm/CuInsAssembler.cpp:66-170 | the cells of a column end below each other |
| ReposPrinter.WidestCell | CuAsm/CuInsAssembler.cpp:66-170 | and the widest one is not padded |
| ReposStates.InfoWidths | CuAsm/CuInsAssembler.cpp:546-557 | saved addresses have at least 6 hexadecimal digits, codes at least 22, or 32 from sm_70 on |
| ReposRoundTrip.SolutionPrints | CuAsm/CuInsAssembler.cpp:458-510 | so is the commented solution text, if its comments are skipped |
| ReposRoundTrip.StatePrints | CuAsm/CuInsAssembler.cpp:512-563 | so is the text of an encoder, with the solution as it is read |
| ReposRoundTrip.ReposPrints | CuAsm/CuInsAssemblerRepos.cpp:922-943 | so is the text of a repository |
| ReposRoundTrip.LoadText | CuAsm/CuInsAssemblerRepos.cpp:922-943 | loading the saved text gives the saved states with the solutions as they are read |
| ReposRoundTrip.LoadSaved | CuAsm/CuInsAssemblerRepos.cpp:922-943 | with plain assembly text and skipped comments, loading the saved text returns the same repository if and only if it has an architecture and every encoder is faithful |
| ReposRoundTrip.LearnedIsFaithful | CuAsm/CuInsAssembler.cpp:512-563 | every state an encoder reaches by pushing samples is faithful |
| ReposRoundTrip.LoadLearned | CuAsm/CuInsAssemblerRepos.cpp:922-943 | a repository of encoders that learned by pushing samples, with plain assembly text and skipped comments, is loaded as it was saved |

## Left out

- ReposRoundTrip.LoadSaved: assumes assembly text without quotes and backslashes (`ReposLexer.PlainRoundTrip`), skipped comments (`ReposRoundTrip.CommentSkippedIff`), codes that are not negative and 64-bit addresses. Modifiers are text that may imitate any part of the file, so there are others whose stray text happens to be read as what was saved.
- ElfLayout.LayoutSections: memory offsets, segments and size labels are not part of it.
- ElfLayout.SaveAsCubin: headers are byte blocks of their fixed size whose fields are not modelled, and the rewriting of descriptor bits after the file is closed is left out.
- RationalMatrix.MatrixDenomLcm: denominators and least common multiples, which the arbitrary-precision library provides, are found by search.
- RationalMatrix.NullSpaceMatrixOf: the joined and transposed basis columns are kept as rows throughout.
- InsAssembler.CuInsAssembler.BuildCode: needs at least one sample; every instance of a key has the same number of values; modifiers that are repeated are counted as often as they occur, while sample vectors flag them once.
- InsFeeder.CuInsFeeder.FeedSm5x6x: lines come classified; the default and sm_3x machines, filters and address rewriting of `next` are not modelled.
- Saved text is modelled as functions from values to text; the string streams it is collected in are not.
- The wording of the comments in saved solutions: only whether they are skipped matters.
- Spacing margins of instruction pairs (bin/ccCommon.hpp:1143-1250) are any table; latency classes and operand roles are any data of the stated shape.
- Violations and edges are sets: their order in reports, and the texts of error messages, are not modelled.
- Branch targets, section offsets and column indices are unbounded: overflow of 64-bit addresses and of `int` conversions is not modelled.
- Loop-carried hazards, waits inside one leg of a branch, and exact cycle latencies: the simulation does not consider them either.
- Optimality of the colouring when slots are shared: the code does not claim it.
- The NVInfo codec, fixups, symbol tables, the sass and cuasm text parsers, float immediates, key suggestions, solution printing to the console, subprocesses and file I/O.
- A matrix row shorter than the first one reads past its end in the original; here loading fails.
