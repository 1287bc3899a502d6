# Qubus: a verified model

Qubus compiles tensor definitions (QTL) to a loop language (QIR), analyses and translates the
loops, and runs the resulting kernels as tasks of a distributed runtime. This project models the
parts of it that carry the weight and proves what they promise, in Dafny 4.11. `dafny verify
dfyconfig.toml` checks everything.

**Tasks and data flow.** `Dataflow` holds the chain of tokens per object and the collection of the
tokens of a task. `TaskProtocol` is a step system on top of it: tasks are submitted, start when
their tokens are ready, work on their objects one operation at a time between the operations of
other tasks, and release their tokens one by one. Every interleaving leaves in each object what serial
execution in submission order leaves there; `finalize` is a barrier; a system without duplicate
arguments always drains, one with them never does.

**Tensor expressions.** `Qtl` gives tensor expressions a meaning as finite sums. `DeltaFolding` is
the folding of Kronecker deltas, with the proof that bubbles are sound and that folding keeps the
value; `DeltaFoldingExactness` shows that its condition is exact. The condition is needed because
the code does not refresh its list of bubbles after a substitution. `DeltaFoldingCompleteness` says
which indices are found to be tied, and that nothing tied is left.

**Lowering.** `Qir` and `QirRun` are the loop language and its interpreter, which records every
evaluation and takes loop semantics from the code that the JIT emits. `TensorCode` relates runs to
folds over iterations. `SumLowering` lowers definitions, with sums or without, to loops, and
`DefinitionSequences` several definitions one after the other;
`SparseLowering`, `SparseMeaning`, `SparseLoops`, `SparseNest`, `SparseCorrectness`,
`SparseTheorem` and `SparseAgreement` lower contractions with one matrix in SELL storage (chunks of
four rows, padded with zeros) to loops over blocks, rows and stored positions, for any number of
rows. Both compute the mathematical contraction, and so agree with each other. `SparseSelection`
says which kernels the sparse lowering takes, and `KernelTranslation` chains the passes.

**Analyses.** `ConstantFolding`, `AxiomAnalysis`, `AffineConstraints`, `ValueSets` and `ValueSetExactness`,
`ScheduleDomains`, `ScheduleRuns`, `StaticSchedule` and `ScheduleTheorem` are proved against runs of
the interpreter. isl appears only as what it stands for, sets of integer points.

**Memory.** `RowMajor` is index computation in the host views and in generated code,
`ObjectLayout` the layout of nested objects and the headers and offset tables written into raw
memory.

**Resources.** `UniformFill` is the scheduler over a queue of loads, `Eviction` the page table with
the allocator that evicts pages when memory runs out.

**Text.** `QirSyntax` prints QIR and reads it back character by character; `QirRoundTrip` proves the
round trip on the common fragment of printer and grammar, `QirGrouping` what happens outside it, and
`QirGrammar` exactly which trees the grammar can make, from texts in its own words.

`Wrappers`, `Division`, `IntSums`, `IndexSums` and `Substitution` are shared by the others.

Where the code falls short of its apparent intention, the model follows the code and the exact
condition is proved: `DeltaFoldingExactness.SafeIsExact`, `ConstantFolding.DivFloorIsFloor`,
`AxiomAnalysis.AxiomsHoldOverRuns`, `AffineConstraints.GreaterIsTooWide`,
`AffineConstraints.DivisionConvertsExactly`,
`ScheduleDomains.LoopDomainIsExact`, `ScheduleDomains.AlignmentIsNeeded`,
`ObjectLayout.PageHoldsObject`, `TaskProtocol.Drains`, `QirGrouping.RoundTripExactly`,
`RowMajor.LiteralComesLast`. `DeltaFoldingCompleteness.OnlyLooseIndicesRemain` goes one way, with
`InnerContractionIsSkipped` as the input that its condition excludes.

## Model

| member | source | states |
|---|---|---|
| Dataflow.DataflowGraph.ScheduleModification | qubus/src/dataflow.cpp:81-111 | the token future awaits the promise that the wavefront held for the object, if any, and the promise of the new token takes its place; nothing else changes |
| Dataflow.DataflowGraph.ScheduleRead | qubus/src/dataflow.cpp:113-116 | reads are chained exactly like modifications: no two readers share a token |
| Dataflow.DataflowGraph.Finalize | qubus/src/dataflow.cpp:73-79 | the waits all succeed exactly if every promise in the wavefront has been fulfilled |
| Dataflow.RuntimeServer.Execute | qubus/src/runtime.cpp:168-187 | collects one token per argument and then per result, in order; the state of the graph afterwards is that of the whole request list |
| Dataflow.WaveLookup | qubus/src/dataflow.cpp:81-111 | after a list of requests the wavefront holds, for each object, the promise of the last request that names it, and is unchanged for the others |
| Dataflow.TokenAwaits | qubus/src/dataflow.cpp:87-103 | each token of a task awaits the nearest earlier request of the same task for the same object, otherwise what the wavefront held before the task |
| TaskProtocol.ReadyInRequestOrder | qubus/src/dataflow.cpp:81-111 | if a token is ready, the promises of all earlier requests for its object are fulfilled: tokens become ready in request order |
| TaskProtocol.MutualExclusion | qubus/src/dataflow.cpp:12-27 | per object at most one token is ready and not yet destroyed |
| TaskProtocol.StepKeepsInv | qubus/src/runtime.cpp:161-197 | submission, start, one kernel operation, the end of a kernel and the release of one token each keep the protocol invariant and the agreement of the store with serial execution |
| TaskProtocol.RunKeepsInv | qubus/src/runtime.cpp:161-197 | so does every finite interleaving of these steps |
| TaskProtocol.Serializable | qubus/src/runtime.cpp:161-197 | in every reachable state, an object whose tasks have all finished holds what running all tasks one after the other in submission order leaves in it, however the operations of different kernels were interleaved |
| TaskProtocol.FinalizeIsBarrier | qubus/src/dataflow.cpp:73-79 | all waits of `finalize` succeed exactly when every token handed out has been released, and then every submitted task with at least one object has finished |
| TaskProtocol.DuplicateNeverStarts | qubus/src/runtime.cpp:168-196 | a task that names one object twice waits for itself and never starts |
| TaskProtocol.EarliestCanMove | qubus/src/runtime.cpp:189-196 | the earliest task that has not finished and released all its tokens can always take a step, if it names no object twice |
| TaskProtocol.RunIsBounded | qubus/src/runtime.cpp:189-196 | without new submissions every run is finite: each step does one unit of a fixed amount of work, the release of each token included |
| TaskProtocol.Drains | qubus/src/runtime.cpp:85-87 | once nothing can move any more all tasks have finished and all tokens are released, exactly if no submitted task names an object twice |
| DeltaFolding.CollectBubblesContext.CollectBubbles | qubus/src/qtl/kronecker_delta_folding_pass.cpp:36-102 | leaves the list of bubbles found before followed by those of the expression, as `Collect` defines them |
| DeltaFolding.ContainsBubbleWithIndex | qubus/src/qtl/kronecker_delta_folding_pass.cpp:104-120 | the partner of the index in the first bubble that mentions it |
| DeltaFolding.Partner | qubus/src/qtl/kronecker_delta_folding_pass.cpp:104-120 | none exactly if no bubble mentions the index; otherwise the pair is one of the bubbles |
| DeltaFolding.BubblesAreSound | qubus/src/qtl/kronecker_delta_folding_pass.cpp:36-102 | for every bubble found, the expression is zero in all environments where its two indices differ, through products, quotients, sums, differences and nested contractions |
| DeltaFolding.EvalEliminate | qubus/src/qtl/kronecker_delta_folding_pass.cpp:122-134 | replacing deltas of an index with itself by 1 keeps the value of every expression |
| DeltaFolding.EvalSubst | qubus/src/qtl/kronecker_delta_folding_pass.cpp:136-147 | substituting an index that no inner sum binds means evaluating with the value of the other index |
| DeltaFolding.Collapse | qubus/src/qtl/kronecker_delta_folding_pass.cpp:162-175 | a sum over an index tied to another one equals the rest of the sum over the body with the index replaced |
| DeltaFolding.FoldSumInPlace | qubus/src/qtl/kronecker_delta_folding_pass.cpp:150-193 | the loop over the indices of one contraction computes `FoldSum` |
| DeltaFolding.FoldSumPreserves | qubus/src/qtl/kronecker_delta_folding_pass.cpp:158-190 | folding one contraction keeps its value if no index that is replaced has a partner that was replaced before it |
| DeltaFolding.FoldSumScope | qubus/src/qtl/kronecker_delta_folding_pass.cpp:158-190 | under the same condition no index escapes from its sum |
| DeltaFolding.FoldPreserves | qubus/src/qtl/kronecker_delta_folding_pass.cpp:150-193 | folding a whole expression keeps its value in every environment |
| DeltaFoldingExactness.SafeIsExact | qubus/src/qtl/kronecker_delta_folding_pass.cpp:162-175 | the condition is exact: for a list of bubbles it holds if and only if folding keeps the value of every contraction with these bubbles in every environment |
| DeltaFoldingExactness.NoPairIsFoldSafe | qubus/src/qtl/kronecker_delta_folding_pass.cpp:162-175 | it holds everywhere in an expression if no delta joins two indices of one sum |
| DeltaFoldingCompleteness.BubblesAreTies | qubus/src/qtl/kronecker_delta_folding_pass.cpp:36-102 | a pair of indices is among the bubbles of an expression exactly if a delta ties it: as a factor, in the numerator of a quotient, in both operands of a sum or difference, or under contractions over other indices |
| DeltaFoldingCompleteness.FoldSumRemovesTied | qubus/src/qtl/kronecker_delta_folding_pass.cpp:162-189 | the folded contraction goes over exactly the indices that no delta ties, in their order, and is gone if there are none |
| DeltaFoldingCompleteness.FoldedHasNoTrivialDelta | qubus/src/qtl/kronecker_delta_folding_pass.cpp:170-175 | where an index was replaced, no delta of an index with itself is left |
| DeltaFoldingCompleteness.OnlyLooseIndicesRemain | qubus/src/qtl/kronecker_delta_folding_pass.cpp:150-193 | the pass reaches every contraction: in the folded expression contractions go over no index but those that no delta tied before, if no contraction stands directly inside another |
| DeltaFoldingCompleteness.InnerContractionIsSkipped | qubus/include/qubus/pattern/substitute.hpp:22-34 | an input with a contraction directly inside one that folds away, whose tied index is left: what replaces an expression is not matched again |
| ConstantFolding.FoldConstantExpressions | qubus/src/IR/constant_folding.cpp:81-94 | folding the children in a loop and then the node computes `FoldConstants` |
| ConstantFolding.FoldPreserves | qubus/src/IR/constant_folding.cpp:18-94 | folding keeps the value of every QIR expression that has one (no zero divisors), for truncating division as in section 8.6 of ISO/IEC 14882:2017 |
| ConstantFolding.FoldKeepsOutcome | qubus/src/IR/constant_folding.cpp:81-94 | whenever a run of a program, with its loops, branches and stores, does not get stuck, the folded program ends in the same way: with the same memory, or cut off at the same bound |
| ConstantFolding.ConstantFoldsToValue | qubus/src/IR/constant_folding.cpp:18-94 | an expression built from integer literals folds to the literal of its value |
| ConstantFolding.NothingIsLeftToFold | qubus/src/IR/constant_folding.cpp:81-94 | nowhere in a folded program, in bounds, conditions, bodies, subscripts or operands, is there an operation on literals that has a value |
| ConstantFolding.FoldedStays | qubus/src/IR/constant_folding.cpp:81-94 | folding changes no program in which there is none, so folding twice is folding once |
| ConstantFolding.DivFloorIsFloor | qubus/src/jit/operators.cpp:300-321 | folded and emitted `div_floor` agree for all operands; they are the floor of the quotient exactly outside a stated set of signs and sizes, and at most one off inside it |
| ConstantFolding.DivFloorExamples | qubus/src/IR/constant_folding.cpp:45-58 | operands of each kind for which `div_floor` is not the floor |
| AxiomAnalysis.GetValidAxioms | qubus/src/axiom_analysis.cpp:198-229 | walking up the scopes collects the axioms in force at an expression |
| AxiomAnalysis.LoopAxiomsExact | qubus/src/axiom_analysis.cpp:31-103 | in an iteration of a loop, the bounds, the tightened upper bound and the stride equation all hold exactly if the loop counts upwards, or downwards and is in its first iteration; increments may be literals or any other expression |
| AxiomAnalysis.LoopAxiomsSay | qubus/src/axiom_analysis.cpp:31-103 | the axioms of a loop are all true in a memory if and only if bounds and increment have values there, the index is between the bounds, and its distance from the lower bound is a multiple of the increment |
| AxiomAnalysis.ExecValid | qubus/src/axiom_analysis.cpp:19-150 | whatever is known at the start and written nowhere inside stays true at every evaluation of a run, and the axioms of the loops and branches passed hold there exactly if each of these loops counts upwards, or downwards and is in its first iteration |
| AxiomAnalysis.AxiomsHoldOverRuns | qubus/src/axiom_analysis.cpp:19-229 | each time a run evaluates an expression, all axioms returned for it are true if and only if every loop around it counts upwards, or downwards and is in its first iteration |
| AxiomAnalysis.AxiomsAreExact | qubus/src/axiom_analysis.cpp:19-229 | the axioms returned for an expression are all true in a memory if and only if the loops and branches around the expression admit it: none is missing and none is too strong |
| AxiomAnalysis.DownwardExample | qubus/src/axiom_analysis.cpp:44-45 | an input for which an axiom is false: in the second iteration of a loop from 0 below 1 in steps of -1 the index is below the lower bound |
| TensorCode.ExecComputes | qubus/src/jit/loops.cpp:14-56 | running a nest of loops that stores to one tensor leaves in each element what folding the assignments over the iterations gives, and changes nothing else but the loop variables |
| SumLowering.RemoveTopLevelSums | qubus/src/qtl/lower_top_level_sums.cpp:24-43 | strips the sums off the right-hand side and appends their indices, outermost first |
| SumLowering.LowerDefinition | qubus/src/qtl/lower_top_level_sums.cpp:78-95 | rewraps the accumulation from the last index to the first, behind the initialisation with zero |
| SumLowering.SearchFindsBound | qubus/src/qtl/deduce_iteration_space.cpp:15-67 | the bound found for an index is the extent of a tensor dimension or of a delta |
| SumLowering.LowersToOuterCode | qubus/src/qtl/lower_abstract_indices.cpp:28-62 | lowering turns the nest of `for_all` into loops with fresh variables, bounds as deduced and all uses of the indices renamed |
| SumLowering.OuterFinal | qubus/src/qtl/lower_abstract_indices.cpp:28-62 | the fold of the generated loops over the iterations is the nested sum over the source indices |
| SumLowering.SumLoweringIsCorrect | qubus/src/qtl/lower_top_level_sums.cpp:24-98 | for a definition with any number of sums, none included, and any extents the generated code terminates with every element equal to the iterated sum of the right-hand side (without sums, to its value) and everything else unchanged |
| DefinitionSequences.SequenceIsCorrect | qubus/src/qtl/lower_top_level_sums.cpp:67-77 | a sequence of definitions is lowered one by one; its code terminates and gives each tensor in turn what its definition says in the memory that the definitions before it left |
| SparseLowering.GenerateInitPart | qubus/src/qtl/sparse_patterns.cpp:33-67 | the loop over the indices of the assigned tensor builds the initialisation nest |
| SparseLowering.GenerateComputationalPart | qubus/src/qtl/sparse_patterns.cpp:77-199 | skeleton, index map, substitution and wrapping in loops together build `ComputationalPart` |
| SparseMeaning.BlocksCoverRows | qubus/src/qtl/sparse_patterns.cpp:77-199 | blocks of four rows and the remaining rows visit each row once, for every number of rows |
| SparseNest.StatementAdds | qubus/src/qtl/sparse_patterns.cpp:140-199 | the statement of the innermost loop adds the summand for one stored entry to one element |
| SparseNest.BlocksAdd | qubus/src/qtl/sparse_patterns.cpp:77-199 | the loops of one kind over blocks, rows and stored positions add the sum over all their entries |
| SparseCorrectness.NestAdds | qubus/src/qtl/sparse_patterns.cpp:77-199 | the loops over the dense indices around them add the sum over all values of these indices |
| SparseCorrectness.RowContributions | qubus/src/qtl/sparse_patterns.cpp:140-199 | the stored entries of a row add up to the sum over all columns: padding adds nothing, no column counts twice |
| SparseCorrectness.KindsTogether | qubus/src/qtl/sparse_patterns.cpp:365-395 | the vectorizable and the remainder part together give the sum over all rows and columns |
| SparseTheorem.PartIsNest | qubus/src/IR/macro_expr.cpp:68-92 | expanding the macros parameter by parameter gives the nest of loops that the proofs reason about |
| SparseTheorem.InitFinal | qubus/src/qtl/sparse_patterns.cpp:33-67 | the initialisation sets exactly the elements of the assigned tensor to zero |
| SparseTheorem.ContractionIsComputed | qubus/src/qtl/sparse_patterns.cpp:365-395 | every run of the three parts ends, with the dense contraction in each element of the assigned tensor and everything else unchanged |
| SparseAgreement.AnalysisFinds | qubus/src/qtl/sparse_patterns.cpp:202-360 | the pattern analysis recognises a definition with one sparse matrix and tells dense and sparse indices apart |
| SparseSelection.SelectionIsExact | qubus/src/qtl/sparse_patterns.cpp:203-362 | the analysis accepts a kernel if and only if it is a definition by a sum whose summand uses a sparse tensor, subscripted with indices, at exactly one place |
| SparseSelection.OthersStay | qubus/src/qtl/sparse_patterns.cpp:365-371 | every other kernel leaves the pass as it came |
| SparseSelection.DenseIsNotSparse | qubus/src/qtl/sparse_patterns.cpp:324-361 | among them are all kernels that read no sparse tensor |
| SparseSelection.TwoUsesAreNotSparse | qubus/src/qtl/sparse_patterns.cpp:351-360 | and those that use sparse tensors at two places |
| SparseAgreement.SparseLoweringIsCorrect | qubus/src/qtl/sparse_patterns.cpp:202-395 | from the definition to the result: if the summand has one use of a sparse matrix the lowering applies, and the code it returns computes the contraction |
| SparseAgreement.SparseAgreesWithDense | qubus/src/qtl/sparse_patterns.cpp:365-395 | code lowered for SELL storage and code lowered for dense storage leave the same values in all elements |
| KernelTranslation.OrdinaryKernelIsTranslated | qubus/src/qtl/kernel.cpp:67-71 | through sparse lowering, sum lowering and index lowering in a row, a definition that is no contraction with one sparse tensor becomes code that leaves its value in every element |
| KernelTranslation.DenseKernelIsTranslated | qubus/src/qtl/kernel.cpp:67-71 | in particular a definition that reads no sparse tensor |
| KernelTranslation.SparseKernelIsTranslated | qubus/src/qtl/kernel.cpp:67-71 | a contraction with one sparse matrix becomes code that computes it: the later passes keep what the first one made |
| IndexSums.TotalPermutes | qubus/src/qtl/lower_top_level_sums.cpp:24-43 | a sum over several indices does not depend on the order of the indices |
| Substitution.EvalSubst | qubus/src/IR/macro_expr.cpp:68-92 | substituting expressions for variables means evaluating where the variables have their values |
| RowMajor.LinearInRange | qubus/include/qubus/host_object_views.hpp:131-167 | in-range index tuples have positions below the number of elements, and are read back off the position |
| RowMajor.EveryPositionIsUsed | qubus/include/qubus/host_object_views.hpp:131-167 | every position below the number of elements belongs to an in-range tuple |
| RowMajor.LinearIsBijection | qubus/include/qubus/host_object_views.hpp:131-167 | the index computation is a bijection from in-range tuples to positions |
| RowMajor.CpuArrayView.LinearIndex | qubus/include/qubus/host_object_views.hpp:131-148 | the loop computes the row-major position |
| RowMajor.CpuArrayView.Get | qubus/include/qubus/host_object_views.hpp:131-148 | reads the element of the tuple |
| RowMajor.CpuArrayView.Set | qubus/include/qubus/host_object_views.hpp:150-167 | writes the element of the tuple and leaves all other elements as they were |
| RowMajor.EmitIndexExpression | qubus/src/jit/array_access.cpp:304-316 | the loop builds the Horner expression over the extents |
| RowMajor.IndexExpressionValue | qubus/src/jit/array_access.cpp:304-316 | its value is the position that the host views compute |
| RowMajor.CollectConstantTerms | qubus/src/jit/array_access.cpp:104-148 | splits a sum into its literals, which are added up, and the rest |
| RowMajor.ReassociateIndexExpression | qubus/src/jit/array_access.cpp:104-148 | puts the collected literal behind the other terms; in every memory where the index expression has a value the result has the same one |
| RowMajor.ReassociatePreserves | qubus/src/jit/array_access.cpp:104-148 | reassociation keeps the value |
| RowMajor.LiteralsAreCollected | qubus/src/jit/array_access.cpp:110-136 | collecting keeps all other terms in their order, and takes all literals out exactly if each sum has a term that is no literal |
| RowMajor.LiteralComesLast | qubus/src/jit/array_access.cpp:138-147 | the result has its literals in one last term, or none if they add up to zero, exactly under this condition |
| RowMajor.ConstantSumIsKept | qubus/src/jit/array_access.cpp:122-127 | an input for which a literal stays behind: `(1 + 2) + x` becomes `(2 + x) + 1` |
| RowMajor.GeneratedIndexIsLinear | qubus/src/jit/array_access.cpp:304-316 | generated code with a reassociated index and host views address the same element |
| ObjectLayout.GetArrayLayout | qubus/src/abi_info.cpp:40-76 | rank, shape and data lie in this order without overlap at aligned offsets, and the block ends with the data |
| ObjectLayout.ElementFits | qubus/include/qubus/host_object_views.hpp:190-192 | every in-range element, addressed behind the header, lies inside the block of `get_array_layout` |
| ObjectLayout.ComputeLayout | qubus/src/object_description.cpp:29-84 | advancing the position through the members computes `LayoutAt` and the final position |
| ObjectLayout.LayoutTiles | qubus/src/object_description.cpp:29-84 | for every description tree, tables and arrays tile the range from the start to the final position without gap or overlap |
| ObjectLayout.WriteHeader | qubus/src/local_object_factory.cpp:35-52 | writes rank and shape, and nothing outside the header |
| ObjectLayout.WriteOffsets | qubus/src/local_object_factory.cpp:54-71 | writes the offsets of all members, and nothing outside the table |
| ObjectLayout.ConstructObject | qubus/src/local_object_factory.cpp:35-71 | builds all headers and tables of the tree within its range; nothing outside changes |
| ObjectLayout.ConstructedStays | qubus/src/local_object_factory.cpp:35-71 | an object that was built stays built whatever happens outside its range, so later members do not damage earlier ones |
| ObjectLayout.FollowReaches | qubus/src/jit/compile.cpp:313-342 | following stored offsets along any member path reaches the layout position of that member |
| ObjectLayout.PageHoldsObject | qubus/src/local_object_factory.cpp:74-93 | the size asked for when a page is allocated covers the object exactly if it is an array or scalar, or a struct whose members are all empty structs |
| ObjectLayout.PageTooSmall | qubus/src/object_description.cpp:60-71 | a struct with one vector: 8 bytes are allocated and the vector starts at byte 8 |
| UniformFill.UniformFillScheduler.AddResource | qubus/src/scheduling/uniform_fill_scheduler.cpp:62-67 | a new resource starts at load zero |
| UniformFill.UniformFillScheduler.Top | qubus/src/scheduling/uniform_fill_scheduler.cpp:14-17 | a resource of least load |
| UniformFill.UniformFillScheduler.Rescale | qubus/src/scheduling/uniform_fill_scheduler.cpp:12-60 | lowers all loads but the popped one by one amount |
| UniformFill.UniformFillScheduler.Schedule | qubus/src/scheduling/uniform_fill_scheduler.cpp:12-60 | the task goes to a least loaded resource, whose load grows by the estimate, if there is one; on overflow the loads of all others are lowered by its load and it starts again at zero |
| UniformFill.RunIsBalanced | qubus/src/scheduling/uniform_fill_scheduler.cpp:12-60 | after any run, overflows included, loads are not negative and differ by at most the largest estimate seen |
| UniformFill.RunIsGreedy | qubus/src/scheduling/uniform_fill_scheduler.cpp:12-60 | as long as no single step overflows, no load exceeds the mean plus (1 - 1/m) times the largest estimate |
| UniformFill.WithinTwiceAnyAssignment | qubus/src/scheduling/uniform_fill_scheduler.cpp:12-60 | hence, as long as no step overflows, no load exceeds 2 - 1/m times the makespan of any assignment of the same tasks |
| Eviction.MockAllocator.Allocate | qubus/main.cpp:43-54 | grants a request exactly if it stays below the capacity, and accounts for it |
| Eviction.MockAllocator.Deallocate | qubus/main.cpp:56-62 | gives the size back |
| Eviction.AddressSpace.EvictObjects | qubus/src/local_address_space.cpp:176-209 | removes one entry whose page nobody else holds, or reports that there is none; no held page changes |
| Eviction.AddressSpace.AllocatePage | qubus/src/evicting_allocator.cpp:13-26 | at most one try more than there are entries; only unheld entries are removed and held pages survive; failure means that the allocator refused with nothing left to evict |
| Eviction.AddressSpace.RegisterPage | qubus/src/local_address_space.cpp:85-101 | the handle of the caller moves into the table |
| Eviction.AddressSpace.Erase | qubus/src/local_address_space.cpp:103-108 | removes one entry; its page is freed exactly if nobody holds it |
| Eviction.AddressSpace.TryResolveObject | qubus/src/local_address_space.cpp:157-174 | a resolved page gains a holder; otherwise nothing changes |
| Eviction.AddressSpace.Release | qubus/src/local_address_space.cpp:35-43 | a page lives on exactly if it is still held or in the table; the bytes of live pages equal the account of the allocator |
| AffineConstraints.AffineExprContext.DeclareVariable | qubus/src/affine_constraints.cpp:660-679 | the variable is at the dimension returned and at no other; dimensions given before stay, and a known variable adds none |
| AffineConstraints.AffineExprContext.DefineConstant | qubus/src/affine_constraints.cpp:681-701 | likewise for invariant expressions and parameters |
| AffineConstraints.AffineExprContext.TryConstructAffineExpr | qubus/src/affine_constraints.cpp:892-988 | the recursive extraction with its table updates computes `ConstructAffine` |
| AffineConstraints.AffineExprContext.TryExtractAffineConstraint | qubus/src/affine_constraints.cpp:990-1091 | likewise for conditions and `ExtractConstraint` |
| AffineConstraints.AffineIsExact | qubus/src/affine_constraints.cpp:325-397 | at the point of a memory, the affine form extracted from an expression has the value that running the expression gives, if quotients are exact and remainders are of dividends that are not negative or divisible |
| AffineConstraints.AffineFormIsFound | qubus/src/affine_constraints.cpp:892-988 | an expression is converted if and only if it has an affine form: literals, variables and invariants, their sums, differences and negations, and products with, quotients and remainders by literals and invariants; whatever the tables hold |
| AffineConstraints.ConstraintFormIsFound | qubus/src/affine_constraints.cpp:990-1091 | a condition is converted if and only if it consists of comparisons of such expressions and of conjunction, disjunction and negation |
| AffineConstraints.RemainderIsExact | qubus/src/affine_constraints.cpp:349-354 | the remainder in the set is the one the program computes exactly for dividends that are not negative or are divisible by the modulus |
| AffineConstraints.QuotientIsExact | qubus/src/affine_constraints.cpp:347-348 | the quotient in the set is the one the program computes exactly for dividends divisible by the divisor |
| AffineConstraints.DivisionConvertsExactly | qubus/src/affine_constraints.cpp:345-355 | for a quotient or remainder of convertible operands, the affine form has the right value if and only if the operands are such |
| AffineConstraints.ComparisonIsExact | qubus/src/affine_constraints.cpp:399-515 | the set of a comparison contains a point exactly if the comparison holds there, except that `>` is encoded as `lhs >= rhs - 1` |
| AffineConstraints.GreaterIsTooWide | qubus/src/affine_constraints.cpp:446-463 | `>` is right exactly where the sides are neither equal nor one apart |
| AffineConstraints.ConstraintDecides | qubus/src/affine_constraints.cpp:990-1091 | the set extracted from a condition contains the point of a memory if the condition is true there and not if it is false, unless a `>` that has to be false has sides that are equal or one apart there |
| ValueSets.DetermineValueSets | qubus/src/value_set_analysis.cpp:21-77 | the nested loops over expressions and axioms compute one value set per expression over shared tables: the `DetermineAll` that the rows below are about |
| ValueSets.DetermineIsSound | qubus/src/value_set_analysis.cpp:21-77 | if the axioms hold, the value of the expression is in its set; axioms that are not affine do not matter |
| ValueSets.ValueSetsAreSound | qubus/src/value_set_analysis.cpp:21-77 | in every run, each time an analysed expression is evaluated inside loops that count upwards, by literals or by variables, its value lies in the set computed for it |
| ValueSetExactness.SetIsExact | qubus/src/value_set_analysis.cpp:48-69 | a value is in the set of an affine expression if and only if there are values for the variables for which every axiom with an affine form holds and the expression takes this value, for all values of the invariants |
| ValueSetExactness.SetInMemory | qubus/src/value_set_analysis.cpp:48-69 | where conversion is exact: if and only if a memory with the same invariants makes all these axioms true and gives the expression this value |
| ValueSetExactness.ValueSetIsExact | qubus/src/value_set_analysis.cpp:21-77 | for an expression of a program: if and only if it has the value in a memory that the loops and branches around it admit |
| ValueSetExactness.LoopIndexSet | qubus/src/value_set_analysis.cpp:48-69 | the set of a loop index with literal bounds and increment is that of the iterations: from the lower bound in steps of the increment below the upper bound |
| ScheduleDomains.LoopDomainIsExact | qubus/src/static_schedule_analysis.cpp:208-218 | the stride constraint `i % inc == 0` describes the iterations of a loop exactly if the loop is empty or its lower bound is divisible by the increment |
| ScheduleDomains.InstancesAreExact | qubus/src/static_schedule_analysis.cpp:183-300 | for aligned loops, what control flow reaches are the points of the statements' domains, each once, in the order in which loops count and sequences are listed |
| ScheduleDomains.AlignmentIsNeeded | qubus/src/static_schedule_analysis.cpp:213-214 | for a whole nest in which every iteration does something, this holds if and only if every loop that is entered starts at a multiple of its increment |
| ScheduleRuns.ExecFollows | qubus/src/jit/loops.cpp:14-56 | a complete run executes these instances in this order |
| ScheduleRuns.ScheduleIsExact | qubus/src/static_schedule_analysis.cpp:183-300 | a complete run starts statements only inside their domains, everything in the domains exactly once, and in that order |
| ScheduleRuns.RunHasValues | qubus/src/jit/loops.cpp:14-56 | in a complete run all bounds and conditions have values wherever the loops and branches around them lead |
| StaticSchedule.LoopConstraintsExact | qubus/src/static_schedule_analysis.cpp:183-300 | the constraints generated for a loop contain a point exactly if the index is between the values of the bounds and divisible by the increment |
| StaticSchedule.TreeExists | qubus/src/static_schedule_analysis.cpp:183-532 | a program has a schedule tree if and only if it is schedulable: each loop has affine bounds and a constant increment, each branch a condition that converts, and all children are schedulable; sequences of any length are |
| StaticSchedule.ScheduleDomainMatches | qubus/src/static_schedule_analysis.cpp:183-516 | the domain collected for a statement is that of the loops and branches around it, at every depth |
| StaticSchedule.AffineDomainIsExact | qubus/src/static_schedule_analysis.cpp:80-101 | the affine domain of a statement contains the point of a memory exactly if the loops and branches around the statement admit it |
| StaticSchedule.TreeOrder | qubus/src/static_schedule_analysis.cpp:227-260 | the lexicographic order of the constructed tree, in which bands compare their iterator and sequences their position, is the order in which loops count and sequences are listed |
| StaticSchedule.TreeIteration | qubus/src/static_schedule_analysis.cpp:227-260 | two points have equal values in all bands above a statement exactly if they are the same iteration of the loops around it |
| StaticSchedule.DomainsAreOfStatements | qubus/src/static_schedule_analysis.cpp:517-529 | the tree has domains for the statements of the program and for nothing else |
| ScheduleTheorem.TreeIsFollowed | qubus/src/static_schedule_analysis.cpp:167-532 | every schedulable program has a tree, and a complete run starts each statement exactly at the points of the domain that the tree gives it, once for each value of the bands, in the lexicographic order of the tree |
| QirRoundTrip.IdRoundTrip | qubus/src/IR/parsing.cpp:346-351 | a word is read as an identifier exactly if it begins with no keyword |
| QirRoundTrip.NumberRoundTrip | qubus/src/IR/pretty_printer.cpp:243-243 | a printed non-negative integer is read back |
| QirRoundTrip.RoundTrip | qubus/src/IR/pretty_printer.cpp:222-237 | parsing a printed expression at any level that fits gives the expression back, whatever text follows that does not continue it |
| QirRoundTrip.AccessPrefix | qubus/src/IR/parsing.cpp:402-409 | chains of subscripts and members, starting from names, calls, literals or brackets, are read from the inside out |
| QirRoundTrip.ListRoundTrip | qubus/src/IR/pretty_printer.cpp:277-296 | so are lists of operands with their commas |
| QirRoundTrip.ItemRoundTrip | qubus/src/IR/pretty_printer.cpp:255-265 | and operands that may be ranges, in the three parts that are printed |
| QirRoundTrip.StmtRoundTrip | qubus/src/IR/pretty_printer.cpp:338-413 | printed assignments, declarations, loops and branches are read back |
| QirRoundTrip.BlockRoundTrip | qubus/src/IR/pretty_printer.cpp:266-276 | so are blocks at every indentation |
| QirRoundTrip.PrintedProgramIsParsed | qubus/src/IR/parsing.cpp:372-419 | a printed body is read completely, as the same statements |
| QirGrouping.GroupingIsLost | qubus/src/IR/pretty_printer.cpp:222-230 | two groupings of operators of one level print the same text |
| QirGrouping.RoundTripExactly | qubus/src/IR/parsing.cpp:376-400 | for operators grouped in any way the grammar reads the grouping to the right, so an expression comes back unchanged exactly if no left operand is on the level of its operator |
| QirGrouping.UnreadableIsNotRead | qubus/src/IR/pretty_printer.cpp:58-79 | `&&`, `||`, `<=`, `>=` and `//` are never read: the parser stops after the left operand, whatever the operands |
| QirGrouping.NoteIsNegated | qubus/src/IR/parsing.cpp:398-400 | a name that begins with `not` is read as the negation of the rest |
| QirGrouping.OrderContinues | qubus/src/IR/parsing.cpp:389-391 | a line that begins with a name like `order` is read as the right operand of an `or` with the line before |
| QirGrouping.NotIsNotRead | qubus/src/IR/pretty_printer.cpp:116-131 | a printed `!` is no expression for the grammar |
| QirGrammar.WriteIsRead | qubus/src/IR/parsing.cpp:376-409 | every tree of the grammar, with `and`, `or` and `not`, operators of one level grouped in any way, and ranges as operands, is read from its text at every level that fits, if no name in it begins with `not` |
| QirGrammar.ExactlyTheTrees | qubus/src/IR/parsing.cpp:355-409 | and nothing else is read: a tree (without such names) is the reading of some text if and only if it is one of the grammar, so without `<=`, `>=` and `//`, without calls that have no argument, and with identifiers that begin with no keyword |
| QirGrammar.TwoPartsAreRead | qubus/src/IR/parsing.cpp:355-356 | a range of two parts has its first part as the lower and its second as the upper bound, and stride one |
| QirGrammar.ThirdPartIsNeeded | qubus/src/IR/parsing.cpp:355-356 | a second colon with nothing behind it makes no range |
| QirGrammar.LoopIsRead | qubus/src/IR/parsing.cpp:414-417 | a loop head with any range is followed by a block and `end`, or the text is an error |
| QirGrammar.LoopOverRange | qubus/src/IR/parsing.cpp:355-417 | `for i :: T in a:b` with a printed body is the loop over the range from `a` to `b` with stride one, in each of the three orders |
| QirGrammar.BlockIsMaximal | qubus/src/IR/parsing.cpp:372-373 | a block goes on to the first text at which no statement begins, and is an error if a statement there is one |
| QirGrammar.NoWayBack | qubus/src/IR/parsing.cpp:396-419 | a statement is given up, for something else to be tried, only before its keyword or before the sign of an assignment |

## Left out

Tasks and data flow:

- TaskProtocol.Serializable: a task is submitted in one atomic step; the wavefront map has no lock, and interleaved registration of two tasks is not modelled.
- TaskProtocol.StepKeepsInv: kernels that throw and kernels that never end are not modelled.
- Tokens acquired by host code, and their distributed wrappers.

Tensor expressions and lowering:

- DeltaFolding.FoldPreserves: values are real numbers and a quotient with divisor zero counts as zero; floating point and NaN are not modelled. Binders are distinct, partner indices have the range of the summed index.
- DeltaFoldingCompleteness.OnlyLooseIndicesRemain: a replacement can make two terms of a sum agree on a delta that they did not share before; indices tied only by such deltas are not folded, as the code does not look again.
- SumLowering.SumLoweringIsCorrect: elements are integers (any exact ring would do); the initialiser `double_literal(0)` appears as the integer 0. Sums below the top level, sums over several indices at once, `for_all` over several indices, and loops nested in the source are not modelled. The fix-up that turns deltas into the intrinsic of the same name is the identity here, as `Delta` stands for both. All uses of an index have one extent, and the summand does not read the tensor it defines.
- DefinitionSequences.SequenceIsCorrect: each definition has values wherever the ones before it lead, and uses names of its own for its loop variables.
- KernelTranslation.OrdinaryKernelIsTranslated: extraction of objects, legalisation and expansion of multi-indices, which come before, are not modelled; delta folding has its own expressions in `Qtl`.
- SparseLowering.GenerateComputationalPart: sparse tensors have rank 2, so the loops over outer sparse indices with their constant extent 16 are not modelled. The subexpression for `val` is moved out by the first replacement, so that a second use of the sparse tensor in one summand would find nothing; the model replaces all uses, and `SparseAgreement.SparseLoweringIsCorrect` is about summands with one use.
- SparseTheorem.ContractionIsComputed: the summand vanishes when the element of the sparse tensor does, the columns stored for one row are distinct up to padding, and padding holds zero.
- Complex and mixed element types, and type conversions.

Analyses:

- ConstantFolding.FoldPreserves: integers are unbounded. Folding evaluates literal divisors at compile time; an expression whose evaluation divides by zero has no value here.
- AxiomAnalysis.AxiomsHoldOverRuns: loop indices, bounds, increments and conditions are not written in the scopes they guard. `fuel` in runs bounds the number of steps; statements hold for every fuel, or for all that are large enough.
- AffineConstraints.AffineIsExact: multipliers, divisors and moduli are literals (the library rejects others).
- ValueSets.ValueSetsAreSound: value ranges derived from the sets depend on isl's AST generation.
- ValueSetExactness.ValueSetIsExact: the axioms around the expression are affine and convert exactly wherever they hold, and an invariant expression reads nothing but invariants; without the former the set may be too large, as `SetIsExact` says precisely.
- ScheduleRuns.ScheduleIsExact: control is static (bounds and conditions depend on enclosing indices and on variables that no statement stores to), and increments are literals.
- ScheduleTheorem.TreeIsFollowed: bounds and conditions convert exactly wherever the loops and branches around them lead; for `>` that means that its sides are not equal or one apart where it is false. isl's simplification and its schedule trees appear as sets of points and as nesting; unordered and parallel composition, and starting a new schedule where a subtree is not affine, are not modelled.
- Alias, access and task-invariance analyses, and the cache of the pass manager, which is never cleared.

Memory:

- RowMajor.GeneratedIndexIsLinear: array slices with offsets and strides are not modelled, nor index overflow.
- ObjectLayout.GetArrayLayout: the number of elements is computed without the wrap-around of the `int` accumulator (below 2^31 elements they agree).
- ObjectLayout.ConstructObject: a page large enough for the whole object is required; `PageHoldsObject` says when the page that is allocated is one. Alignment of members, which the code computes and does not use, is not modelled.

Resources:

- UniformFill.RunIsBalanced: all resources are added first, as the load of a later one starts at zero; estimates are a parameter and not negative. The lock and the execution itself are left out.
- Eviction.AddressSpace.EvictObjects: the hint is not modelled (the only caller passes 0); page faults, the coherence of copies and concurrent access to the table are left out.
- Performance models and the round-robin scheduler, which would only add easy members.

Text:

- QirGrammar.ExactlyTheTrees: names that begin with `not` are left out, as whether they can be read depends on what follows them (`NoteIsNegated`).
- QirRoundTrip.PrintedProgramIsParsed: the target of an assignment begins with a name; a point after a number belongs to a floating literal. Name and type resolution after parsing, functions and modules, parameterised types, floating literals, type conversions, `unordered do` blocks and calls without arguments (which the grammar lacks) are not modelled. Line breaks and indentation follow the layout library only up to white space.
- Code generation for LLVM and CUDA, the network and plugin loading.
