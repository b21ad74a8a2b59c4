# Join paths, column name tracing and the partition catalog, in Dafny

This project models three pieces of MonetDB and its Pathfinder compiler,
and proves what they promise.

1. **The join-path machinery** (`MonetDB5/optimizer/opt_joinpath.c`).
   - A compile-time optimizer, `OPTjoinPathImplementation`, works on the MAL
     instruction list. It folds each pairwise `algebra.join`, `leftjoin` or
     `semijoin` whose argument is produced, used once, by a join of the same
     family, into one multi-operand `joinPath`, `leftjoinPath` or
     `semijoinPath`.
   - Its second phase, `OPTjoinSubPath`, finds adjacent argument pairs that
     recur across join paths. It computes each such pair once with a shared
     pairwise join.
   - At run time, `ALGjoinPath` binds and type-checks the operands.
     `ALGjoinPathBody` then joins them greedily, cheapest adjacent pair first,
     by the cost heuristic `ALGjoinCost`. A failed pair is postponed.
2. **Column name tracing** (`pathfinder/compiler/algebra/prop/prop_trace_names.c`).
   - `map_names` pushes (original name, current name) pairs down an algebra
     DAG from a start operator to a goal operator. Projections rename the
     pairs, joins route them by schema, and generating operators invalidate
     them.
   - `PFprop_trace_names` then prunes the goal's list to one pair per
     original name. It reports the traced name of each requested column.
3. **The data cyclotron's partition catalog** (`MonetDB5/optimizer/opt_datacyclotron.c`).
   This is a list of (schema, table, column, access) entries, each with
   growable buffers of registered partitions.

## Files

- **util.dfy, mal.dfy**: the shared types.
  - `Option` stands for a pointer that may be NULL.
  - `Result` stands for a value or a MAL exception.
  - A MAL instruction is its module, function, result count and argument
    vector (`argv[0..retc)` are results).
  - A variable's type is its head and tail atom.
- **join_cost.dfy** (`JoinCost`): `ALGjoinCost` as a pure function on BAT
  descriptors. BUNs are modelled on a 64-bit build.
- **path_run.dfy** (`PathRun`): what `ALGjoinPathBody` computes, as a
  round-by-round function.
  - The join kernels are a function parameter (an oracle).
  - Reference counting is bookkeeping: every handle given up is appended to
    `released`, and every BAT a kernel builds to `created`.
- **join_exec.dfy** (`JoinExec`): `ALGjoinPathBody` as it runs, over arrays
  of handles and postponement flags. It is proved to compute
  `PathRun.JoinPathRun`.
- **join_path.dfy** (`JoinEntry`): `ALGjoinPath`. The argument loop is both
  a function and a method, and the whole entry point is a method.
- **fusion.dfy** (`JoinFusion`) and **subpath.dfy** (`SubPath`): the two
  optimizer passes as functions of the old program.
- **optimizer.dfy** (`Optimizer`): the class `MalBlk`, whose instruction
  list, type table and fixed-type set the passes rebuild in place.
  - Each loop is proved against the pass functions.
  - The `pc` and `varcnt` arrays, zero-initialised in the source, are maps
    read with default 0.
- **trace_names.dfy** (`TraceNames`):
  - the name-pair list operations as functions, and their loops as methods;
  - the pruning and the output loop;
  - `map_names` as the class `NameTracer`, whose per-operator lists and
    reference counters are updated in place.
- **data_cyclotron.dfy** (`DataCyclotron`): the catalog as the class
  `Catalog`, holding a sequence of entries. The linked list's head is index 0.

The model follows what the code does, including where it departs from
what the surrounding comments and names suggest:

- **Selection ignores postponement.** The selection test of
  `opt_joinpath.c` line 449 includes `postponed < top`, which always holds
  there. So a pair whose operands are both postponed is chosen whenever it
  is cheapest.
  - With a deterministic kernel, a failing pair is retried at once, and a
    second failure ends the run.
  - If every join fails, the executor makes at most two kernel calls
    (`PathRun.RunAlwaysFails`): the first failure postpones the pair, the
    retry of the same pair fails again, and the run returns NULL.
- **The type test compares an argument with itself.** The oid/void
  exemption of the fusion pass (lines 256-261) compares the tail and the
  head of the same argument j, not the tail of j and the head of j+1.
- **There is no rollback.** The passes do not restore the old program when
  an allocation fails. They return 0 after replacing the statement list.
  The model leaves allocation failure out rather than claim a rollback.
- **A type mismatch leaks a handle.** `ALGjoinPath` does not release every
  handle on every path (Finding 2 below).

## Model

| member | source | states |
|---|---|---|
| JoinCost.Flag | MonetDB5/optimizer/opt_joinpath.c:570 | the kernel flag is at most 2, and it is 0 exactly for a left join path |
| JoinCost.BaseCost | MonetDB5/optimizer/opt_joinpath.c:352-364 | the estimate never exceeds BUN_MAX; a key left tail bounds it by the right count; a key right head bounds it by the left count; without keys it is the product, capped at BUN_MAX |
| JoinCost.Divisor | MonetDB5/optimizer/opt_joinpath.c:366-421 | the divisor chosen by the first matching rule lies between 1 and 7 |
| JoinCost.Cost | MonetDB5/optimizer/opt_joinpath.c:322-426 | the final cost is at most the base estimate and at most BUN_MAX |
| JoinCost.DivisorAntitoneInLeftCount | MonetDB5/optimizer/opt_joinpath.c:367-421 | with all flags and the right operand fixed, a larger left count never selects a larger divisor |
| JoinCost.BaseCostMonotoneInLeftCount | MonetDB5/optimizer/opt_joinpath.c:352-364 | the base estimate is non-decreasing in the left count |
| JoinCost.CostMonotoneInLeftCount | MonetDB5/optimizer/opt_joinpath.c:322-426 | the cost is non-decreasing in the left count, with the right operand and all flags fixed |
| JoinCost.LeftPathUnguarded | MonetDB5/optimizer/opt_joinpath.c:367-421 | for a left join path, on every pair of operands, the divisor is the one the first matching rule among the nine rules without a `flag != 0` guard gives (`FirstMatch` over `UnguardedRules`, in source order) |
| JoinCost.LeftPathSkipsReorderingRules | MonetDB5/optimizer/opt_joinpath.c:375-417 | for a left join, the rules guarded by `flag != 0` are skipped: an input that would match only those rules gets divisor 1 |
| JoinCost.BaseCostAsWritten | MonetDB5/optimizer/opt_joinpath.c:360-364 | the estimate as written, with the product guard in wrapping BUN arithmetic; it agrees with the base estimate whenever a key flag decides |
| JoinCost.WrappedProductRatesCrossProductFree | MonetDB5/optimizer/opt_joinpath.c:361 | two key-less operands of 2^32 rows each: the wrapped product is 0, so the estimate as written is 0 instead of BUN_MAX |
| PathRun.KernelOp | MonetDB5/optimizer/opt_joinpath.c:465-476 | only pair 0 of a left join path uses the left join; flag 0 at j > 0 falls through to the plain join; flag 2 uses the semijoin |
| PathRun.CheapestBelowIsLeast | MonetDB5/optimizer/opt_joinpath.c:439-453 | the pair chosen among the first n has the minimum estimate, and every earlier pair is strictly dearer (ties go to the lowest index) |
| PathRun.CheapestIsCheapest | MonetDB5/optimizer/opt_joinpath.c:439-453 | the selected pair is a valid pair index with minimum estimate and the lowest index among the minima |
| PathRun.CheapestIsUnique | MonetDB5/optimizer/opt_joinpath.c:439-453 | at most one pair satisfies that selection rule |
| PathRun.Spliced | MonetDB5/optimizer/opt_joinpath.c:521-526 | splicing keeps operands before j, puts the result at j, shifts the later operands left, and is one shorter |
| PathRun.ReversedElements | MonetDB5/optimizer/opt_joinpath.c:479-480 | releasing from the top down gives up every handle exactly once, in reverse order |
| PathRun.Step | MonetDB5/optimizer/opt_joinpath.c:437-527 | each round either shortens the operand list by one or keeps it and strictly increases the number of postponed operands (the termination measure) |
| PathRun.StepBailsOut | MonetDB5/optimizer/opt_joinpath.c:477-494 | a failed pair that was already postponed, or a failure that leaves every operand postponed, ends the run, releasing everything |
| PathRun.StepPostpones | MonetDB5/optimizer/opt_joinpath.c:484-498 | otherwise a failure marks both operands postponed and the loop continues on the same operands |
| PathRun.StepJoins | MonetDB5/optimizer/opt_joinpath.c:499-526 | on success both operands are released, the result is spliced in, all flags are cleared, and the list is one shorter |
| PathRun.RunConserves | MonetDB5/optimizer/opt_joinpath.c:429-531 | every run conserves references: operands plus created BATs equal released handles plus the returned BAT, on success and on failure |
| PathRun.RunRetries | MonetDB5/optimizer/opt_joinpath.c:449 | with the selection as written, a run fails at most twice; it succeeds exactly when nothing failed; every kernel call either created a BAT or failed |
| PathRun.RunSingle | MonetDB5/optimizer/opt_joinpath.c:438 | a single operand is returned as is, with no kernel call and nothing released |
| PathRun.RunAlwaysSucceeds | MonetDB5/optimizer/opt_joinpath.c:438-531 | with an always-succeeding kernel, exactly N−1 joins run, no failure occurs, 2(N−1) handles are released, and a result is returned |
| PathRun.FailsAtOnce | MonetDB5/optimizer/opt_joinpath.c:477-494 | with two operands and an always-failing kernel, the first failure postpones both and ends the run |
| PathRun.FailsTwice | MonetDB5/optimizer/opt_joinpath.c:449 | with more operands and an always-failing kernel, the same cheapest pair is retried and its second failure ends the run |
| PathRun.RunAlwaysFails | MonetDB5/optimizer/opt_joinpath.c:477-494 | an always-failing kernel gives NULL after min(N−1, 2) calls; nothing is created; every handle is released in reverse order |
| JoinExec.SelectPair | MonetDB5/optimizer/opt_joinpath.c:439-453 | the selection loop, with its postponement test as written, returns the cheapest pair under the capped estimate `JoinCost.Cost`, not the wrapping estimate of line 361 |
| JoinExec.ReleaseAll | MonetDB5/optimizer/opt_joinpath.c:479-480 | the release loop gives up the first `top` handles, last first |
| JoinExec.CountPostponed | MonetDB5/optimizer/opt_joinpath.c:486-488 | the count is the number of postponed operands below `top` |
| JoinExec.PostponePair | MonetDB5/optimizer/opt_joinpath.c:484-488 | both operands of the pair are flagged, nothing else changes, and the new count is returned |
| JoinExec.ClearPostponed | MonetDB5/optimizer/opt_joinpath.c:501-502 | every flag below `top` is cleared |
| JoinExec.SplicePair | MonetDB5/optimizer/opt_joinpath.c:521-526 | the array's first top−1 entries become the spliced operand list |
| JoinExec.FailRound | MonetDB5/optimizer/opt_joinpath.c:477-498 | the failure branch either ends with the run's final result or continues in a state that computes the same run, with more postponed operands |
| JoinExec.JoinRound | MonetDB5/optimizer/opt_joinpath.c:499-526 | the success branch leaves a one-shorter state with no postponed operand that computes the same run |
| JoinExec.Round | MonetDB5/optimizer/opt_joinpath.c:465-526 | one round either ends with the run's result or makes progress (fewer operands or more postponed ones) towards the same result |
| JoinExec.JoinPathBody | MonetDB5/optimizer/opt_joinpath.c:429-531 | the executor returns, releases and creates exactly what `PathRun.JoinPathRun` describes, and its result is `joins[0]`; pairs are ranked by the capped estimate `JoinCost.Cost` |
| JoinEntry.KindOf | MonetDB5/optimizer/opt_joinpath.c:570 | joinPath gives flag 1, leftjoinPath flag 0, anything else flag 2 |
| JoinEntry.ScanArgs | MonetDB5/optimizer/opt_joinpath.c:547-565 | the argument loop fixes all operands or stops early; it drops a descriptor exactly when it stops on a type mismatch |
| JoinEntry.ScanFixedIff | MonetDB5/optimizer/opt_joinpath.c:547-565 | the loop fixes exactly the operand lists whose descriptors all exist and chain tail-to-head, with void and oid compatible |
| JoinEntry.ScanStopped | MonetDB5/optimizer/opt_joinpath.c:547-563 | a stopped loop has fixed a chained proper prefix; it stops on a missing descriptor (BatAccess) or on a head that does not chain (TypeMismatch) |
| JoinEntry.FixArgs | MonetDB5/optimizer/opt_joinpath.c:547-565 | the argument loop over the `joins` array fixes what `ScanArgs` describes; on an error it releases every fixed handle, including the mismatching descriptor. This is the corrected error path of Finding 2: the source skips that descriptor |
| JoinEntry.JoinPathEntry | MonetDB5/optimizer/opt_joinpath.c:535-577 | the entry point delivers exactly `EntryCorrected`: the executor's result, or its exception, with every reference accounted for |
| JoinEntry.EntryBalanced | MonetDB5/optimizer/opt_joinpath.c:535-577 | every fixed or created reference is released or handed to the caller; an error other than ObjCreate happens exactly when the argument loop stops |
| JoinEntry.EntryAgrees | MonetDB5/optimizer/opt_joinpath.c:550-563 | the code as written and the corrected code differ exactly on a type mismatch |
| JoinEntry.MismatchLeaks | MonetDB5/optimizer/opt_joinpath.c:550-563 | as written, a type mismatch leaks exactly the one descriptor fixed for the mismatching argument |
| JoinEntry.MismatchExample | MonetDB5/optimizer/opt_joinpath.c:550-563 | a concrete two-argument call whose second head is neither oid nor void leaks a reference as written |
| JoinFusion.Producer | MonetDB5/optimizer/opt_joinpath.c:205 | the producer found is the new instruction at the variable's last-assignment index, if that index is in range |
| JoinFusion.Contribution | MonetDB5/optimizer/opt_joinpath.c:204-240 | an argument used at most once whose producer is an algebra join of the same family contributes that producer's arguments; any other argument is copied unchanged |
| JoinFusion.PushedPlain | MonetDB5/optimizer/opt_joinpath.c:204-240 | when no argument can be folded, the expansion copies the argument list unchanged |
| JoinFusion.PushedBelow | MonetDB5/optimizer/opt_joinpath.c:204-240 | the expanded arguments are all existing variables |
| JoinFusion.PathName | MonetDB5/optimizer/opt_joinpath.c:270-275 | join and leftjoin become paths when argc > 3, semijoin when argc > 2; otherwise the name is kept |
| JoinFusion.SetPc | MonetDB5/optimizer/opt_joinpath.c:282-283 | every result of the pushed instruction records its index as the last assignment; other variables keep theirs |
| JoinFusion.ExemptionIgnoresNeighbour | MonetDB5/optimizer/opt_joinpath.c:256-261 | the type test as written lets an argument typed [void,oid] precede an argument of any head type, while an argument typed [x,oid] with x other than void cannot |
| JoinFusion.Fused | MonetDB5/optimizer/opt_joinpath.c:196-279 | a fusion happens only for a pair join; its argument list is the expansion, strictly longer than the original, over existing variables, and passing the type test; it keeps the module and results and is renamed by `PathName` |
| JoinFusion.FusedExactly | MonetDB5/optimizer/opt_joinpath.c:247-278 | the fusion decision in both directions: an instruction is fused exactly when it is a pairwise algebra join whose expansion is longer than its argument vector and passes the type test; the expansion mentions only existing variables |
| JoinFusion.ExpansionBelow | MonetDB5/optimizer/opt_joinpath.c:197-246 | every entry of the expanded argument vector is an existing variable |
| JoinFusion.FuseStep | MonetDB5/optimizer/opt_joinpath.c:194-284 | each round appends exactly one instruction and keeps the earlier output and the type table's size |
| JoinFusion.FusePrefix | MonetDB5/optimizer/opt_joinpath.c:194-284 | the pass emits one instruction per input instruction, over existing variables |
| JoinFusion.StepInPlace | MonetDB5/optimizer/opt_joinpath.c:247-281 | each round pushes p or its fused form, and counts an action exactly when the pushed instruction differs from p |
| JoinFusion.FuseInPlace | MonetDB5/optimizer/opt_joinpath.c:194-284 | instruction order is preserved: output i is input i, or its fused path with the same module, results and first result |
| JoinFusion.FuseCountsActions | MonetDB5/optimizer/opt_joinpath.c:276-278 | `actions` is exactly the number of instructions the pass replaced |
| JoinFusion.FuseTypesLocal | MonetDB5/optimizer/opt_joinpath.c:267-269 | only the result variable of a fused instruction gets a new type or a fixed-type mark |
| JoinFusion.KeptUnlessFoldable | MonetDB5/optimizer/opt_joinpath.c:247-251 | an instruction that is not a pair join, or none of whose arguments can be folded, is pushed unchanged; types, marks and actions are unchanged too |
| JoinFusion.FusedTyped | MonetDB5/optimizer/opt_joinpath.c:256-278 | a fused instruction passed the type test; its result gets the head type of its first argument and the tail type of its last; it is marked fixed and counts one action; no other type changes |
| SubPath.PairsOf | MonetDB5/optimizer/opt_joinpath.c:71-72 | a join path yields its adjacent argument pairs in order, argc−1−retc of them; other instructions yield none |
| SubPath.Search | MonetDB5/optimizer/opt_joinpath.c:73-78 | the search finds the highest candidate with the pair, or reports that there is none |
| SubPath.CollectSpec | MonetDB5/optimizer/opt_joinpath.c:66-86 | the table has distinct pairs and at most `mb->stop` entries; each count equals the pair's occurrences; no shared join exists yet; every pair is present unless the table filled up |
| SubPath.TallySpec | MonetDB5/optimizer/opt_joinpath.c:73-85 | tallying one more pair keeps that description |
| SubPath.SearchShared | MonetDB5/optimizer/opt_joinpath.c:103-104 | the search finds the highest candidate with the pair and a count above one, or reports that there is none |
| SubPath.FirstShared | MonetDB5/optimizer/opt_joinpath.c:101-104 | the first position of a join path whose pair is shared, with its candidate; no earlier pair of that path is shared |
| SubPath.Replace | MonetDB5/optimizer/opt_joinpath.c:116-125 | the pair at j is replaced by the shared result, so argc shrinks by one; the module and results are kept; when three arguments remain, the function becomes the pairwise join of the path, otherwise it keeps its name |
| SubPath.RewriteStepShape | MonetDB5/optimizer/opt_joinpath.c:97-137 | each instruction either is pushed unchanged (it is no path, or none of its pairs is shared) or has exactly its first shared pair j replaced, using the highest shared candidate k for that pair. No earlier pair of the path is shared, and only k's entry in the table changes. If k had no join yet, its join is created into the next fresh variable, right before the rewritten path, and the type table grows by one. Otherwise k's variable is reused, its join is already in the new program, and nothing else grows |
| SubPath.RewriteStepInv | MonetDB5/optimizer/opt_joinpath.c:100-137 | a round keeps the invariant. Each created join is the pairwise join of exactly one shared candidate, computing that candidate's fresh variable, and every shared candidate has one. Fresh variables are numbered in creation order, and each is computed before any instruction that uses it |
| SubPath.RewritePrefixInv | MonetDB5/optimizer/opt_joinpath.c:100-137 | the invariant holds after every prefix of the program |
| SubPath.SubPathSpec | MonetDB5/optimizer/opt_joinpath.c:52-150 | the new program is the old one plus one new instruction per new variable, over existing variables; old types are kept; at most one replacement per instruction; only pairs seen at least twice get a shared join, which is in the program |
| SubPath.SubPathRewrites | MonetDB5/optimizer/opt_joinpath.c:52-150 | the instructions of the new program that compute old variables are the old instructions, in order, each rewritten at most once, at its first shared pair, with the final shared variable of that pair's candidate. The other instructions are the created joins: the x-th computes fresh variable x past the old ones, and it is the pairwise join of the one candidate holding that variable. Every shared candidate has its join, and each join comes before the first instruction that uses its result |
| SubPath.RewritePrefixOrder | MonetDB5/optimizer/opt_joinpath.c:97-137 | after n rounds, the instructions computing old variables are the first n old instructions in order, each rewritten as the current table says |
| SubPath.FirstSharedSame | MonetDB5/optimizer/opt_joinpath.c:101-104 | which pair of a path is rewritten depends only on the candidates' pairs and counts, not on which candidates already hold a join |
| SubPath.OwnerKept | MonetDB5/optimizer/opt_joinpath.c:105-114 | giving one more candidate a new shared variable leaves the owner of every other variable alone |
| SubPath.AllOld | MonetDB5/optimizer/opt_joinpath.c:52-150 | a program over the old variables consists of old instructions only, with no created joins (the pass with no candidates returns it as is) |
| SubPath.NoRepeatNoChange | MonetDB5/optimizer/opt_joinpath.c:88-137 | when no candidate has a count above one, the rewriting leaves program, types and table unchanged and counts no action |
| SubPath.PushUnshared | MonetDB5/optimizer/opt_joinpath.c:103-136 | with no repeated candidate, a round just pushes the instruction |
| SubPath.DistinctPairsUnchanged | MonetDB5/optimizer/opt_joinpath.c:52-150 | a program in which no pair recurs comes back unchanged, with 0 actions |
| Optimizer.SetLast | MonetDB5/optimizer/opt_joinpath.c:282-283 | the loop records the index for every result, as `SetPc` does |
| Optimizer.FindCandidate | MonetDB5/optimizer/opt_joinpath.c:73-78 | the downward search loop returns the highest candidate with the pair, or none when no candidate has it |
| Optimizer.FindSharedCandidate | MonetDB5/optimizer/opt_joinpath.c:103-104 | the downward search loop returns the highest candidate with the pair and a count above one |
| Optimizer.FindShared | MonetDB5/optimizer/opt_joinpath.c:101-104 | the nested loops find the first shared pair of a path and its candidate |
| Optimizer.TallyOne | MonetDB5/optimizer/opt_joinpath.c:73-85 | one pair is tallied as `Tally` describes |
| Optimizer.TallyPairs | MonetDB5/optimizer/opt_joinpath.c:72-86 | the loop over a path's pairs tallies them all, in order |
| Optimizer.TallyInstr | MonetDB5/optimizer/opt_joinpath.c:70-86 | one instruction's pairs are tallied in order; an instruction that is not a join path adds nothing |
| Optimizer.CollectNext | MonetDB5/optimizer/opt_joinpath.c:70-86 | after instruction i, the table is the collection of all pairs of the first i+1 instructions |
| Optimizer.CountArgs | MonetDB5/optimizer/opt_joinpath.c:190-191 | one instruction's arguments are added to the use counts |
| Optimizer.Contribute | MonetDB5/optimizer/opt_joinpath.c:205-240 | the loop body computes an argument's contribution from the use-count table and the last-assignment table |
| Optimizer.ExpandArgs | MonetDB5/optimizer/opt_joinpath.c:202-241 | the argument loop builds exactly the expanded argument list |
| Optimizer.MalBlk.CountUses | MonetDB5/optimizer/opt_joinpath.c:188-192 | the use-count table holds, for every variable, its number of argument uses in the block |
| Optimizer.MalBlk.TypeChains | MonetDB5/optimizer/opt_joinpath.c:256-265 | the type-test loop accepts exactly when no adjacent pair breaks the test as written |
| Optimizer.MalBlk.TryFuse | MonetDB5/optimizer/opt_joinpath.c:196-266 | the expansion and type test give exactly the fused form `Fused` describes, or none |
| Optimizer.MalBlk.FuseOne | MonetDB5/optimizer/opt_joinpath.c:195-283 | one round of the loop updates the block, the last-assignment table and the action count as `FuseStep` does |
| Optimizer.MalBlk.FuseJoins | MonetDB5/optimizer/opt_joinpath.c:184-284 | the fusion loop leaves the block, its types and fixed-type marks, and the action count as `FusePrefix` describes, and keeps the block well formed |
| Optimizer.MalBlk.CollectCandidates | MonetDB5/optimizer/opt_joinpath.c:66-86 | the collection loop builds the table of all pairs of the block, capped at its length |
| Optimizer.MalBlk.RewriteOne | MonetDB5/optimizer/opt_joinpath.c:100-136 | one round of the rewriting loop updates block, types, table and actions as `RewriteStep` does |
| Optimizer.MalBlk.RewriteSubPaths | MonetDB5/optimizer/opt_joinpath.c:93-137 | the rewriting loop leaves block, types and actions as `RewritePrefix` describes |
| Optimizer.MalBlk.JoinSubPath | MonetDB5/optimizer/opt_joinpath.c:52-150 | OPTjoinSubPath leaves block, types and actions as `SubPathPass` describes, keeping the block well formed |
| Optimizer.MalBlk.JoinPathImplementation | MonetDB5/optimizer/opt_joinpath.c:152-297 | an inlined function is untouched and returns 0; otherwise the fusion pass runs, and the subpath pass follows exactly when something was fused; the actions are summed |
| TraceNames.AddNamePair | pathfinder/compiler/algebra/prop/prop_trace_names.c:53-59 | exactly one pair (ori, cur) is appended at the end; existing entries are unchanged |
| TraceNames.AddAll | pathfinder/compiler/algebra/prop/prop_trace_names.c:98-101 | the parent's pairs are appended in order |
| TraceNames.DiffNp | pathfinder/compiler/algebra/prop/prop_trace_names.c:65-74 | only the first pair whose current name is `cur` is invalidated; the length, every original name and all other pairs are unchanged; with no such pair nothing changes |
| TraceNames.MarkGenerated | pathfinder/compiler/algebra/prop/prop_trace_names.c:68-73 | the loop with its early exit computes `DiffNp` |
| TraceNames.FirstOldFrom | pathfinder/compiler/algebra/prop/prop_trace_names.c:172-177 | the search finds the first projection item, from j on, whose new name is the column, and returns that item's old name; it reports none exactly when no such item exists |
| TraceNames.Renamed | pathfinder/compiler/algebra/prop/prop_trace_names.c:161-179 | an invalid pair is carried over; a pair whose current name is a projection's new name takes the first such item's old name; any other pair is dropped |
| TraceNames.ProjectMembers | pathfinder/compiler/algebra/prop/prop_trace_names.c:154-182 | the projected list holds exactly the renamed images of the pairs that survive |
| TraceNames.ProjectLoop | pathfinder/compiler/algebra/prop/prop_trace_names.c:159-181 | the projection loop builds the projected list |
| TraceNames.RouteMembers | pathfinder/compiler/algebra/prop/prop_trace_names.c:195-212 | a child receives exactly the pairs whose current name is in its schema, plus the invalid pairs |
| TraceNames.RouteLoop | pathfinder/compiler/algebra/prop/prop_trace_names.c:227-245 | the routing loop builds the routed list |
| TraceNames.SemiPairs | pathfinder/compiler/algebra/prop/prop_trace_names.c:216-225 | a semijoin's right child receives only the first pair for the join column `att2`, or nothing |
| TraceNames.SemiLoop | pathfinder/compiler/algebra/prop/prop_trace_names.c:218-224 | the loop with its early exit computes `SemiPairs` |
| TraceNames.Nulled | pathfinder/compiler/algebra/prop/prop_trace_names.c:143-147 | a base table reports each of its pairs to the goal with current name NULL |
| TraceNames.Absorb | pathfinder/compiler/algebra/prop/prop_trace_names.c:90-101 | fragment, frag_union and empty_frag do not absorb their parent's pairs; every other operator appends them after its own |
| TraceNames.Settled | pathfinder/compiler/algebra/prop/prop_trace_names.c:118-441 | a generating operator invalidates its column; fragment and trace operators empty their list; others keep it |
| TraceNames.SettledHandOver | pathfinder/compiler/algebra/prop/prop_trace_names.c:154-248 | a projection appends the renamed pairs to the list handed to its child; the join cases end with an empty hand-over list; other kinds hand over the list unchanged |
| TraceNames.SettledOris | pathfinder/compiler/algebra/prop/prop_trace_names.c:115-441 | settling a node, its hand-over list and a base table's report to the goal introduce no original name that was not already in the node's lists |
| TraceNames.HandOverOris | pathfinder/compiler/algebra/prop/prop_trace_names.c:184-248 | the lists a join hands to its children introduce no new original name |
| TraceNames.InitPairs | pathfinder/compiler/algebra/prop/prop_trace_names.c:511-512 | tracing starts from one pair (a, a) per requested name, in order |
| TraceNames.ResolveInit | pathfinder/compiler/algebra/prop/prop_trace_names.c:511-512 | on the initial list every requested name traces to itself |
| TraceNames.ResolveFound | pathfinder/compiler/algebra/prop/prop_trace_names.c:543-552 | a name resolves to a non-NULL name only if all of its pairs agree on it; a name without pairs resolves to NULL |
| TraceNames.DeleteAt | pathfinder/compiler/algebra/prop/prop_trace_names.c:531-533 | deletion moves the last entry into slot j and shortens the list by one |
| TraceNames.MergeDuplicate | pathfinder/compiler/algebra/prop/prop_trace_names.c:524-534 | merging a duplicate of entry i invalidates entry i on a conflicting current name, deletes the duplicate, and keeps the round's invariant |
| TraceNames.MergeEnd | pathfinder/compiler/algebra/prop/prop_trace_names.c:522-536 | at the end of round i, the first i+1 entries are distinct and merged, and every later entry has another original name |
| TraceNames.Prune | pathfinder/compiler/algebra/prop/prop_trace_names.c:522-536 | after pruning, no two entries share an original name; every original name survives; an entry keeps a current name only if all of its duplicates agreed, otherwise it becomes NULL |
| TraceNames.PruneOne | pathfinder/compiler/algebra/prop/prop_trace_names.c:523-535 | one round of the inner loop, with its swap-with-top deletion and `j--`, keeps the pruning invariant |
| TraceNames.Fill | pathfinder/compiler/algebra/prop/prop_trace_names.c:539-553 | the output list has the input's length. Entry i is the current name of the pruned entry whose original name is `list.atts[i]`, or NULL if there is none, and that is the traced name in the collected list |
| TraceNames.NameTracer.MapNames | pathfinder/compiler/algebra/prop/prop_trace_names.c:81-447 | the call is logged with the list it got; the reference counter drops by one; the parent's pairs are absorbed; until the counter reaches 0, or at the goal, nothing else changes; otherwise the node's list is settled, each child is logged with the list its operator kind hands it (`HandedOn`), and a base table appends its pairs, NULL-named, to the goal's list; nodes before n keep their state; no original name outside the requested ones enters any list |
| TraceNames.NameTracer.Settle | pathfinder/compiler/algebra/prop/prop_trace_names.c:115-446 | the operator's case is applied to its own list and hand-over list. Each child is then called with what its kind hands on (`HandedOn`): a projection's child the renamed pairs, a join's children the routed pairs (a semijoin's right child only att2's pair), a trace's left child the list and its right child the emptied list, and any other operator's present children the settled list, left first. A base table appends its pairs with NULL current names to the goal's list, exactly so when it has no children; the goal's list only grows |
| TraceNames.NameTracer.SettleInPlace | pathfinder/compiler/algebra/prop/prop_trace_names.c:119-446 | a base table, generating, fragment or pass-through operator settles its own list (invalidated column, emptied list, or unchanged), leaves its hand-over list alone, and calls each present child with the settled list, left first; a base table's NULL-named pairs are appended to the goal's list |
| TraceNames.NameTracer.Children | pathfinder/compiler/algebra/prop/prop_trace_names.c:445-446 | the left child, then the right child, is called with the node's own list; the node's own state is unchanged, earlier nodes keep theirs, and the goal's list only grows |
| TraceNames.NameTracer.ProjectChild | pathfinder/compiler/algebra/prop/prop_trace_names.c:154-182 | the renamed pairs are appended to the hand-over list, and the child is called with that list |
| TraceNames.NameTracer.HandTo | pathfinder/compiler/algebra/prop/prop_trace_names.c:191-246 | one child call of a join: the child is handed the node's list extended by the new pairs, the list is emptied afterwards, and nodes above the node are untouched |
| TraceNames.NameTracer.TraceChildren | pathfinder/compiler/algebra/prop/prop_trace_names.c:403-410 | the left child is called with the node's list; the list is emptied, and the right child is called with the empty list |
| TraceNames.NameTracer.JoinChildren | pathfinder/compiler/algebra/prop/prop_trace_names.c:184-248 | the left child is called with the hand-over list extended by the pairs routed to its schema. The right child is then called with the pairs routed to its own schema, or, for a semijoin, with the first pair for `att2`. The hand-over list is emptied after each call |
| TraceNames.NameTracer.Trace | pathfinder/compiler/algebra/prop/prop_trace_names.c:490-556 | one output per requested name. Every pair collected at the goal has a requested name as its original name. The goal's list is pruned in place to distinct original names, exactly those collected, each with its merged current name. Output i is read from that list, and is NULL when the name is missing. Starting at the goal returns the names unchanged |
| TraceNames.NameTracer.Report | pathfinder/compiler/algebra/prop/prop_trace_names.c:516-553 | the goal's list is pruned in place and each requested name is read from it; no other list changes |
| DataCyclotron.Lower | MonetDB5/optimizer/opt_datacyclotron.c:152-155 | upper-case letters map to lower case; every other character is unchanged |
| DataCyclotron.FindFrom | MonetDB5/optimizer/opt_datacyclotron.c:150-161 | the walk returns the first matching entry from i on, or none when none matches |
| DataCyclotron.FindRegist | MonetDB5/optimizer/opt_datacyclotron.c:147-162 | findRegist returns the first entry whose names match ignoring case and whose access matches exactly, or NULL exactly when none does |
| DataCyclotron.NewRegist | MonetDB5/optimizer/opt_datacyclotron.c:67-79 | a new entry has the key, no partitions and a well-formed buffer |
| DataCyclotron.AppendPart | MonetDB5/optimizer/opt_datacyclotron.c:82-91 | appending puts the partition at index `partitions` and increments the count. The buffers are resized to `partitions + step` when the count is a positive multiple of the step, and kept otherwise. The entry stays well formed |
| DataCyclotron.Rem | MonetDB5/optimizer/opt_datacyclotron.c:82 | the remainder is below the step and at most the dividend |
| DataCyclotron.AppendGrowsWhenFull | MonetDB5/optimizer/opt_datacyclotron.c:77-91 | on entries that have only grown (`Tight`: at most one step of free space), the buffers grow by one step exactly when `partitions` is a positive multiple of the step, which is exactly when they are full, and stay tight |
| DataCyclotron.RemovePartAsWrittenBreaks | MonetDB5/optimizer/opt_datacyclotron.c:104-110 | as written, adding one partition to a new entry and then removing partition 0 twice makes its count −1; an index past the end drops the last partition |
| DataCyclotron.RemovePart | MonetDB5/optimizer/opt_datacyclotron.c:104-110 | a removal that changes the entry removes one partition at an index in range; the key and capacity are kept |
| DataCyclotron.RemovePartValid | MonetDB5/optimizer/opt_datacyclotron.c:97-113 | removal at an index in range drops exactly that partition, keeps the others in order and keeps the entry well formed; any other index changes nothing |
| DataCyclotron.CheckInstr | MonetDB5/optimizer/opt_datacyclotron.c:165-174 | returns 1 exactly when p is among the first `stop` statements, and 0 otherwise |
| DataCyclotron.Catalog.Find | MonetDB5/optimizer/opt_datacyclotron.c:147-162 | the list walk returns what `FindRegist` describes |
| DataCyclotron.Catalog.AddRegist | MonetDB5/optimizer/opt_datacyclotron.c:63-94 | a found entry gets the partition appended; otherwise a new entry holding just that partition is prepended; other entries are unchanged |
| DataCyclotron.Catalog.RemovePartRegist | MonetDB5/optimizer/opt_datacyclotron.c:96-113 | a missing entry gives NULL and changes nothing; otherwise only the found entry changes, as `RemovePart` describes |
| DataCyclotron.Catalog.DropRegist | MonetDB5/optimizer/opt_datacyclotron.c:115-144 | the first entry matching case-sensitively is unlinked and the function returns 1 |
| DataCyclotron.DropKeepsOthers | MonetDB5/optimizer/opt_datacyclotron.c:119-134 | unlinking keeps the remaining entries in their relative order |

## Left out

- PathRun.PairCost, PathRun.Cheapest, JoinExec.SelectPair, JoinExec.JoinPathBody:
  pairs are ranked by the capped estimate `JoinCost.Cost` (see Findings),
  not by the estimate of opt_joinpath.c:361 as written. Where the product
  of two row counts wraps, the source rates that pair as free and may pick
  a different pair than the model does.
- The real join kernels (`BATjoin`, `BATleftjoin`, `BATsemijoin`) are not
  modelled. They are a deterministic function parameter that yields a BAT
  or nothing.
- `BATsetaccess`, the BBP internals and the error buffer reset are not
  modelled. Reference counting is modelled as sequences of released and
  created handles.
- The `#if 0` sampling code of `ALGjoinCost`, and all `OPTDEBUGjoinPath`,
  `ALGODEBUG` and `DEBUGoptimizers` printing, are left out.
- Allocation failures are left out: `GDKzalloc`, `GDKmalloc`,
  `GDKrealloc` and `newMalBlkStmt` returning NULL. The passes do not roll
  back on them.
- Freeing of old instructions beyond `mb->stop` (up to `mb->ssize`), and
  of the candidate, `pc` and `varcnt` arrays, is left out.
- The recursion of `OPTjoinSubPath` is commented out in the source and is
  not modelled.
- JoinCost.BaseCost: gdk.h is not part of this model. BUN_MAX is taken
  from a 64-bit build (BUN_NONE = 2^63−1, BUN_MAX = BUN_NONE−1).
- JoinEntry.JoinPathEntry requires at least one argument. With none,
  `top` stays 0. `ALGjoinPathBody` then skips its loop and returns
  `joins[0]` (opt_joinpath.c line 528), a slot of the `GDKmalloc`'d array
  (line 539) that was never written.
- The last-assignment table of the fusion pass starts zeroed. A variable
  not assigned yet therefore finds the first new instruction as its
  producer. The model keeps this behaviour (`JoinFusion.Producer`), but no
  property about it is proved.
- The variable table grows in the subpath pass through `newStmt`. The new
  variable's type is modelled as `VarType(Any, Any)`, because
  `TYPE_any` is assigned by the MAL layer, which is not part of this model.
- The `inlineProp` test on the block's first variable is a boolean
  parameter of Optimizer.MalBlk.JoinPathImplementation.
- The recursion-operator cases and `la_internal_op` raise fatal errors in
  `map_names` and are left out.
- The XML constructor kinds (`la_twig`, `la_fcns`, `la_docnode`,
  `la_element`, `la_textnode`, `la_comment`, `la_attribute`, `la_processi`,
  `la_content`) are left out, together with the `twig_iter` parameter they
  pass down. The model therefore does not capture these effects on the
  name-pair list and on the visits of the children
  (prop_trace_names.c:310-383, 445-446):
  - `la_twig` invalidates its item column as `diff_np` does, then visits
    only its left child, handing down its iter column as `twig_iter`.
  - `la_docnode`, `la_element`, `la_textnode`, `la_comment`,
    `la_attribute`, `la_processi` and `la_content` rename every current
    name equal to `twig_iter` to their own iter column before visiting
    their children.
  - `la_docnode` and `la_element` visit the left child with no `twig_iter`
    and the right child with their iter column; `la_textnode`,
    `la_comment`, `la_attribute` and `la_processi` visit only the left
    child.
  - `la_content` visits its right child first, then empties the name-pair
    list and visits its left child.
  - `la_fcns` visits both children with `twig_iter`, and then, falling
    through to the end of `map_names`, visits both again with no
    `twig_iter`.
- The remaining operator kinds are grouped by how tracing treats them
  (`TraceNames.Kind`).
- `PFprop_infer_refctr`, `PFprop_reset` and `PFla_dag_reset` are not
  modelled. The reference counters are an input of
  TraceNames.NameTracer.Trace, and the lists start empty.
- The debug-only `find_goal` check is left out. Operators are numbered so
  that children come after their parents, which makes the DAG's
  acyclicity explicit.
- `printRegists` (I/O only), the `DCY*` stubs (which only throw "not
  implemented") and `OPTdatacyclotronImplementation` (MAL plumbing) are
  left out.
- `strcpy` into the fixed-size name fields of a catalog entry can
  overflow. Names are unbounded strings here.
- `DCYPARTITIONS` is defined in a header that is not part of this model.
  The catalog therefore takes the growth step as a constructor parameter.
- DataCyclotron.Catalog.DropRegist requires that a matching entry exists,
  because the source dereferences NULL otherwise.
- DataCyclotron.Catalog.RemovePartRegist changes nothing for an index
  outside 0 .. count−1, unlike the source (Finding 3):
  - with the index at or past a positive count, the source's shift loop
    does not run, and the decrement silently drops the last partition;
  - on an entry whose partitions were all removed, the count becomes −1;
  - a negative index makes the loop write before the start of the
    arrays.
- After removals, an entry can hold far fewer partitions than its
  buffers. The next append at a multiple of the step then reallocates
  them to `partitions + step`, which shrinks them; DataCyclotron.AppendPart
  states this. DataCyclotron.AppendGrowsWhenFull covers only entries with
  at most one step of free space (`Tight`), which removals can break.
- `%` on the partition count is modelled by repeated subtraction
  (`DataCyclotron.Rem`). Both operands are non-negative there.

## Findings

| source | as written | input that shows it | evidently intended | confidence | as-written member | corrected member |
|---|---|---|---|---|---|---|
| MonetDB5/optimizer/opt_joinpath.c:361 | `lc * rc >= BUN_MAX` is computed in unsigned BUN arithmetic, so the product wraps | two key-less operands of 2^32 rows each: the product wraps to 0, the guard fails and the estimate is 0, so a cross product looks free | cap the estimate at BUN_MAX whenever the true product reaches it | not executed | JoinCost.BaseCostAsWritten, JoinCost.WrappedProductRatesCrossProductFree | JoinCost.BaseCost, JoinCost.CostMonotoneInLeftCount, PathRun.CheapestIsCheapest, JoinExec.SelectPair, JoinExec.JoinPathBody |
| MonetDB5/optimizer/opt_joinpath.c:550-563 | on a type mismatch, `b` is set to NULL without releasing the descriptor just fixed for it; only the earlier operands are released | arguments [1, 2] where BAT 1 is [void,oid] and BAT 2 is [x,oid] with x neither oid nor void: BAT 2's reference leaks | release the mismatching descriptor too, so every fixed reference is released on the error path | not executed | JoinEntry.EntryAsWritten, JoinEntry.MismatchLeaks, JoinEntry.MismatchExample | JoinEntry.EntryCorrected, JoinEntry.EntryBalanced, JoinEntry.FixArgs, JoinEntry.JoinPathEntry |
| MonetDB5/optimizer/opt_datacyclotron.c:104-110 | `removePartRegist` decrements `partitions` whatever `part` is | add one partition to a new entry, remove partition 0, then remove partition 0 again: the count becomes −1 | remove only a partition that exists, and leave the entry unchanged otherwise | not executed | DataCyclotron.RemovePartAsWritten, DataCyclotron.RemovePartAsWrittenBreaks | DataCyclotron.RemovePart, DataCyclotron.RemovePartValid, DataCyclotron.Catalog.RemovePartRegist |
