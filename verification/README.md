# Replicated histories: a verified model

This project models the parts of a peer-to-peer library of replicated, hash-linked objects
where its state is hardest to keep right, and proves what those parts are for. Mutations are
ops in a DAG: each op names the ops it was applied after. An object applies ops in any order
that respects the DAG; everything it keeps besides has to come out the same everywhere.

The modules follow the program:

- **Forks** (`ForkOps`, `ForkableObjects`, `MergeOps`). An object that keeps one branch of its
  DAG as "the current fork": incremental eligibility, terminal ops, fork choice, the two
  backward walks that move the head, and the search for the point where merged branches forked.
- **Undo and redo** (`CausalOps`, `CausalSets`, `StoreCascades`, `CascadeMerits`, `StoreLosses`,
  `StoreRuns`, `StoreClosures`). Ops that rest on other ops are undone and redone in cascades. A
  set whose members depend on which ops are valid, the buffering of ops that arrive early, and the
  store that creates the cascades: which it makes, whether they are deserved, when some are lost,
  and that runs converge.
- **Histories** (`OpHeaders`, `HistoryFragments`, `HistoryWalks`, `CausalSchedules`,
  `CausalWalks`, `CausalWalkExamples`, `HistoryClosures`, `HistoryDeltas`). Fragments of a DAG of
  op headers with five derived indices, walks over them, a causal schedule and when it is
  complete, and the two-sided bounded search for what lies between two states.
- **Collections** (`Ordinals`, `ArrayMaps`, `ArrayListings`, `MutableArrays`, `ArrayMoves`,
  `ArrayReplicas`, `MutableSets`, `MultiMaps`). A dense order of strings, an array addressed
  through it, an observed-remove set.
- **Packing** (`ObjectPackers`, `PackOrders`). Objects packed together with all that they depend
  on, and the order in which they are packed.

`Hashing` and `FiniteSets` are shared by all of them.

Objects whose methods update fields are classes here too, with the same fields; each method is
proved against a definition of what the fields mean, such as "the eligible ops are those that
the recursive definition picks out". What every operation keeps is the `Valid` predicate of the
class, and the theorems about whole runs follow from it, since in a valid state every field is a
function of the set of ops applied so far.

Modelling decisions:

- A content hash covers the whole value. An op, header or literal is represented by the value
  that its hash covers and is identified with its hash, so that hashes are injective and the
  DAGs are acyclic by construction. Elements are represented by their hashes.
- A JavaScript `Set` or `Map` that is iterated over is walked in an arbitrary order, unless the
  order matters for what is proved (lists of choices, queues, the array).
- An exception is a `None`, a `false` or an outcome that says so. Preconditions ask for what
  validation has checked of incoming ops and for ids that are new. A loop of the source that need
  not end (`HistoryDelta.Compute`) stops in the model when a round changes nothing, and says so.
- An `async` method is one step where the program holds no other promise in between; where
  awaits matter (loading an announced op, the pending loop, saving to the store) arrivals, ops
  made locally or other saves come in between.
- The store is the set of what it holds; sequence numbers are added where they are used.

Results that contradict the source's comments or names, each with the lemmas that show it and
say when the source is right:

- Terminal ops of a fork are wrong after an invalidation, except when the invalidated op was not
  eligible and sits on no terminal op (`ChangeValidity`, `TerminalsAfterRemoval`). After the fork
  of another object has switched, they are right exactly if no op that was expelled sits on a
  terminal op of what is left and each terminal op that was expelled is followed by one that was
  admitted (`OnForeignForkChange`); if the fork only shrinks, exactly if no eligible op loses a
  dependency. An object with one op, which is undone, is an instance (`UndoneOpStaysTerminal`).
- The climb after `findForkPoint` never moves (`NoClimbFromForkPoint`).
- The first note on cascades, that an op being stored lies outside of what a stored invalidation
  follows, fails if an invalidation is stored while a save of an op it follows has still to look
  up its target. That condition is exact: a step that avoids it leads to deserved undos only, and
  after one that does not a run can store an undeserved one (`CarefulExactlyWhen`). Such a step
  is reached from an empty store (`CarelessStoreIsReached`); a program that awaits each save
  never takes one (`SequentialCascadesAreMerited`).
- A dependent on another object makes the constructor of an undo throw, and the undos that were
  still to be made are lost: exactly those that no other save sees to (`StepKeepsCovered`), for
  good (`LostForGood`). Over ops that can all be saved, some run loses one if and only if an
  InvalidateAfterOp has a dependent on another object and one of its own object that it does not
  follow, where the latter does not rest on the invalidation nor the former on the undo
  (`LossExactlyWhen`).
- `causalClosureFrom` can leave out a header all of whose predecessors it has listed. It lists a
  header exactly if the walk has turns for it and its ancestors in causal order
  (`ClosedExactlyWhen`). In terms of distances from the start: a part of the history in which
  each header is last given in a later round than what it waits for is always listed
  (`SteadyIsClosed`), even histories among them; a header that waits for one given too late is
  never listed (`LateIsLost`, `UnevenHistoryLosesHeader`); in between the arbitrary order of
  sets decides (`OrderDecides`).
- A delta makes no progress in a round exactly if it has room and gap but no header to go back
  to, and then none in any later round, so that the source loops for ever (`Advance`, `Rounds`).
  That takes a store that lacks a predecessor (`ProgressIsMade`) and can happen to a new delta
  over such a store (`DeltaWithoutEnd`).
- `ObjectPacker` refuses an object that would fill it exactly (`AddObject`). A list in "inverse
  causal order" has a literal before one that depends on it exactly if two ways of dependencies
  cross, which does not happen in trees (`InvertedExactlyWhen`, `TreesAreInOrder`).
- Elements that are inserted into an array without duplicates leave their old positions. The
  position asked for is corrected for that, and they end up there exactly if none of them is shown
  after it and before the corrected position (`LandsExactlyWhen`, `ThreeLandTooEarly`).
- Between an ordinal and itself there is an answer, and it is not between (`Between`).
- Deletions in a `MutableSet` and in a `MutableArray` converge exactly when each addition that
  some deletion names is named by a later one, which validation does not ask (`ReplicasAgreeExactlyWhen`,
  `EntriesAgreeExactlyWhen`).
- The counter of a copied `MultiMap` is wrong unless it is empty (`MultiMap.Clone`).

## Model

| member | source | states |
|---|---|---|
| ForkOps.DequeueWeight | src/data/model/forkable/ForkableObject.ts:367-381 | Replacing the head of a queue by its predecessors lowers the total number of backward paths from the queue: walks without a visited set terminate. |
| ForkableObjects.ForkableObject.ToAddToCurrentFork | src/data/model/forkable/ForkableObject.ts:358-392 | The new ops are exactly the ancestors-or-self of the new head outside the current fork, each once, predecessors first; the forking ops are ancestors inside it and every new op sits on new or forking ops. |
| ForkableObjects.ForkableObject.LastAppearancesReversed | src/data/model/forkable/ForkableObject.ts:383-389 | Reading the queue backwards and keeping first appearances lists the same ops once each in causal order, because every predecessor reappears later in the queue. |
| ForkableObjects.ForkableObject.FindRemainingNextOps | src/data/model/forkable/ForkableObject.ts:416-423 | Found exactly when a successor in the current fork is not going to be removed. |
| ForkableObjects.ForkableObject.ToRemoveFromCurrentFork | src/data/model/forkable/ForkableObject.ts:394-437 | Exactly the ops of the current fork that no forking op follows from are removed, each once, successors first, although ops that are still followed are skipped and met again. |
| ForkableObjects.ForkableObject.KeptIsUpToNewHead | src/data/model/forkable/ForkableObject.ts:470-481 | For an op of the current fork, being at or below a forking op is the same as being at or below the new head. |
| ForkableObjects.ForkableObject.SetCurrentForkTerminalOpTo | src/data/model/forkable/ForkableObject.ts:463-491 | Afterwards the current fork is exactly the ancestors-or-self of the new head (or empty); the event lists the exact differences, additions in causal and removals in reverse causal order; no event exactly when the head stays. |
| ForkableObjects.EligibleSetIsRecursive | src/data/model/forkable/ForkableObject.ts:289-309 | A set of applied ops closed under the one-step test is the recursive definition: valid, dependencies met, and so all the way down. |
| ForkableObjects.ForkableObject.EligibleMeaning | src/data/model/forkable/ForkableObject.ts:289-309 | While the unmet maps are exact, the test on them is the one-step test of eligibility. |
| ForkableObjects.ForkableObject.CascadeEligibleOpAdditions | src/data/model/forkable/ForkableObject.ts:200-221 | The eligible set becomes exact again, grows by exactly the ops reported, and the unmet-predecessor maps stay exact. |
| ForkableObjects.ForkableObject.CascadeEligibleOpRemovals | src/data/model/forkable/ForkableObject.ts:223-241 | The eligible set becomes exact again and shrinks; what is reported is what left together with the seeds; the maps stay exact. |
| ForkableObjects.ForkableObject.IsForkEligibleTerminalOp | src/data/model/forkable/ForkableObject.ts:311-324 | True exactly for eligible ops that no eligible op follows. |
| ForkableObjects.ForkableObject.UpdateEligibleTerminalOps | src/data/model/forkable/ForkableObject.ts:243-287 | The new terminal set as coded, including the removed ops that enter it, and exactly which terminals are reported as added and as removed. |
| ForkableObjects.TerminalsAfterAdditions | src/data/model/forkable/ForkableObject.ts:245-257 | When only additions happen, exact terminals stay exact. |
| ForkableObjects.TerminalsAfterRemoval | src/data/model/forkable/ForkableObject.ts:259-286 | After an invalidation they are exact if and only if the op was not eligible and none of its predecessors was terminal. |
| ForkableObjects.TerminalsAfterLoss | src/data/model/forkable/ForkableObject.ts:259-286 | After dependencies have left their forks they are exact if and only if no eligible op had one of them. |
| ForkableObjects.TerminalsAfterChange | src/data/model/forkable/ForkableObject.ts:243-287 | After a change that admits and expels ops they are exact if and only if no expelled op sits on a terminal op of what is left and each expelled terminal op is followed by an admitted op. |
| ForkableObjects.ChoiceListUnique | src/data/model/forkable/ForkableObject.ts:636-649 | With a strict total rule a set of choices has only one best-first list. |
| ForkableObjects.ForkableObject.ApplyForkChoiceRule | src/data/model/forkable/ForkableObject.ts:616-661 | Fails exactly without a rule; otherwise the choices become the old ones without the removed and with the added ones, best first under a strict total rule, and the head is the first choice, none if there are no choices. |
| ForkableObjects.ForkableObject.Mutate | src/data/model/forkable/ForkableObject.ts:564-599 | Eligibility, maps, choices and current fork are exact again after an op was applied, revalidated or invalidated. |
| ForkableObjects.ForkableObject.Register | src/data/model/forkable/ForkableObject.ts:521-559 | Registering a new op keeps every map exact and admits the op exactly if it passes. |
| ForkableObjects.ForkableObject.Apply | src/data/model/forkable/ForkableObject.ts:517-562 | Applying an op after its predecessors keeps the whole invariant, keeps terminals, choices and head settled, and does nothing the second time. |
| ForkableObjects.ForkableObject.ChangeValidity | src/data/model/forkable/ForkableObject.ts:564-590 | An undo or redo keeps the whole invariant; a redo keeps the state settled; after an undo terminals are exact if and only if the op was not eligible and sits on no terminal op, and then choices and head are settled too; in any case the head is the first choice and the choices are the old ones with what is reported added and removed. |
| ForkableObjects.UndoneOpStaysTerminal | src/data/model/forkable/ForkableObject.ts:259-286 | An instance: in an object with one op, applied and undone, the terminal ops are wrong. |
| ForkableObjects.ForkableObject.MarkDepsAsMet | src/data/model/forkable/ForkableObject.ts:150-160 | The dependency maps stay exact and every op that can now pass is to be checked. |
| ForkableObjects.ForkableObject.MarkDepsAsUnmet | src/data/model/forkable/ForkableObject.ts:166-179 | The dependency maps stay exact and every eligible op that no longer passes is to be expelled. |
| ForkableObjects.ForkableObject.OnForeignForkChange | src/data/model/forkable/ForkableObject.ts:143-195 | The fork of another object changes: the whole invariant is kept, the handler fails exactly without a rule, terminals are exact if and only if the eligible ops before, in between and after meet that condition, and then choices and head are settled; for a change that only removes, if and only if no eligible op loses a dependency. |
| ForkableObjects.EligibleOpsAreExact | src/data/model/forkable/ForkableObject.ts:143-241 | In every reachable state the eligible ops are exactly the applied ops that the recursive definition picks out. |
| ForkableObjects.PreferredForkIsCurrent | src/data/model/forkable/ForkableObject.ts:616-661 | In a settled object with a strict total rule there is a head if and only if some applied op is eligible; it is an eligible op that no eligible op follows, the rule prefers it to every other such op, and the current fork is what leads up to it. |
| ForkableObjects.ForkChoiceConverges | src/data/model/forkable/ForkableObject.ts:616-661 | Two objects with the same rule, ops, invalidations and foreign forks have the same eligible and terminal ops, choices, head and current fork, whatever the order of arrival. |
| MergeOps.VisitUsesWeight | src/data/model/forkable/MergeOp.ts:102-161 | Each turn of the search uses up backward paths: it terminates on every finite DAG. |
| MergeOps.VisitKeepsCover | src/data/model/forkable/MergeOp.ts:108-159 | Everything below a merged op has been found, is below a queued visit, or is below the op at which the search stopped early. |
| MergeOps.RecordKeepsIntersection | src/data/model/forkable/MergeOp.ts:120-135 | The intersection is kept as the ops reached from all merged ops, and the fork points as those of them that no other one follows. |
| MergeOps.SinglePointIsGreatest | src/data/model/forkable/MergeOp.ts:138-153 | If one fork point is left at the end it is the greatest common ancestor, early stop included. |
| MergeOps.GreatestIsOnlyPoint | src/data/model/forkable/MergeOp.ts:165-168 | If there is a greatest common ancestor, no other fork point is left. |
| MergeOps.MaximalHeads | src/data/model/forkable/MergeOp.ts:189-197 | The reached ops without a reached successor are exactly the merged ops that are below no other one. |
| MergeOps.NoClimbFromForkPoint | src/data/model/forkable/MergeOp.ts:173-183 | No op of the intersection follows a fork point, so the climb that comes next does nothing. |
| MergeOps.FindForkPoint | src/data/model/forkable/MergeOp.ts:73-207 | A fork point is reported if and only if a greatest common ancestor exists, and is that; every op below some but not all merged ops is in the contents. From every merged op the search finds all that is below it, but for what is below the fork point, and the contents are exactly what it has found, without what it has found from all of them if there is a fork point; terminals are the maximal merged ops (none for a single one). |
| CausalOps.GetFinalTargetOp | src/data/model/causal/CascadedInvalidateOp.ts:285-295 | The loop follows the targets of undos and redos to the plain op at the end of the chain. |
| CausalOps.FinalTargetEndsChain | src/data/model/causal/CascadedInvalidateOp.ts:285-295 | An op is the final target if and only if a chain of undos and redos, each aimed at the next, leads to it and it is neither. |
| CausalOps.UndosAlternate | src/data/model/causal/CascadedInvalidateOp.ts:92-166 | Down a chain of well-formed ops those at an odd distance from the plain op undo, and the others redo. |
| CausalOps.PrecedesMeansPath | src/storage/store/Store.ts:752-779 | An op is in the causal past of another one if and only if a path of predecessors leads to it. |
| CausalOps.Create | src/data/model/causal/CascadedInvalidateOp.ts:322-331 | The op made undoes the target, or redoes it if that is an undo, follows it directly, has the one cause and obeys the constructor's rules; it cannot be made exactly if the target does not rest on what the cause is aimed at, or the cause is an InvalidateAfterOp used on an undo or redo or across objects. |
| CausalOps.PassesExactlyIfCreated | src/data/model/causal/CascadedInvalidateOp.ts:168-271 | Validation lets an undo or redo pass if and only if the constructor makes it from its target and its one cause. |
| CausalOps.FinalTargetApplied | src/data/model/causal/CascadedInvalidateOp.ts:285-295 | What an applied undo or redo is about in the end has been applied. |
| CausalOps.ActiveAfter | src/data/model/mutable/MutableObject.ts:655-679 | One more op changes what is actively undone only for its final target: an undo enters, a redo takes its target out. |
| CausalSets.CausalSet.RecordOp | src/data/model/mutable/MutableObject.ts:630-640 | The terminal ops stay exactly the applied ops without applied successor. |
| CausalSets.CausalSet.RecordCascade | src/data/model/mutable/MutableObject.ts:655-668 | The active invalidations stay exactly the undos that no applied redo targets, by final target. |
| CausalSets.CausalSet.Admit | src/data/model/mutable/MutableObject.ts:626-683 | Recording an op changes the validity of its final target only, reports the new validity, and skips the mutation only if that did not change. |
| CausalSets.CausalSet.Mutate | src/data/collections/causal/CausalSet.ts:471-560 | The five indices become exact for the new set of ops, and a change is reported exactly when some element enters or leaves the set. |
| CausalSets.CausalSet.UpdateCurrent | src/data/collections/causal/CausalSet.ts:516-531 | An addition is current exactly while it is valid and no valid deletion is aimed at it; a change of membership of its element is reported. |
| CausalSets.CausalSet.Apply | src/data/model/mutable/MutableObject.ts:626-697 | Applying an op after its predecessors keeps every field a function of the applied ops and the log in causal order; a second time nothing changes. |
| CausalSets.CausalSet.ApplyNewOp | src/data/model/mutable/MutableObject.ts:590-624 | A new op follows the terminal ops, or is refused exactly when one of its explicit predecessors has not been applied; unless it was known it is put among the ops to be saved. |
| CausalSets.CausalSet.ApplyApplicable | src/data/model/mutable/MutableObject.ts:555-568 | One round applies only applicable ops out of those buffered at its start, while more arrive or are made locally; if it applies none, none was applicable. |
| CausalSets.CausalSet.ApplyPendingOpsFromStore | src/data/model/mutable/MutableObject.ts:547-588 | The loop terminates, whatever happens while it waits; no buffered op is applicable or already applied at the end; exactly what arrived and what was made locally has become known, and of that only what was made locally is to be saved; a call while it runs does nothing. |
| CausalSets.CausalSet.ApplyOpFromStore | src/data/model/mutable/MutableObject.ts:530-545 | An announced op, and whatever arrives or is made while it is loaded, is applied or buffered; if it is new and the loop is not running already, no applicable op is left behind. |
| CausalSets.CausalSet.HasByHash | src/data/collections/causal/CausalSet.ts:346-352 | True exactly if some addition of the element is in force and no deletion of it is, in terms of chains of undos and redos. |
| CausalSets.MembershipLaw | src/data/collections/causal/CausalSet.ts:471-560 | An element is a member if and only if some addition of it has every applied undo at the end of whose chain it stands redone, and no applied deletion of that addition has. |
| CausalSets.UndoneDeletionRestores | src/data/collections/causal/CausalSet.ts:516-531 | An applied undo of the only deletion of an addition that is in force makes its element a member again until it is redone. |
| CausalSets.ReplicasConverge | src/data/collections/causal/CausalSet.ts:471-560 | Replicas whose logs hold the same ops, in any two causal orders, agree on terminal ops, active invalidations, validity of every op, all indices and members. |
| StoreCascades.CreateSucceeds | src/data/model/causal/CascadedInvalidateOp.ts:92-166 | For a target that rests on what the cause is aimed at, the constructor throws exactly when the cause is an InvalidateAfterOp on another object. |
| StoreCascades.StepKeepsConsistent | src/storage/store/Store.ts:245-397 | Every step of every save keeps the store closed under dependencies and predecessors, and the frames of the saves sound. |
| StoreCascades.StoredAfterItsNeeds | src/storage/store/Store.ts:283-310 | Over any run what a stored op directly follows, rests on or is aimed at is stored. |
| StoreCascades.SaveComesToItsEnd | src/storage/store/Store.ts:245-397 | A save is never stuck and each of its actions brings it nearer to its end, so that it takes finitely many besides those of the saves it calls. |
| StoreCascades.Handover | src/storage/store/Store.ts:324-396 | What a save in progress is responsible for is stored, or taken care of by it or by the save it calls, after its next step. |
| StoreCascades.StepKeepsCovered | src/storage/store/Store.ts:324-396 | After a step every undo or redo that is called for is stored or taken care of if and only if the step does not throw while one is left to its save alone, whichever of the two ops was stored first. |
| StoreCascades.CascadesComplete | src/storage/store/Store.ts:324-396 | Over any interleaving in which no step does that, once no save is in progress every undo and redo called for is stored. |
| StoreCascades.OneObjectNeverDrops | src/storage/store/Store.ts:366-378 | No step does that if direct dependents of an InvalidateAfterOp's target are on its object. |
| StoreCascades.StoreRunsCascade | src/storage/store/Store.ts:324-396 | The same from an empty store under that condition, said of the ops: what rests on the target of a stored undo or redo, or on the target of a stored InvalidateAfterOp whose past it is not in, has a stored undo with that cause, or a redo if it is an undo itself. |
| StoreCascades.ThrowLosesCascades | src/storage/store/Store.ts:366-378 | After such a throw an undo is called for that is neither stored nor taken care of. |
| StoreLosses.NothingIsLost | src/storage/store/Store.ts:324-396 | Nothing is lost over any interleaving of saves of given ops of which none is an InvalidateAfterOp with a foreign dependent and an own one outside of it, such that the latter does not rest on it nor the former on the undo. |
| StoreLosses.SomethingIsLost | src/storage/store/Store.ts:366-378 | If there are three such ops among ops that can all be saved, a run from the empty store comes to lose the undo. |
| StoreLosses.LossExactlyWhen | src/storage/store/Store.ts:324-396 | So some run loses an undo if and only if there are. |
| StoreLosses.LostForGood | src/storage/store/Store.ts:366-378 | What is lost is not stored by any further step unless it is saved from outside. |
| StoreRuns.LostCascadeIsReached | src/storage/store/Store.ts:366-378 | Whatever the two objects, a run from the empty store finishes all its saves with an undo missing. |
| StoreRuns.StoresConverge | src/storage/store/Store.ts:324-396 | Two careful runs from empty stores, over any two interleavings, that have finished all saves, hold what the other one was given and were given nothing at risk of a loss hold the same ops. |
| CascadeMerits.MissingIsOutside | src/storage/store/Store.ts:337-338 | An op that is not stored precedes no stored op: what the first note relies on. |
| CascadeMerits.StepLeavesAlone | src/storage/store/Store.ts:335-347 | A step keeps every save from meeting an invalidation that follows its op if and only if it stores no InvalidateAfterOp whose target a save of an op it follows has still to look up. |
| CascadeMerits.CascadesAreMerited | src/storage/store/Store.ts:335-347 | In runs of such steps no op is undone by an InvalidateAfterOp that follows it. |
| CascadeMerits.MetInvalidationUndoes | src/storage/store/Store.ts:331-347 | A save that will meet a stored invalidation that follows its op, at whatever point it is, can go on to store an undo of that op. |
| CascadeMerits.CarefulExactlyWhen | src/storage/store/Store.ts:335-347 | The condition on a step is exact: if and only if it holds, all further careful runs have only deserved undos. |
| CascadeMerits.SequentialIsCareful | src/storage/store/Store.ts:283-286 | When only the innermost save goes on, and saves the ops it depends on, every step meets the condition. |
| CascadeMerits.SequentialCascadesAreMerited | src/storage/store/Store.ts:335-347 | So in every run of a program that awaits each save no op is undone by an InvalidateAfterOp that follows it. |
| StoreRuns.CarelessStoreIsReached | src/storage/store/Store.ts:335-347 | A careful run from the empty store leads to a step that does not meet the condition, and from there to an undeserved undo. |
| StoreClosures.LoadPrevOpsClosureFast | src/storage/store/Store.ts:717-750 | The loop terminates and finds exactly the ops that a path of predecessors leads to from an initial op along which every sequence number is at or above the bound; so every op found is; and it is the plain closure if and only if every op up to the initial ones is. |
| StoreClosures.ExploredIsLatePaths | src/storage/store/Store.ts:733-745 | When nothing is left to explore, exactly what such paths lead to has been found. |
| StoreClosures.FastIsPlainExactlyWhen | src/storage/store/Store.ts:717-756 | The fast closure is the plain closure if and only if no op of the plain one has a sequence number below the bound, that is, none was stored before the object. |
| StoreClosures.LoadPrevOpsClosure | src/storage/store/Store.ts:752-779 | The plain loop finds exactly the initial ops and all that precede them. |
| OpHeaders.ComputeProps | src/data/history/OpHeader.ts:171-189 | The height is one more than the highest predecessor's (1 without any), the size one more than the sum of theirs. |
| OpHeaders.HeightIsLongestWayBack | src/data/history/OpHeader.ts:171-189 | The height is the length of the longest backward path, so it ranks the DAG. |
| HistoryFragments.TerminalsAfterAdd | src/data/history/HistoryFragment.ts:32-46 | The lemma in the source's header, made exact for terminals and missing headers. |
| HistoryFragments.IndicesAfterRemove | src/data/history/HistoryFragment.ts:130-144 | After removing a header exactly the predecessors that nothing else follows turn terminal or cease to be missing. |
| HistoryFragments.HistoryFragment.Add | src/data/history/HistoryFragment.ts:78-114 | Adding a header leaves all five indices exactly what the contents make them; adding it again changes nothing. |
| HistoryFragments.HistoryFragment.Remove | src/data/history/HistoryFragment.ts:116-147 | So does removing one. |
| HistoryFragments.HistoryFragment.RemoveNonTerminalOps | src/data/history/HistoryFragment.ts:182-190 | Exactly the old terminal headers are left, and all of them are terminal. |
| HistoryFragments.HistoryFragment.Clone | src/data/history/HistoryFragment.ts:160-168 | A new fragment with the same contents and exact indices. |
| HistoryFragments.HistoryFragment.GetStartingOpHeaders | src/data/history/HistoryFragment.ts:198-212 | Exactly the headers without predecessors or with one that is absent. |
| HistoryFragments.HistoryFragment.VerifyUniqueOps | src/data/history/HistoryFragment.ts:149-158 | True exactly if no two headers present are of the same op. |
| HistoryFragments.ContentsDecideIndices | src/data/history/HistoryFragment.ts:78-168 | Equal contents mean equal indices: order independence, `remove` undoing `add`, clones equal in state. |
| HistoryFragments.HistoryFragment.LoadFromTerminalOpHeaders | src/data/history/HistoryFragment.ts:412-445 | Terminates; loads only stored headers on ways back that meet none of the headers given as forbidden, and none of these; unless it stops at the limit, which takes a terminal header that is there, it misses only forbidden ones, none if none are given, and an empty fragment ends with exactly what such ways back lead to; fails only at a header the store lacks; keeps a limit that leaves room at the start. |
| HistoryFragments.LoadedIsExactlyLoadable | src/data/history/HistoryFragment.ts:424-444 | A fragment whose missing headers are all forbidden holds all the ways back from its terminals. |
| HistoryWalks.HistoryWalk.constructor | src/data/history/HistoryWalk.ts:21-40 | The queue starts with the initial headers that are present and pass the filter, each once. |
| HistoryWalks.HistoryWalk.Dequeue | src/data/history/HistoryWalk.ts:67-78 | First in, first out, with the counts of queued headers kept exact. |
| HistoryWalks.HistoryWalk.GoFrom | src/data/history/HistoryWalk.ts:80-123 | The filtered successors in the direction of the walk on the first visit, and none later. |
| HistoryWalks.HistoryWalk.Next | src/data/history/FullHistoryWalk.ts:8-30 | The header at the front, none exactly when the queue is empty; each turn visits a new header or shortens the queue; everything seen is reached and nothing reached is lost; in a full walk exactly the steps from a newly visited header join the queue, in a breadth-first one exactly those not queued already, so that nothing is queued twice. |
| HistoryWalks.HistoryWalk.EnqueueAll | src/data/history/BFSHistoryWalk.ts:8-17 | The successors that are present join the end of the queue, each once in a full walk, and exactly those not queued already in a breadth-first one. |
| HistoryWalks.HistoryWalk.WalkedAll | src/data/history/FullHistoryWalk.ts:8-30 | An ended walk has visited exactly what is reached, in at most as many turns as there are initial headers and steps; a full one has given each header once for being initial and once per step that leads to it. |
| HistoryWalks.ClosedHoldsReached | src/data/history/HistoryWalk.ts:80-109 | A set that is closed under steps and holds the initial headers holds all that is reached. |
| HistoryClosures.ClosureFrom | src/data/history/HistoryFragment.ts:322-330 | Exactly the headers reached through the filter inside the fragment. |
| HistoryClosures.IsReachable | src/data/history/HistoryFragment.ts:307-320 | True exactly if every destination is reached, also when it stops early. |
| HistoryClosures.FilterByTerminalOpHeaders | src/data/history/HistoryFragment.ts:170-180 | Contents are what is reached backward; terminals are among those asked for; what is missing was missing before. |
| HistoryClosures.CausalClosureFrom | src/data/history/HistoryFragment.ts:332-405 | The loop computes the schedule of the headers that a full walk gives, never exceeds the limit, and stops before the end of the walk only at the limit. |
| CausalSchedules.CausalClosureIsSound | src/data/history/HistoryFragment.ts:332-405 | No header is listed twice, the predecessors of each one are provided or come earlier, each passes the filter, and the result is this list without what is to be ignored. |
| CausalWalks.LimitGivesPrefix | src/data/history/HistoryFragment.ts:365-367 | A walk that is left at the limit goes on to a full walk, and the result is the prefix, as long as the limit, of what that one gives without a limit. |
| CausalSchedules.ClosedExactlyWhen | src/data/history/HistoryFragment.ts:369-392 | A header is closed if and only if the walk has turns for it and for all that it waits for, back to what has been provided, each after those of its predecessors. |
| CausalWalks.WalkHasRounds | src/data/history/FullHistoryWalk.ts:8-30 | Every full walk goes through rounds in order: round 0 gives the initial headers, and each step from a header gives the next one in the round after the distance of the first; nothing else is given. |
| CausalWalks.DistanceExists | src/data/history/HistoryWalk.ts:80-109 | Every history has distances from every start, which the next results speak of. |
| CausalWalks.SteadyIsClosed | src/data/history/HistoryFragment.ts:334-336 | Whatever waits only for headers given for the last time in earlier rounds, and these likewise, is closed by every full walk. |
| CausalWalks.SteadyClosesAll | src/data/history/HistoryFragment.ts:334-336 | If that holds of all that can be reached and listed, exactly this is closed. |
| CausalWalks.EvenIsSteady | src/data/history/HistoryFragment.ts:334-336 | It holds if each header is one step farther than all that it follows. |
| CausalWalks.LateIsLost | src/data/history/HistoryFragment.ts:369-392 | A header is closed by no full walk if what it waits for waits itself for a header after which the walk comes back too late. |
| CausalWalkExamples.UnevenHistoryLosesHeader | src/data/history/HistoryFragment.ts:334-336 | Over five headers every full walk leaves out one whose only predecessor has been closed. |
| CausalWalkExamples.OrderDecides | src/data/history/HistoryFragment.ts:334-336 | Two full walks over one history of four headers, of which one closes a header and the other does not. |
| HistoryDeltas.HistoryDelta.LowestStart | src/data/history/HistoryDelta.ts:52-60 | The least height among the starting headers of the fragment. |
| HistoryDeltas.HistoryDelta.Backtrack | src/data/history/HistoryDelta.ts:62-73 | Only missing headers above that height move to the start, within its limit, and all of them if there is room; whatever leaves the fragment is in the start. |
| HistoryDeltas.HistoryDelta.Extend | src/data/history/HistoryDelta.ts:75-88 | The fragment grows by missing headers within its limit, by all that the store has and the start lacks if there is room. |
| HistoryDeltas.HistoryDelta.Advance | src/data/history/HistoryDelta.ts:50-92 | A round: the start is joined only by stored headers it missed that are above one where the fragment then started, by all of these unless it is full now; the fragment loses exactly what is in the start and then gains only stored headers missed after that and not in the start, all of them unless it is full now. With room left a round changes nothing if and only if there is nothing of that kind to go back to. |
| HistoryDeltas.HistoryDelta.Rounds | src/data/history/HistoryDelta.ts:50-92 | Such a search is the same after any number of rounds. |
| HistoryDeltas.HistoryDelta.ProgressIsMade | src/data/history/HistoryDelta.ts:50-92 | It never comes to that over a store that holds all predecessors. |
| HistoryDeltas.DeltaWithoutEnd | src/data/history/HistoryDelta.ts:29-94 | It does for a new delta if the only target is stored and its only predecessor is not. |
| HistoryDeltas.HistoryDelta.Compute | src/data/history/HistoryDelta.ts:29-94 | From the starts and targets that are stored, the end is reached by such rounds, each made while there is a gap and room. Start and fragment stay apart; no stored target or start is lost; both keep to their limits beyond where they began and hold only what is on a way back from there; it ends at the limit or without a gap, and otherwise in a state that no round changes. |
| HistoryDeltas.DeltaReachesStart | src/data/history/HistoryDelta.ts:103-115 | Without a gap the fragment holds every way back from what it holds to where that meets the start. |
| HistoryDeltas.OpHeadersFollowingFromStart | src/data/history/HistoryDelta.ts:96-101 | The list can be applied in order by whoever has the start; it is what a full walk from where the fragment starts schedules, left at the limit and not before; unless it reaches the limit it holds the whole fragment if that is steady. |
| Ordinals.Between | src/util/ordinals.ts:21-103 | Throws exactly for reversed bounds; otherwise terminates with a valid ordinal at most one longer than the longer bound, strictly between them unless they are equal, in which case it extends them. |
| ArrayMaps.AddKeeps | src/util/arraymap.ts:15-29 | Pushing and sorting keeps rows sorted and counts one more occurrence. |
| ArrayMaps.DeleteKeeps | src/util/arraymap.ts:31-50 | Splicing keeps rows sorted, drops an empty row and counts one occurrence less. |
| ArrayMaps.SortedArrayMap.AddValue | src/util/arraymap.ts:15-29 | The map gains the value and the counter stays the number of values. |
| ArrayMaps.SortedArrayMap.DeleteValue | src/util/arraymap.ts:31-50 | Reports whether the value was there and takes out one occurrence; the counter stays right. |
| ArrayListings.ListingUnique | src/data/collections/mutable/MutableArray.ts:579-598 | The sorted listing of a multiset of entries is unique, so contents depend on the live insert ops only. |
| ArrayListings.FirstOnlyIsSmallest | src/data/collections/mutable/MutableArray.ts:587-597 | Hiding repetitions lists each live element once, by its smallest ordinal. |
| ArrayListings.FirstOnlyWithout | src/data/collections/mutable/MutableArray.ts:369-371 | Deleting elements and hiding repetitions commute. |
| MutableArrays.MutableArray.MutateInsert | src/data/collections/mutable/MutableArray.ts:481-501 | The live ops and the multiset of entries gain one entry, and all indices stay exact. |
| MutableArrays.MutableArray.MutateDelete | src/data/collections/mutable/MutableArray.ts:513-554 | Exactly the named insert ops of the element cease to be live, and all indices stay exact. |
| MutableArrays.MutableArray.Rebuild | src/data/collections/mutable/MutableArray.ts:572-602 | The contents list the multiset of live entries in order, each element once when there are no duplicates. |
| MutableArrays.MutableArray.FindInsertOp | src/data/collections/mutable/MutableArray.ts:451-457 | Finds a live insert op of the element at the ordinal if there is one. |
| MutableArrays.MutableArray.Delete | src/data/collections/mutable/MutableArray.ts:446-467 | One entry goes, or all entries of the element. |
| MutableArrays.MutableArray.InsertManyAt | src/data/collections/mutable/MutableArray.ts:289-355 | Throws exactly when two or more elements go between shown neighbours that share an ordinal. With distinct neighbours and a position inside the array the contents are old[..idx] + new + old[idx..]; without duplicates they are the same around the corrected position, without the old places of what moves and with the last occurrence of each new element. Beyond the end a chain of ordinals is added. |
| ArrayMoves.LandsExactlyWhen | src/data/collections/mutable/MutableArray.ts:292-311 | Without duplicates distinct elements end up at the position asked for if and only if none of them was shown after it and before the corrected one. |
| ArrayMoves.ThreeLandTooEarly | src/data/collections/mutable/MutableArray.ts:292-311 | The first three elements, moved to position 1, end up at position 0. |
| ArrayReplicas.Mutate | src/data/collections/mutable/MutableArray.ts:475-560 | Applying a new op takes the entries in force to what the log of ops makes them. |
| ArrayReplicas.EntriesAgreeExactlyWhen | src/data/collections/mutable/MutableArray.ts:102-170 | All causal orders of a set of valid ops leave the same entries in force if and only if each named insertion is named by some deletion whose past holds it. |
| ArrayReplicas.ReplicasShowTheSame | src/data/collections/mutable/MutableArray.ts:572-602 | And then arrays that have applied them show the same elements in the same order. |
| MutableArrays.MutableArray.InsertBetween | src/data/collections/mutable/MutableArray.ts:323-354 | Repeated use of `between` fails exactly when two or more elements go between bounds that share an ordinal; otherwise the ordinals form a strictly increasing chain between the bounds. |
| MutableArrays.MutableArray.DeleteManyAt | src/data/collections/mutable/MutableArray.ts:361-376 | In both modes exactly the slice from the position is cut out of the contents. |
| MutableArrays.SharedOrdinalMisplaces | src/data/collections/mutable/MutableArray.ts:327-331 | Between neighbours that share an ordinal a new element ends up after both. |
| MutableArrays.ChainIsSpliced | src/data/collections/mutable/MutableArray.ts:323-354 | Elements at a strictly increasing chain of ordinals between two neighbours appear between them in order. |
| MutableSets.MutableSet.Mutate | src/data/collections/mutable/MutableSet.ts:328-413 | References per element stay exactly the live additions, elements without any are dropped from both maps, and a change is reported exactly when membership changes. |
| MutableSets.MutableSet.Apply | src/data/model/mutable/MutableObject.ts:626-640 | Every field stays a function of the log of applied ops, which stays in causal order. |
| MutableSets.MutableSet.DeleteByHash | src/data/collections/mutable/MutableSet.ts:292-302 | The element goes; a deletion is made exactly if it was a member, names exactly the live additions, and all of these are in its causal past. |
| MutableSets.MutableSet.HasByHash | src/data/collections/mutable/MutableSet.ts:308-310 | True exactly if some live addition carries the element. |
| MutableSets.TerminalsCoverAll | src/data/model/mutable/MutableObject.ts:601-607 | Every applied op is terminal or in the causal past of a terminal op. |
| MutableSets.ObservedRemove | src/data/collections/mutable/MutableSet.ts:328-413 | In every causal order an element is a member if and only if some addition of it is named by no deletion; concurrent additions survive. |
| MutableSets.ReplicasAgreeExactlyWhen | src/data/collections/mutable/MutableSet.ts:102-164 | All causal orders of a set of valid ops agree on what is live if and only if each named addition is named by some deletion whose past holds it. |
| MultiMaps.MultiMap.Add | src/util/multimap.ts:12-25 | The relation gains the pair, and the counter stays the number of pairs. |
| MultiMaps.MultiMap.Delete | src/util/multimap.ts:33-51 | The relation loses the pair, which is reported if it was there; no empty set is left; the counter stays right. |
| MultiMaps.MultiMap.DeleteKey | src/util/multimap.ts:53-62 | All pairs of the key go; the counter stays right. |
| MultiMaps.MultiMap.Clone | src/util/multimap.ts:106-114 | The pairs are the same; the counter is right if and only if there are none. |
| ObjectPackers.PackIsExactlyNeeded | src/data/packing/ObjectPacker.ts:156-208 | What the search packs is exactly what the object needs without passing through what can be skipped, each literal once, and every dependency of it is packed or skipped. |
| ObjectPackers.StackStep | src/data/packing/ObjectPacker.ts:171-201 | A turn of the loop does not change what will have been packed in the end. |
| ObjectPackers.ObjectPacker.AttemptToAdd | src/data/packing/ObjectPacker.ts:156-208 | Terminates; what it packs begins what is needed, all of it stored; it ends with all that is needed and the omittable dependencies of it, or at the limit, or at a literal the store lacks. |
| ObjectPackers.ObjectPacker.AddObject | src/data/packing/ObjectPacker.ts:96-134 | Succeeds exactly when the object can be skipped or its need is stored and smaller than the room left, fails on a literal the store lacks exactly when one of the first that there is room for is, and is full otherwise; content grows by the need in reverse, omissions by its omittable dependencies; on failure nothing changes; the content never exceeds the limit or holds a literal twice. |
| PackOrders.InvertedExactlyWhen | src/data/packing/ObjectPacker.ts:153-154 | Some literal is packed after one that it depends on if and only if some needed literal leads by an earlier dependency to one and only by later ones to the other. |
| PackOrders.TreesAreInOrder | src/data/packing/ObjectPacker.ts:153-154 | In trees dependents always come before what they depend on. |
| PackOrders.DependentMayComeLast | src/data/packing/ObjectPacker.ts:153-154 | Three literals packed so that one comes after another on which it depends. |
| ObjectPackers.ObjectPacker.AllowOmission | src/data/packing/ObjectPacker.ts:45-51 | A chain once given for an omission stays, a new omission gets the one given, and every chain still ends at its literal. |
| ObjectPackers.ObjectPacker.AllowOmissionsRecursively | src/data/packing/ObjectPacker.ts:53-94 | Terminates; every chain is a path of dependencies from an initial literal or accepted root to the omitted one, that one alone if it is such a root; unless the limit is reached everything stored that they lead to is allowed; the limit is kept. |

## Left out

- Networking, mesh agents, broadcast, proxies, hosts, WebRTC and WebSocket plumbing: input and output over platform objects.
- Hashing, signatures, identities, random ids, key pairs and timestamps: hashes are injective identities, new ops get ids that differ from all applied ones.
- Backends, paging, cursors and search order: the store is the set of what it holds.
- Literalization, contexts, class registries, format and `instanceof` validation; what validation promises is assumed of ops that arrive (`WellFormed`, `IsSetOp`).
- Events, observers, resources, checkpoints, auto-save timers; of the events only the fork change is kept, as an input step.
- `hasByHash` and the like aside, read accessors that only return a field.
- `DedupMultiMap` and `Queue`: a relation and a sequence stand for them; inside other classes a `MultiMap` field is kept as its relation.
- Other mutable objects than `CausalSet` and `MutableSet` on top of `MutableObject`; the parts of `MutableObject` that both share are modelled with each of them.
- Authorizers, attestations and accepted types of `CausalSet`.
- `loadLastOpsFromStore`, which applies the newest ops first, and `getOpHeader`, which works from a partial cache.
- An announced op that the store does not hold: the source logs a warning and then fails on it.
- Fork dependencies between ops of one object: the source ignores the object's own events.
- ForkableObjects.ForkableObject.UpdateEligibleTerminalOps: states the update as coded, because for removals it does not compute the terminal ops.
- MergeOps.FindForkPoint: which of the ops below the fork point the search has found from which merged op, before it ends early, is not stated; that decides which common ancestors the contents list as well.
- StoreCascades.CascadesComplete: a run is any interleaving of steps, in which a caller need not wait for the saves it calls; failures of the backend in the middle of a save are left out.
- CausalWalks.LimitGivesPrefix: the longer walk goes on from the shorter one; another walk may go over sets in another order.
- CausalWalks.SteadyIsClosed: between what every walk closes and what none does, some histories depend on the order in which sets are gone over; which of these some order or every order closes is not characterized beyond CausalSchedules.ClosedExactlyWhen.
- HistoryDeltas.HistoryDelta.Compute: for fragments that are apart and hold stored headers, as the constructor and earlier searches leave them.
- OpHeaders.ComputeProps: custom header properties are not modelled.
- MutableArrays.MutableArray.InsertManyAt: beyond the end of the array, where the source looks at no neighbours, the places of the new ordinals among the others are not stated.
- `MutableArray.push`, `CausalArray.push` (they read a length before rebuilding) and `CausalReference.mutate` (its cached index is not moved by an earlier insertion).
- `TransitionLog` and `TransitionOp`, which are unfinished.
- ObjectPackers.ObjectPacker.AddObject: an object that can be omitted itself counts as added without being listed as an omission, as in the source; `addForwardOps` only repeats it.
