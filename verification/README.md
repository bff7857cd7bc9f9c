# Minyar runtime and stage-zero compiler: a verified model

Minyar is a small compiled language. Its runtime counts references, defers cleanup
to budgeted polls, allocates from a buddy pool, and indexes Text lazily; its
stage-zero compiler lowers functions to basic blocks. This project models those
cores in Dafny and proves what the code is for, on all inputs and over whole runs.

* **Deferred reference counting** (`rc_*.dfy`). `RcHeap` and `RcMachine` are the
  collector as a step machine: a unit visits one owner slot or retires one task.
  `RcInvariant` is exact ownership; `RcRuns` lifts it to every run of a program
  interleaved with cleanup. `RcDebt` is work conservation, `RcFairness` bounded
  waiting, `RcQuiescence` and `RcEager` complete reclamation and agreement with the
  eager profile, `RcTyped` complete reclamation for every run whose stores obey the
  type guard, with objects under construction told apart from finished ones, and
  `RcLiteral` the documentation's recursive literal as such a run. `RcProgress` is bounded
  waiting and work conservation along whole runs, `RcQueues` first come, first served for
  retired frames and detached temporaries, and `RcMembers` what objects hold after any run's
  stores and cleanup. `RcCollector` is the runtime's own form: queue heads and links in the
  headers of dead objects, changed in place, and the poll with its unary-pair,
  unary-chain and List-run fast paths, proved equal to the unit-at-a-time scheduler.
  `RcCursor` is the cursor kept in a dead record's reference map.
* **Buddy pool** (`pool*.dfy`). `PoolMap` is the state map and its four moves,
  `PoolComplete` completeness, `PoolLists` the threaded free lists, `Pool` the
  allocator as a class over arrays.
* **Stage-zero compiler** (`stage0_*.dfy`). Source meaning by name, the checker that
  resolves names to slots, the emitter (as functions and as the class that prints),
  a machine for the printed lines, and the proofs: meaning preserved, control flow
  well formed, no path astray, every line well typed. `Stage0Accepts` states what is
  accepted by typing and scoping rules of its own, derived from what operators mean.
* **UTF-8 and Text** (`utf8.dfy`, `text.dfy`), **type guard** (`graph.dfy`,
  `type_guard.dfy`), **module cache envelope** (`cache.dfy`).

Functions that only compute (`RcMachine.Unit`, `Stage0Emit.Emit`, `Utf8.Decode`, …)
follow the code branch by branch and have no row of their own: the rows name the
members whose contracts say what the code means.

Some behaviours of the code differ from its documentation or from what a reader may
expect. Each is stated as it is, with its exact condition and a failing input:

* `minyar_join_text_take_left` adds two known lengths and drops the index. The Text
  invariant survives exactly when a length was unknown or both operands are ASCII
  (`TextIndex.JoinKeeps`); `TextIndex.JoinFails` gives an input on which it does not.
* The documented limit of a public release, local assignment or indexed replacement is
  the budget, immediate leaf destruction included (docs/bounded-runtime-contract.md:118
  and 121). It is kept exactly when the budget is at least two or the value is not the
  last owner of a Text view that is the last owner of its backing
  (`RcCollector.ReleaseWithinLimit`); `RcCollector.ReleaseExceedsLimit` reaches two units
  of work with a budget of one.
* `minyar_record_set_take` overwrites a field without releasing what it held. Ownership
  stays exact exactly when the field held nothing counted (`RcMutator.SetFieldExact`);
  `RcCollector.FieldOverwriteLeaks` reaches a state where a second store loses an owner.
  Compiled programs never make that second store: record literals are the only callers and
  a field provided twice is refused (src/compiler.min:1891).
* The checker accepts functions whose printed lines are ill typed. They are well typed
  exactly when no parameter is declared Nothing and `main` returns Integer or contains no
  `return` (`Stage0Types.WellTypedExactly`). `Stage0Program.OtherMainsBreak` gives one `main`
  of each failing kind, `Stage0Types.UnreachedReturnSpoils` one whose `return` is never reached, and
  `Stage0Types.NothingParameterSpoils` a parameter.

## Model

| member | source | states |
|---|---|---|
| RcHeap.DropExact | runtime/minyar_bounded_rc.h:42-97 | dropping one owner leaves every count equal to the owners that remain, through a Text view's backing |
| RcInvariant.DropKills | runtime/minyar_bounded_rc.h:66-97 | a drop makes dead exactly the object it queues, and only one that was not dead |
| RcInvariant.DropInv | runtime/minyar_bounded_rc.h:66-97 | a drop of a held owner keeps exact ownership of the whole state |
| RcInvariant.ActivateInv | runtime/minyar_bounded_rc.h:114-121 | taking the head of the captured batch keeps exact ownership |
| RcInvariant.OldUnitInv | runtime/minyar_bounded_rc.h:114-142 | an old-batch unit keeps exact ownership: a slot passed becomes the drop it owes |
| RcInvariant.RecentUnitInv | runtime/minyar_bounded_rc.h:147-173 | a recent unit keeps exact ownership, its cursor saved before the drop |
| RcInvariant.ObjectUnitInv | runtime/minyar_bounded_rc.h:175-199 | an object unit, with capture and turn, keeps exact ownership |
| RcInvariant.FrameUnitInv | runtime/minyar_bounded_rc.h:201-221 | a frame unit keeps exact ownership, the pending count and the cache's byte total and cap |
| RcInvariant.FrameCached | runtime/minyar_bounded_rc.h:207-220 | a frame with nothing left to drop leaves the queue and is kept for reuse exactly when the kept frames' bytes with its own stay within the cache limit |
| RcInvariant.ChunkUnitInv | runtime/minyar_bounded_rc.h:223-233 | a chunk unit keeps exact ownership and the pending count |
| RcInvariant.UnitInv | runtime/minyar_bounded_rc.h:337-350 | every unit of the three-queue scheduler keeps: counts equal owners, dead objects unowned and queued once, pending equals queued tasks, immortal-only Lists hold nothing mortal |
| RcInvariant.IterateInv | runtime/minyar_bounded_rc.h:337-350 | so does any number of units |
| RcRuns.StepInv | experiments/memory/production-live-oracle.c:65-112 | no allowed program step and no cleanup unit breaks exact ownership |
| RcRuns.StartInv | runtime/minyar_rc.h:160-167 | a heap of immortal literals starts exact |
| RcRuns.RunInv | experiments/memory/production-live-oracle.c:65-112 | exact ownership at every point of every run |
| RcRuns.RunSafe | experiments/memory/production-live-oracle.c:65-112 | at every point of every run: an owned object is allocated and not queued, a live count equals its owners, a dead object has no owner and is queued exactly once |
| RcTyped.CompleteTyped | docs/runtime-memory.md:45-48 | completing an object keeps every link permitted: what it refers to is finished and nothing refers to it yet |
| RcTyped.StepTyped | docs/runtime-memory.md:45-52 | every event of a guarded run, cell reuse and stores into unfinished literals included, keeps each link to a finished object and permitted by type or by age |
| RcTyped.GuardedRunReclaims | docs/language.md:103-108 | stop any guarded run anywhere: draining ends and keeps exactly the counted objects still reachable from frames and running code |
| RcLiteral.RecursiveLiteralIsGuarded | docs/language.md:97-99 | the documented recursive literal, its record allocated before the List its field holds, is built by a guarded run whichever types are mutable |
| RcDebt.DropDebt | tests/stack-ownership-runtime.c:152-166 | dying costs nothing: the work was owed while the object lived |
| RcDebt.UnitDebt | runtime/minyar_bounded_rc.h:114-233 | each unit lowers the debt (unvisited slots, written locals and chunk owners, plus one a task) by exactly one |
| RcDebt.IterateDebt | runtime/minyar_bounded_rc.h:238-356 | polling lowers the debt by exactly the work it returns |
| RcDebt.DrainTerminates | tests/stack-ownership-runtime.c:152-166 | as many units as the debt always empty the queues |
| RcDebt.PollsIterate | runtime/minyar_bounded_rc.h:238-240 | a sequence of polls is one poll of the summed budget |
| RcDebt.ScheduleIndependent | runtime/minyar_bounded_rc.h:238-356 | any two budget splits that drain end in the same state after the same total work |
| RcFairness.DropInterleaves | runtime/minyar_bounded_rc.h:66-97 | drops between units never join the captured batch nor change what it owes |
| RcFairness.ObjectUnitProgress | runtime/minyar_bounded_rc.h:175-199 | an object unit brings a captured object's finish nearer, or finishes it |
| RcFairness.FinishesWithinWait | runtime/minyar_bounded_rc.h:175-199 | over any run with arbitrary drops between units, a captured object finishes within its remaining wait |
| RcFairness.BoundedWait | runtime/minyar_bounded_rc.h:175-199 | that wait is at most twice the debt of itself and its predecessors |
| RcFairness.FrameUnitInterleaves | runtime/minyar_bounded_rc.h:201-221 | a frame unit leaves the captured batch alone |
| RcFairness.ChunkUnitInterleaves | runtime/minyar_bounded_rc.h:223-233 | a chunk unit leaves the captured batch alone |
| RcFairness.UnitProgress | runtime/minyar_bounded_rc.h:235-237 | every scheduler unit, whichever queue it serves, brings a captured object nearer its end, or ends it |
| RcFairness.FreedWithin | runtime/minyar_bounded_rc.h:235-237 | along the scheduler a captured object is freed within six times the debt of itself and its predecessors, counted in units of every kind |
| RcFairness.ServedWithinThree | runtime/minyar_bounded_rc.h:337-350 | a queue ready at three successive units is served by one of them |
| RcProgress.ProgramInterleaves | runtime/minyar_bounded_rc.h:175-179 | no step of the program touches the captured batch or the turn of the queues |
| RcProgress.FreedInRun | runtime/minyar_bounded_rc.h:175-179 | in any run, a captured object is freed within six times the debt of itself and its predecessors in units of cleanup, whatever the program does between them |
| RcProgress.ProgramDebt | tests/stack-ownership-runtime.c:152-166 | what each program step adds to the debt |
| RcProgress.RunConserves | tests/stack-ownership-runtime.c:152-166 | at every point of any run, the work owed and the work done add up to what the program's own steps took on, however cleanup was scheduled between them |
| RcQueues.ProgramAdds | runtime/minyar_rc.h:310-315 | no step of the program removes, begins or overtakes a queued frame or chunk, or moves the turn of the queues |
| RcQueues.ServedInOrder | runtime/minyar_bounded_rc.h:201-233 | first come, first served in any run: after some have been retired, the others lead the queue in their order, and only the first of them may have been begun, from its last entry |
| RcQueues.GoneInRun | runtime/minyar_bounded_rc.h:235-237 | in any run, three times the debt of a queued frame or chunk and of those before it, in units of cleanup, see it gone, whatever the program queues between them |
| RcQueues.LeftInRun | runtime/minyar_rc.h:305-317 | a frame left stands behind every frame already queued, and that many units see it gone |
| RcQueues.DetachedInRun | runtime/minyar_bounded_rc.h:103-113 | temporaries detached stand behind those already queued, in their own order, and that many units see them gone |
| RcMembers.EventMembers | runtime/minyar_runtime.c:413-505 | of an object that an event or a unit of cleanup leaves in place, the members change only by a store into it: the one at its position, or one more at the end |
| RcMembers.MembersInRun | runtime/minyar_runtime.c:413-505 | in any run, for as long as an object stands, its members are what the program's stores into it made of them, in order and in place |
| RcMembers.PollMembers | runtime/minyar_bounded_rc.h:238-356 | a poll changes no member of any object it leaves, and leaves every object that a frame or running code owns |
| RcQuiescence.QuiescentIsReachable | runtime/minyar_bounded_rc.h:114-233 | on an acyclic heap with nothing pending, the counted survivors are exactly those reachable from the roots |
| RcQuiescence.IterateEvolves | runtime/minyar_bounded_rc.h:114-233 | collection only frees cells and lowers counts, and leaves frames alone |
| RcQuiescence.DrainKeepsExactlyTheReached | runtime/minyar_bounded_rc.h:238-356 | from any state of an acyclic heap, draining keeps exactly the counted objects that were reachable |
| RcEager.EagerDropExact | runtime/minyar_rc.h:172-215 | the eager drop leaves every count equal to the owners that remain |
| RcEager.EagerRelease | runtime/minyar_rc.h:217-240 | the eager worklist ends, with every count exact and nothing dead left |
| RcEager.EagerEqualsDeferred | runtime/minyar_rc.h:217-240 | draining the deferred collector leaves exactly the heap the eager release leaves, counts included |
| RcEager.EagerReleaseAgrees | runtime/minyar_rc.h:217-240 | run from any quiet, acyclic state, the eager worklist returns the very heap the deferred collector drains to |
| RcMutator.RetainInv | runtime/minyar_rc.h:160-167 | a retain adds one held owner; immortals are unchanged |
| RcMutator.SetSlotInv | runtime/minyar_runtime.c:471-492 | exchanging a counted slot exchanges what the running code owns |
| RcMutator.SetFieldExact | runtime/minyar_runtime.c:576-594 | overwriting a field without a release keeps ownership exact exactly when the field held nothing counted |
| RcCollector.FieldOverwriteLeaks | runtime/minyar_runtime.c:576-594 | a reachable state where storing over a counted field breaks exact ownership |
| RcMutator.AppendSlotInv | runtime/minyar_runtime.c:413-453 | appending moves an owner into the new slot |
| RcMutator.AppendImmortalInv | runtime/minyar_runtime.c:402-453 | an immortal-only List takes an immortal member without a count |
| RcMutator.MarkReferencesInv | runtime/minyar_runtime.c:343-358 | marking an empty List as one of references leaves it immortal-only and every count exact |
| RcMutator.PromoteInv | runtime/minyar_runtime.c:402-411 | the first mortal member turns an immortal-only List into a counted one; counts stay exact |
| RcMutator.MakeImmortalInv | runtime/minyar_runtime.c:1101-1115 | a fresh Text put in the cache is never counted again, and every other count stays exact |
| RcMutator.AllocateInv | runtime/minyar_rc.h:109-120 | a new object at any free cell starts with one held owner |
| RcMutator.PushInv | runtime/minyar_rc.h:245-303 | a new frame owns nothing |
| RcMutator.ChunkCount | runtime/minyar_bounded_rc.h:103-112 | because only the last chunk may be partial, the ceiling of temporaries by eight is the number of chunks |
| RcMutator.RetireTemporariesInv | runtime/minyar_bounded_rc.h:103-112 | detaching temporaries moves their owners and raises pending by the chunks moved |
| RcMutator.DetachInv | runtime/minyar_rc.h:305-325 | leaving queues a frame with its owners, none of them lost |
| RcMutator.KeepInv | runtime/minyar_rc.h:327-360 | a kept temporary moves from running code to the frame, all chunks but the last staying full |
| RcMutator.StoreInv | runtime/minyar_rc.h:362-375 | storing a local hands back the old value's owner and keeps the written index exact |
| RcMutator.MoveInv | runtime/minyar_rc.h:377-387 | moving a local out passes its owner to running code and keeps its tag |
| RcMutator.UnlinkInv | runtime/minyar_stack_frames.h:46-58 | unlinking a stack frame leaves exactly its written locals' owners in hand |
| RcCollector.ObjectUnitProgress | runtime/minyar_bounded_rc.h:241-335 | an object unit advances the unit-at-a-time run by one, up to the queue position written at the end |
| RcCollector.UnaryPair | runtime/minyar_bounded_rc.h:247-303 | for a sole unvisited unary record, two units are its field's drop and its own end |
| RcCollector.CarryUnary | runtime/minyar_bounded_rc.h:271-289 | a unique unary child becomes the next sole task, in the state the scheduler would reach |
| RcCollector.PairByDrop | runtime/minyar_bounded_rc.h:290-297 | finishing the last pair from the detached state gives the scheduler's state |
| RcCollector.ListVisitUnit | runtime/minyar_bounded_rc.h:304-331 | with no recent task, visiting an active List's slot is an object unit whoever's turn it is |
| RcCollector.FinishesAtMostTwo | runtime/minyar_bounded_rc.h:42-97 | one drop finishes at most two leaves, and two exactly for the last owner of a view that is the last owner of its backing |
| RcCollector.ReleaseWithinLimit | docs/bounded-runtime-contract.md:118 | the work of a release is within its budget exactly when the budget is at least two or that case does not arise, and never above the larger of budget and two |
| RcCollector.ReleaseExceedsLimit | docs/bounded-runtime-contract.md:118 | a reachable state whose release does two units of work with a budget of one |
| RcCollector.WrittenFits | runtime/minyar_rc.h:362-375 | the written index is no longer than the frame has locals |
| RcCollector.Collector.constructor | runtime/minyar_rc.h:87-91 | the collector starts exact, for any allowed budget |
| RcCollector.Collector.Drop | runtime/minyar_bounded_rc.h:66-97 | the threaded queues and the heap are what the machine's drop gives, with the leaves finished counted |
| RcCollector.Collector.OldUnit | runtime/minyar_bounded_rc.h:114-142 | the machine's old unit, links and tail included |
| RcCollector.Collector.RecentUnit | runtime/minyar_bounded_rc.h:147-173 | the machine's recent unit, links and tail included |
| RcCollector.Collector.ObjectUnit | runtime/minyar_bounded_rc.h:180-199 | the machine's object unit |
| RcCollector.Collector.FrameUnit | runtime/minyar_bounded_rc.h:201-221 | the machine's frame unit |
| RcCollector.Collector.ChunkUnit | runtime/minyar_bounded_rc.h:223-233 | the machine's chunk unit |
| RcCollector.Collector.UnaryChain | runtime/minyar_bounded_rc.h:247-303 | the fused chain ends where as many single units would, for every budget |
| RcCollector.Collector.ListRun | runtime/minyar_bounded_rc.h:304-331 | the List run ends where as many single units would, stopping at the first newly dead nonleaf |
| RcCollector.Collector.PollObjects | runtime/minyar_bounded_rc.h:241-335 | an object-only poll is the iterated scheduler, queue position included |
| RcCollector.Collector.PollAll | runtime/minyar_bounded_rc.h:336-351 | the general loop is the iterated scheduler |
| RcCollector.Collector.SelectQueue | runtime/minyar_bounded_rc.h:337-344 | the selection loop finds the scheduler's queue |
| RcCollector.Collector.Poll | runtime/minyar_bounded_rc.h:238-356 | poll refinement: the same queues, cursors, counts, turn and queue position, and the same work, as the unit scheduler run up to the smaller of budget and limit |
| RcCollector.Collector.Service | runtime/minyar_rc.h:95-101 | an idle service point does nothing, any other is a poll |
| RcCollector.Collector.Release | runtime/minyar_bounded_rc.h:358-365 | drop, then a poll of what is left of the budget; the work is within the limit exactly when the limit is at least two or no view dies with its backing |
| RcCollector.Collector.Retain | runtime/minyar_rc.h:160-167 | one more owner, immortals unchanged |
| RcCollector.Collector.Allocate | runtime/minyar_rc.h:109-120 | after service, a fresh object at a free cell, a view taking over its backing's owner |
| RcCollector.Collector.ListAdd | runtime/minyar_runtime.c:413-453 | with a retain or taking an owner over: growth first if full, promotion, the append, service after; the members are the old ones followed by the new, no other object's change, and the List lives on |
| RcCollector.Collector.ListSet | runtime/minyar_runtime.c:471-505 | out of range stops; only the member at the position changes, in this List alone; a counted List releases its old member within the release's exact limit; an immortal-only List only stores, with no work |
| RcCollector.Collector.RecordSetTake | runtime/minyar_runtime.c:576-594 | a reference field takes its owner over, then a poll; only that field of that record changes; what it held before is not released and stays counted; out of range stops |
| RcCollector.Collector.Enter | runtime/minyar_rc.h:245-303 | a poll, then a frame from the cache if there is one, on top of the others as they were, all its locals null and unwritten |
| RcCollector.Collector.Leave | runtime/minyar_rc.h:305-325 | temporaries detached, the frame queued last, then a poll; the frames below stay as they were |
| RcCollector.Collector.Step | runtime/minyar_rc.h:399-408 | temporaries detached, then a poll |
| RcCollector.Collector.Keep | runtime/minyar_rc.h:327-360 | null and immortal values need no owner; any other comes last among the frame's temporaries; a full chunk is served before a new one |
| RcCollector.Collector.LocalTake | runtime/minyar_rc.h:362-375 | that local holds the value and no other local or frame changes; a first value enters it once in the written index; then a public release of the previous value within the release's exact limit |
| RcCollector.Collector.LocalMove | runtime/minyar_rc.h:377-387 | the value and its owner move out, the tag and every other local stay |
| RcCollector.Collector.EnterStack | runtime/minyar_stack_frames.h:22-44 | a small frame below the budget uses the caller's storage, any other enters as usual |
| RcCollector.Collector.LeaveStack | runtime/minyar_stack_frames.h:46-71 | written locals are dropped at once, last first, and with the poll after them the visits stay within the limit; no queue or cache sees the frame |
| RcCursor.RoomForCursor | runtime/minyar_bounded_rc.h:15-40 | any 64-bit length n has n below 128 to the smaller of n and ten |
| RcCursor.SaveCursor | runtime/minyar_bounded_rc.h:29-40 | the digits written are the cursor and every flag bit stays |
| RcCursor.LoadCursor | runtime/minyar_bounded_rc.h:18-27 | the digits read, in 64 bits |
| RcCursor.SuspendResume | runtime/minyar_bounded_rc.h:15-40 | for every length and cursor up to it, saving then loading gives the cursor back |
| PoolMap.BuddyFacts | runtime/minyar_pool.h:205-223 | flipping one bit of an aligned offset gives the other half of one enclosing aligned block |
| PoolMap.TakeGood | runtime/minyar_pool.h:164-174 | taking a free block keeps tiling and no free buddies |
| PoolMap.SplitGood | runtime/minyar_pool.h:167-171 | splitting a held block keeps tiling and no free buddies |
| PoolMap.MergeGood | runtime/minyar_pool.h:213-220 | absorbing a free buddy keeps tiling and no free buddies |
| PoolMap.GiveGood | runtime/minyar_pool.h:205-223 | freeing a block whose buddy is not free keeps tiling and no free buddies |
| PoolComplete.RegionInOneBlock | runtime/minyar_pool.h:205-223 | any aligned region with no allocated unit lies in one free block |
| PoolComplete.RegionIffBlock | runtime/minyar_pool.h:152-186 | such a region of an order exists exactly when a free block of that order or larger does |
| PoolComplete.AllocatedFixMap | runtime/minyar_pool.h:205-223 | the whole map is determined by its allocated blocks |
| PoolComplete.NothingAllocated | runtime/minyar_pool.h:205-223 | with nothing allocated the pool is one maximal block |
| PoolComplete.InitialGood | runtime/minyar_pool.h:119-148 | the initial pool is one free block and well formed |
| PoolLists.InsertLists | runtime/minyar_pool.h:89-100 | after an insert every doubly linked list holds exactly the free starts of its order, and the mask says which are nonempty |
| PoolLists.RemoveLists | runtime/minyar_pool.h:101-115 | so it does after a removal from anywhere in a list |
| Pool.AllocateThenFree | runtime/minyar_pool.h:152-223 | freeing what was just allocated restores the map |
| Pool.Pool.constructor | runtime/minyar_pool.h:119-148 | one free block, nothing used |
| Pool.Pool.Insert | runtime/minyar_pool.h:89-100 | links, head, mask and map entry change; no unit outside free blocks is written |
| Pool.Pool.Remove | runtime/minyar_pool.h:101-115 | the node is unlinked and its entry cleared; no unit outside free blocks is written |
| Pool.Pool.TryAllocate | runtime/minyar_pool.h:152-186 | fails exactly when the size exceeds the pool or no aligned region of the rounded size is free; otherwise grants the start of a smallest free block that suffices, frees that block's upper halves and changes no other entry, touching no live unit, in as many steps as that block's order |
| Pool.HeadFits | runtime/minyar_pool.h:161-164 | the head of the list at the lowest set bit is a free block of the least order that suffices |
| Pool.CarvedElsewhere | runtime/minyar_pool.h:165-170 | every other block, free or allocated, stays |
| Pool.OwnOrderWhole | runtime/minyar_pool.h:161-171 | a request whose own order has a free block splits nothing |
| Pool.Pool.Deallocate | runtime/minyar_pool.h:196-223 | refuses what is not an allocated start; otherwise the other blocks and their contents stay, `used` falls by the block, the invariant holds |
| Pool.Pool.ScanUpper | runtime/minyar_pool.h:266-272 | finds growth exactly when the block is aligned and every upper buddy on the way is free |
| Pool.Pool.ScanLower | runtime/minyar_pool.h:328-336 | finds growth exactly when every buddy on the way, on either side, is free |
| Pool.Pool.TryResizeSameBase | runtime/minyar_pool.h:248-287 | succeeds exactly when shrinking or upper growth is possible, keeps the shared prefix and all other blocks; a failed scan changes nothing |
| Pool.Pool.TryGrowLower | runtime/minyar_pool.h:323-354 | succeeds exactly when every buddy on the way is free; a failed scan changes nothing |
| Pool.Pool.CopyUnits | runtime/minyar_pool.h:311 | the copy between two live blocks changes the target's prefix only and no free-list link |
| Pool.Pool.Resize | runtime/minyar_pool.h:290-320 | exactly when it succeeds and when in place; keeps the first min(old, new) bytes' units and every other block; at most four times max-order steps |
| Pool.Pool.ResizeDiscard | runtime/minyar_pool.h:359-396 | exactly when it succeeds, lower merging included; every other block kept; at most four times max-order steps |
| Stage0Source.DivideIdentity | bootstrap/stage0.c:1497-1506 | the quotient used for division truncates toward zero and its remainder has the dividend's sign |
| Stage0Check.FindLocal | bootstrap/stage0.c:825-832 | the newest active local of a name, or none when no local of that name is active |
| Stage0Check.ExpressionResolves | bootstrap/stage0.c:854-1003 | a checked expression keeps its value when names become slots, never goes wrong, and has its type |
| Stage0Check.StatementResolves | bootstrap/stage0.c:1083-1169 | so does a checked statement: same ending, and states that agree on every name in scope |
| Stage0Check.BlockResolves | bootstrap/stage0.c:1165-1168 | leaving a block ends its names and keeps the outer ones' current values |
| Stage0Accepts.ExpressionAccepted | bootstrap/stage0.c:854-1003 | an expression is accepted at a type exactly when names are in scope and every operator's meaning is never stuck, and of that type, on all values of its operands' types |
| Stage0Accepts.StatementAccepted | bootstrap/stage0.c:1083-1169 | a statement is accepted exactly by the rules of scope, shadowing, declared, assigned and result types and conditions, and leaves the scope they say |
| Stage0Accepts.AllAccepted | bootstrap/stage0.c:1088-1164 | so is a list, in which every statement but the last can be passed |
| Stage0Accepts.BlockAccepted | bootstrap/stage0.c:1165-1168 | and a block, whose names end with it |
| Stage0Accepts.NeverPassed | bootstrap/stage0.c:1067-1081 | a statement no path passes never ends normally |
| Stage0Accepts.PassesOrReturns | bootstrap/stage0.c:1067-1081 | an accepted statement guarantees a return exactly when no path through it reaches its end |
| Stage0Accepts.ParametersAccepted | bootstrap/stage0.c:1187-1193 | parameters are accepted exactly when no name repeats, and are the function's first scope |
| Stage0Accepts.AcceptedExactly | bootstrap/stage0.c:1171-1203 | a function is accepted exactly when it is well formed: `main` takes nothing, names differ, the body obeys the rules, and no path leaves a function that owes a value |
| Stage0Emit.Emitter.EmitExpression | bootstrap/stage0.c:1236-1520 | printed lines, counters, current block and operand are the emission's |
| Stage0Emit.Emitter.EmitLogical | bootstrap/stage0.c:1427-1456 | the branch, the two labels and a phi that names the blocks left |
| Stage0Emit.Emitter.EmitStatement | bootstrap/stage0.c:1524-1628 | printed lines, counters, block and returned flag are the emission's |
| Stage0Emit.Emitter.EmitStatements | bootstrap/stage0.c:1630-1636 | nothing is printed after a statement that returned |
| Stage0Correct.ExpressionRuns | bootstrap/stage0.c:1236-1520 | running an expression's lines leaves its value in its operand in the block the emitter tracks, or stops exactly where it traps |
| Stage0Correct.LogicalRuns | bootstrap/stage0.c:1427-1456 | short circuit: whichever block is left, the phi picks the right value, nested operators included |
| Stage0Correct.CheckedRuns | bootstrap/stage0.c:1475-1496 | the four lines of a checked operation wrap nothing: they give the exact value or stop |
| Stage0Statements.CommandRuns | bootstrap/stage0.c:1524-1628 | running a statement's blocks ends as the statement does, and goes on as long as it does |
| Stage0Statements.LoopRuns | bootstrap/stage0.c:1606-1625 | so does a loop, each iteration taking a step |
| Stage0Shape.DefinedOnce | bootstrap/stage0.c:1228-1234 | in a whole function every label and register is defined at most once |
| Stage0Shape.OneTerminator | bootstrap/stage0.c:1524-1636 | a line is a terminator exactly when it is the last of its block |
| Stage0Shape.FlagsAgree | bootstrap/stage0.c:1067-1081 | for checked statements the return analysis of the last statement is the emitter's returned flag |
| Stage0Program.StatementReturns | bootstrap/stage0.c:1140-1149 | a checked function returns only values of its declared type |
| Stage0Program.NoUnreachable | bootstrap/stage0.c:1723-1730 | `unreachable` is never printed for a checked value-returning function other than main |
| Stage0Labels.MentionedIsDefined | bootstrap/stage0.c:1427-1636 | every target of a jump and every predecessor a phi names is a label of the function |
| Stage0Machine.Low32 | bootstrap/stage0.c:1567-1569 | an exit code is the one number of 32 signed bits congruent to the value returned |
| Stage0Program.CallRuns | bootstrap/stage0.c:1686-1732 | with enough steps the machine gets as far as any number of loop iterations takes the source, for every checked function |
| Stage0Program.MeaningPreserved | bootstrap/stage0.c:1524-1732 | for every checked function and arguments, `main` returning Integer or containing no `return`: the emitted code halts with an ending exactly when the source ends so, and is never stuck |
| Stage0Program.StuckExactly | bootstrap/stage0.c:1561-1575 | run line by line, the code of a checked function gets stuck exactly when it is a `main` not declared Integer and the source reaches a `return`; what printing such a `return` does is the next rows |
| Stage0Program.OtherMainsBreak | bootstrap/stage0.c:1561-1575 | `main(): Boolean { return true }` and `main(): Nothing { return }` pass the checker and get stuck |
| Stage0Types.ExpressionOk | bootstrap/stage0.c:1236-1520 | every line of a checked expression uses its registers at the types they were defined with, and the operand has the expression's type |
| Stage0Types.CommandBad | bootstrap/stage0.c:1561-1575 | a `return` anywhere in a checked `main` not declared Integer prints an ill-typed line |
| Stage0Types.WellTypedExactly | bootstrap/stage0.c:1173-1732 | for every checked function: all locals and lines are well typed, each `ret` matching the function's type, exactly when no parameter is declared Nothing and `main` returns Integer or contains no `return` |
| Stage0Types.UnreachedReturnSpoils | bootstrap/stage0.c:1561-1575 | `main(): Boolean { if false { return true } }` passes the checker, never returns, and is ill typed |
| Stage0Types.NothingParameterSpoils | bootstrap/stage0.c:415-427 | a parameter declared Nothing passes the checker and makes its local a `void` |
| Stage0Paths.ExpressionWalks | bootstrap/stage0.c:1236-1520 | along every path an expression's lines define its operand before it is used |
| Stage0Paths.CheckedCovers | bootstrap/stage0.c:1083-1169 | a checked statement reads only slots already stored |
| Stage0Paths.NoPathAstray | bootstrap/stage0.c:1524-1732 | on every path, whichever way its branches go: registers defined before use, locals stored before load, labels present, phis entered from blocks they name |
| Graph.Reachable | experiments/memory/production-contract-model.py:14-23 | true exactly when a path exists |
| Graph.IsAcyclic | experiments/memory/production-contract-model.py:26-37 | Kahn's count is complete exactly when there is no cycle |
| Graph.SourcelessIsCyclic | experiments/memory/production-contract-model.py:26-37 | a nonempty set each of whose members has a predecessor in it contains a cycle |
| TypeGuard.GuardKeepsAcyclic | experiments/memory/production-contract-model.py:41-59 | any number of types and objects: edges permitted by age or by the guard form no cycle |
| TypeGuard.ProgramsStayAcyclic | docs/language.md:103-108 | every state of every accepted program is acyclic |
| TypeGuard.DirectCheckIsUnsound | experiments/memory/production-contract-model.py:61-66 | a store that passes a check of direct types only, on objects constructed in order, closes a cycle; the real guard rejects it |
| Utf8.DecodeEncode | runtime/minyar_runtime.c:1119-1147 | decoding an encoded scalar value gives it back, whatever follows |
| Utf8.EncodeDecode | runtime/minyar_runtime.c:800-834 | what the decoder accepts is a scalar value and re-encodes to the bytes read |
| Utf8.RoundTrip | runtime/minyar_runtime.c:800-834 | bytes decode to a list exactly when the list is of scalar values and encodes to those bytes |
| Utf8.HighBitsExact | runtime/minyar_runtime.c:864-872 | the masked word is zero exactly when each of its bytes is ASCII |
| Utf8.AsciiByLength | runtime/minyar_runtime.c:883-886 | as many characters as bytes exactly when all bytes are ASCII |
| TextIndex.OffsetStep | runtime/minyar_runtime.c:951-959 | decoding at the sum of the preceding widths gives the next character and its width |
| TextIndex.Text.SkipAscii | runtime/minyar_runtime.c:864-876 | skipping by words then bytes stops at the first byte above 127 |
| TextIndex.Text.Count | runtime/minyar_runtime.c:859-881 | counts the characters, or refuses exactly the bytes that are not UTF-8 |
| TextIndex.Text.Fill | runtime/minyar_runtime.c:894-917 | one breadcrumb for each 64 characters, each the byte offset of its character |
| TextIndex.Text.BuildIndex | runtime/minyar_runtime.c:859-924 | length and index are right, an index is built exactly for non-ASCII Text, bad bytes are refused |
| TextIndex.Text.ByteOffset | runtime/minyar_runtime.c:940-963 | the sum of the preceding widths for every position up to the length, at most 63 decodes, cursor valid and moved there |
| TextIndex.Text.IndexedCharacter | runtime/minyar_runtime.c:965-976 | the plain decoding's character, one more decode, cursor past it |
| TextIndex.Text.Length | runtime/minyar_runtime.c:926-934 | the number of characters, or bad bytes refused |
| TextIndex.Text.CharacterAt | runtime/minyar_runtime.c:982-1002 | the plain decoding's character, or the error each bad position or bad Text deserves |
| TextIndex.Text.Slice | runtime/minyar_runtime.c:1008-1073 | the encoding of exactly the characters asked for, as a valid Text; bad bounds refused |
| TextIndex.Text.Scan | runtime/minyar_runtime.c:965-976 | a forward scan of n characters decodes exactly n, wherever the cursor was |
| TextIndex.Text.JoinTakeLeft | runtime/minyar_runtime.c:741-763 | bytes joined; the invariant holds after exactly when a length was unknown or both operands are ASCII |
| TextIndex.JoinKeeps | runtime/minyar_runtime.c:757-761 | that condition, on values, both ways |
| TextIndex.JoinFails | runtime/minyar_runtime.c:757-761 | an input on which the join leaves a Text whose first character would be misread |
| Cache.CountCharacters | tools/module-build.c:74-76 | counts the bytes that begin a character |
| Cache.CountExact | tools/module-build.c:74-76 | of a well-formed field that is its number of characters |
| Cache.CharacterWidth | tools/module-build.c:90-96 | the reader's own character test is the decoder's |
| Cache.SkipSixteen | tools/module-build.c:88 | skipping sixteen ASCII bytes at a time takes as many characters |
| Cache.Field | tools/module-build.c:77-100 | reads the count, the characters and nothing else |
| Cache.FieldRoundTrip | tools/module-build.c:188-191 | a written field is read back exactly, whatever follows, when its count is within the reader's limit, and refused above it |
| Cache.FieldsRoundTrip | tools/module-build.c:188-191 | so is any list of fields |
| Cache.ValidCache | tools/module-build.c:106-113 | answers a sum exactly when the bytes spell five fields and nothing more: the magic, this identity, this entry, that sum, and a state whose checksum the sum spells in sixteen lower-case digits |
| Cache.FieldExactly | tools/module-build.c:77-100 | a field is read exactly when decimal digits within the limit, a newline and that many well-formed characters are there |
| Cache.SpellsHex | tools/module-build.c:110 | of a 64-bit number, the sixteen digits printed are the only lower-case ones that read back to it |
| Cache.EnvelopeAccepted | tools/module-build.c:106-113 | of any five written fields, those are accepted that are well formed, for this identity and entry and no other, and only with the checksum of the state beside it |
| Cache.AlteredRefused | tools/module-build.c:110-111 | a published file whose state is replaced by one of another checksum is refused by everyone |
| Cache.PublishAccepted | tools/module-build.c:192-204 | what is published is accepted with its own checksum exactly for the same identity and entry and when its fields are well-formed UTF-8 |
| Cache.PublishFits | tools/module-build.c:193 | the size guard keeps the file within what its reader reads |
| Cache.PublishRefuses | tools/module-build.c:193 | only a file within 113 bytes of the limit, or above it, is not published |

## Left out

- Reference counts are unbounded: the stop on a count that would overflow is not modelled.
- Text bytes, List buffers and index arrays are not allocations of their own in the counted heap; only objects and their owner slots are.
- The address of a new object is any free cell; the counted heap and the pool are verified side by side, not one on top of the other.
- A frame's byte charge is a parameter; the frame cache is the list of charges it holds.
- RcCollector.Collector.LeaveStack: requires the frame admitted by the paired enter, with fewer locals than the limit.
- RcEager.EagerRelease: covers heaps without immortal-only Lists, a kind the eager profile never creates.
- RcEager.EagerEqualsDeferred: starts from a state with nothing pending, as the eager profile always has between calls.
- `minyar_rc_local`, `minyar_rc_borrow`, `minyar_list_appended` and `minyar_record_set_reference` only compose modelled operations.
- Pool memory is in 32-byte units, so a copy keeps whole units covering the bytes asked for; the order mask is the set of its bits; a null pointer (allocate on resize, nothing on release) is not modelled.
- Sanitizer poisoning, lazy page mapping, the system-heap backend and the compiler arena with its slice cache are outside the model.
- Code generation covers Integer and Boolean values, locals, checked arithmetic, comparison, logic, let, assignment, if, while and return; calls, Text, Character and List code and the printed LLVM text are outside it, and so is parsing.
- Stage0Program.MeaningPreserved: excludes a `main` that is not declared Integer and contains a `return`, which `Stage0Types.WellTypedExactly` settles; parameters start in their slots, the stores and allocas of the prologue not being lines of the model.
- Whether a Text slice copies or shares its bytes is not modelled here; ownership of a shared backing is part of the counted heap.
- Byte-wise equality of Text, printing, files, arguments and platform calls are outside the model.
- The cache's checksum is any 64-bit function of the state's bytes; launching the compiler, atomic publication and compiler snapshots are outside the model.
