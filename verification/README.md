# A verified model of the Utreexo bridge

The bridge keeps a Utreexo accumulator (a forest of full binary hash trees with one tree per set
bit of the leaf count) in a pointer arena, proves and verifies batches of leaves against its
roots, and stores the arena in layers that survive a crash at any point. This project models that
core and proves what it is for. Hash functions stay opaque: `ParentHash` is a parameter, and only
soundness assumes anything of it.

The modules follow the program.

* **Positions and proofs.** `Bits` and `Position` give the 64-bit position arithmetic closed forms;
  `Trees` is the abstract forest; `ProofPlan` and `ProofOrder` are the planning of a batch proof,
  `Verify` and `Complete` its verification: an accepted proof is true, and a proof made from the
  forest is accepted.
* **The forest in memory.** `Records` and `Arena` are the mapped node arena with its lazy free stack
  and block transactions; `LeafTable` and `LeafIndex` the keyless open-addressing index;
  `ArenaTrees`, `ForestState`, `ArenaPaths` and `Accumulator` what records stand for; `Packed` the
  forest class. Every block leaves exactly the surviving leaves, compressed, then the additions
  carried in by the binary counter.
* **Layers.** `DeltaRuns` (Bloom word and fences), `RunMerge` (k-way merge), `Layering` (seal and
  compaction), `Windows` (buffered scan) and `Validator` (two-pass out-of-core validation).
* **Durability.** `Transactions`, `DeltaStore` and `Durability` are recovery and rollback; `LogRecords`
  and `LogSteps` the log files with the history behind them, records left behind by failed appends
  included. `OnlineRuns` puts them into one state machine: blocks connected and disconnected, with
  and without a log, failed appends, seals, compactions, unlinks, log pruning and crashes.
  `UndoRuns` says what a rollback finds and restores in every run. `Bytes` and `Wal` carry the crash
  theorem down to torn bytes, and `WalParts` to the parts of records that failed writes leave behind.
* **The online class.** `Blocks` and `Online` are the class with ModifyBlock and RollbackOnlineBlock,
  and `Refinement` shows that a forest just opened matches the machine's initial state and that every
  call from then on is a step of the machine (`CleanRecords` supplies that free records carry no
  links). `Layouts`, `SameBlocks` and `GenuineRuns` follow the trees through the runs whose blocks
  ModifyBlock could have connected. `Scenarios`, `StaleLeaf`, `TwoLayouts` and `EmptiedTree` are runs
  that end badly.
* **Around it.** `Sync` follows the active chain on the class; `Repair` and `StartupCache` restart from
  a cached index, and `CacheRuns` shows that the cache stays good along the runs of the machine.
* **Wire form.** `WireTargets` and `Wire`.

`dafny verify dfyconfig.toml` checks everything.

## What turned out not to hold

* `ProofPositions` does not always return exactly the needed siblings. With a target outside the
  forest the answer can hold one root too many, and depends on the order of the targets
  (`ProofPlan.OrderMatters`). It is exact in every order if and only if every root that is reached
  from the targets is reached in no more steps than its sibling: `ProofOrder.ExactInEveryOrder`.
  For one order, `ProofOrder.ProofsExactly` says which roots come too many.
* Recovery can refuse a log. An append that fails after writing (src/forest.cpp:3551-3556) leaves a
  record with the LSN of the next block. At the end of the log it is replayed as if it had succeeded;
  followed by another record, recovery refuses. `OnlineRuns.CrashSafety` states the condition for
  every run and every cut, `Scenarios.RefusedLog` gives a run.
* Recovery can drop acknowledged blocks. A write that fails part-way leaves the beginning of a record in
  the segment, and later appends go behind it. With fewer than 8 bytes of it the file is unreadable;
  with 8 to 15, or with more as long as the file ends before the record would, everything behind is cut
  off; beyond that the mixed bytes are read as a record (`WalParts.PartJudged`). For every run and every
  such log, `WalParts.AcknowledgedSurvive` states when the store comes back: exactly when no part makes
  a file unreadable and no record above the durable LSN stands behind a part. `Scenarios.PartLoses`
  gives a run.
* A rollback can succeed and restore the wrong records. When pruning has removed the transaction that
  connected the tip, an older connect of the same point is taken for it (src/forest.cpp:3580-3620).
  A tip at or above the pruning floor is always restored (`UndoRuns.WindowUndo`); `UndoRuns.UndoSafety`
  treats every tip. `Scenarios.WrongUndo` drives the forest class into such a run, with two blocks of
  different contents for one point.
* The same contents for every connect of a point do not help. Deletions push ids on the stack in the order
  of the deletions, undoing pushes them in ascending order, so a block connected again can lay the same
  trees out at other ids; an older connect of a block above it then leaves records that stand for no
  forest with the right trees (`TwoLayouts.SameBlockWrong`, again on the class). In every run of blocks
  that ModifyBlock could have connected, with distinct leaf hashes and one block for each point, a
  rollback that succeeds brings the trees back if and only if the roots are the ids at which the connect
  it found left them: `GenuineRuns.SameBlockUndo`.
* Undoing a block does not always restore live + free = next. A seal drops dirty records at or
  above `next` (src/forest.cpp:1098-1104), so a leaf of an older run can show through there; a
  block that reuses the id records that leaf as its before-image, and the undo writes it back live
  beyond the end, where it stays in the live count and in the index. `Blocks.UndoBalanced` and
  `Online.OnlineForest.RollbackOnlineBlock` give the exact condition,
  `StaleLeaf.SealUncoversStaleLeaf` does it on the class, over any full arena.
* With proofs wanted, the synchroniser refuses blocks that apply. It checks a proof against the roots
  only when every tree has one (src/sync.cpp:266-269), so from the first emptied tree on each block is
  refused: `Sync.SequentialSync.ProcessNext` gives the exact condition, `EmptiedTree.ProofsStop` a run.
* An arena whose last id is handed out (`next` equal to NO_NODE) cannot be rebuilt or published, and
  its log record is written but refused when read (`Wal.WalRoundTrip`); every contract below says
  where `next < NO_NODE` matters.
* `VerifyProof` does not check that targets are below `2 << rows`, but `NodeAt` masks positions the
  same way, so soundness holds for every 64-bit target.

## Model

| member | source | states |
|---|---|---|
| Position.DetectRow | src/position.cpp:18-27 | the loop counts the leading ones of the position in its rows + 1 bits |
| Position.RowOfPlace | src/position.cpp:18-27 | the row of every place (row, offset) is found, for any number of rows |
| Position.Decode | src/position.cpp:18-27 | every position below the all-ones one is a place of its row, so places and positions correspond one to one |
| Position.ParentPlace | src/position.cpp:36-36 | the parent of a place is the place one row up at half the offset |
| Position.ChildPlace | src/position.cpp:29-35 | the children of a place are the two places one row down at twice the offset |
| Position.SiblingPlace | src/position.cpp:86-86 | flipping the low bit stays in the row and under the same parent |
| Position.RootPositionIs | src/position.cpp:38-44 | the masked shifts compute the place that the tree of a row has by the leaf count alone |
| Position.RootPlace | src/position.cpp:46-50 | a place is a root exactly when its row's bit is set and it has the root offset |
| Position.UnderIff | src/position.cpp:38-50 | a place lies under a root exactly when its offset is populated, and then under exactly one root |
| Position.PopulatedUp | src/position.cpp:36-50 | above a populated position that is no root, parent and sibling are populated too |
| Position.RootSibling | src/position.cpp:46-50 | a root is populated and its sibling never is |
| Position.DetectOffset | src/position.cpp:52-73 | the masked subtraction loop computes the specification of tree, branch length and path |
| Position.OffsetOfIs | src/position.cpp:52-73 | for every populated place, whatever bits lie above it, the answer is its tree's index, its distance to the root and its path |
| ProofPlan.ProofPositions | src/position.cpp:75-94 | the worklist loop terminates for all 64-bit targets and returns the planned positions in ascending order |
| ProofPlan.KnownIsClosure | src/position.cpp:75-94 | for any targets in any order, repeated or not, the known positions are the least set closed under parents that holds the targets |
| ProofPlan.ProofsAreNeeded | src/position.cpp:75-94 | every sibling outside the closure of a non-root inside it is returned, and anything else returned is a root whose sibling is in the closure |
| ProofPlan.PopulatedPlan | src/position.cpp:75-94 | for targets inside the forest the answer is sorted and exactly the needed siblings |
| ProofPlan.TargetsStayOut | src/position.cpp:81-88 | no target is ever asked for |
| ProofPlan.OrderMatters | src/position.cpp:75-94 | a concrete target outside the forest for which the answer depends on the order |
| ProofOrder.ProofsExactly | src/position.cpp:75-94 | for any 64-bit targets in any order, a position is returned if and only if it is needed, or it is a stray root, no target, whose sibling the worklist meets before any child of it |
| ProofOrder.SiblingFirstIs | src/position.cpp:75-94 | what meeting the sibling first means, on the list of positions in the order in which the worklist takes them |
| ProofOrder.ReachedIsKnown | src/position.cpp:75-94 | the known positions are those reached from the targets in some number of steps |
| ProofOrder.ExactInEveryOrder | src/position.cpp:75-94 | for any set of targets: the answer is exactly the needed siblings in every order if and only if every root reached is reached in no more steps than its sibling |
| ProofOrder.LateRootShows | src/position.cpp:75-94 | when a root is reached later than its sibling, an order of the same targets whose answer holds the root |
| ProofOrder.PopulatedRootsFirst | src/position.cpp:75-94 | targets inside the forest meet that condition |
| Trees.PathRoundTrip | src/forest.cpp:4276-4332 | the position computed from a path denotes exactly the node the path leads to, by specification and by the offset walk |
| Trees.LocateIs | src/forest.cpp:4309-4332 | at populated positions the offset walk finds what stands at the place |
| Trees.AtChildren | src/forest.cpp:4309-4332 | whatever stands at the parent of a 64-bit position, its two children stand at the two positions below |
| Trees.AtNonRoot | src/forest.cpp:4309-4332 | what stands at a non-root position has a parent standing at the parent position |
| Verify.VerifyProof | src/forest.cpp:4899-4970 | the streaming loops compute the functional verifier on every input, errors included |
| Verify.ListExpectedRoots | src/forest.cpp:4932-4938 | the listed roots are assigned to root positions from the highest row down |
| Verify.StreamNodes | src/forest.cpp:4940-4969 | the two-queue loop computes the streaming specification |
| Verify.StreamSound | src/forest.cpp:4940-4969 | whatever the queues hold, an accepted stream had only true claims in them |
| Verify.VerifySound | src/forest.cpp:4899-4970 | with all roots present, injective ParentHash and leaf hashes outside its range, every claim of an accepted proof is the hash of the node NodeAt finds there, for all 64-bit targets |
| Complete.StreamComplete | src/forest.cpp:4940-4969 | fed the planned positions with the right hashes, the stream meets every pair and every root and accepts |
| Complete.VerifyComplete | src/forest.cpp:4877-4970 | in every well-formed forest, promoted leaves and emptied roots included, a proof of distinct live leaves with the right hashes is accepted, whatever stands for an empty root |
| LeafTable.HoleMoves | src/forest.cpp:1718-1729 | moving an entry back into the hole keeps every entry reachable and opens the next hole |
| LeafTable.HoleCloses | src/forest.cpp:1718-1732 | at the first empty slot the hole can be emptied and nothing is stranded |
| LeafTable.MaskDist | src/forest.cpp:1720-1722 | the masked unsigned subtraction is the cyclic distance |
| LeafTable.MaskedIs | src/forest.cpp:1720-1722 | the source's masked expression, as the back-shift loop uses it, is the cyclic distance for every table |
| LeafTable.EmptySlot | src/forest.cpp:1684-1688 | the load bound leaves an empty slot, which ends every probe loop |
| LeafIndex.KeylessLeafIndex.Find | src/forest.cpp:1667-1680 | hits exactly when some indexed live leaf has the hash |
| LeafIndex.KeylessLeafIndex.Insert | src/forest.cpp:1682-1704 | adds exactly the id, keeps every entry reachable, and rehashes exactly when the load bound requires it |
| LeafIndex.KeylessLeafIndex.BackShift | src/forest.cpp:1709-1734 | removes exactly the entry and strands no other |
| LeafIndex.KeylessLeafIndex.Erase | src/forest.cpp:1706-1738 | removes exactly the id, and reports whether it was there |
| LeafIndex.KeylessLeafIndex.Rehash | src/forest.cpp:1887-1910 | keeps the set of ids and drops every deleted slot |
| LeafIndex.KeylessLeafIndex.PrepareInsertions | src/forest.cpp:1856-1868 | afterwards the announced insertions stay below the load bound; it rehashes exactly when they would not have |
| LeafIndex.KeylessLeafIndex.Clear | src/forest.cpp:1845-1852 | an empty sound table of the ceiling capacity |
| LeafIndex.Reinsert | src/forest.cpp:1897-1905 | one entry goes to the end of its unbroken probe path |
| Arena.NodeArena.Allocate | src/forest.cpp:931-953 | never hands out a live id; takes a free id when there is one despite stale stack entries, else the next fresh one; from a stack without stale entries it takes the top |
| Arena.NodeArena.DropStale | src/forest.cpp:934-936 | stale entries leave the top of the stack and no free id is lost |
| Arena.NodeArena.Free | src/forest.cpp:955-967 | the id joins the free ids on top of the stack with its links cleared, and live + free = next |
| Arena.NodeArena.Set | src/forest.cpp:987-1006 | one record changes and the books do not |
| Arena.NodeArena.Write | src/forest.cpp:1579-1592 | the record goes to the dirty layer, its original is saved once per transaction |
| Arena.NodeArena.BeginTransaction | src/forest.cpp:1445-1453 | nothing changes and everything can be undone |
| Arena.NodeArena.RollbackTransaction | src/forest.cpp:1478-1497 | records, free ids and counters are those at the start of the transaction |
| Arena.NodeArena.CommitTransaction | src/forest.cpp:1472-1476 | the transaction ends and the arena stays valid |
| Arena.NodeArena.LoadBookkeeping | src/forest.cpp:1421-1443 | a free list is accepted exactly when it is ascending, without repeats, below next, and ids are left; one that is the scan's restores the books |
| Arena.NodeArena.ApplyRuntime | src/forest.cpp:1528-1547 | one record is replaced and the id moves between free and live with it |
| Arena.NodeArena.SetRuntimeNext | src/forest.cpp:1549-1555 | after shrinking, the free ids are the free records below the end, and live + free = next holds exactly when nothing live fell off |
| Arena.NodeArena.SealDirty | src/forest.cpp:1098-1104 | sealing changes no visible record and no book |
| Arena.NodeArena.CompactDeltas | src/forest.cpp:3850-3917 | compaction changes at most the contents of free slots and keeps the books |
| Arena.NodeArena.Get | src/forest.cpp:1565-1641 | the dirty map, then the runs from newest to oldest through filter and fences, then the base, give the record of the flat view |
| Arena.NodeArena.Ensure | src/forest.cpp:1600-1605 | chunks are added until the id has a slot, and no more |
| Arena.NodeArena.PrepareAllocations | src/forest.cpp:1034-1042 | refused exactly when the ids do not suffice; otherwise so many ids can be given out without another chunk |
| Arena.JournalRestores | src/forest.cpp:1478-1484 | undoing the saved originals gives back the dirty map of the start |
| Arena.FallOff | src/forest.cpp:1549-1555 | how many free ids remain below a new end |
| ArenaTrees.PruneTwice | src/forest.cpp:4242-4274 | pruning in two steps is pruning at once, so the order of deletions does not matter |
| ArenaTrees.PruneShape | src/forest.cpp:4242-4274 | pruning keeps ids distinct, never raises the height, and leaves nothing exactly when no leaf survives |
| ArenaTrees.Spliced | src/forest.cpp:4256-4269 | promoting the sibling turns the links of a tree into those of the pruned tree |
| ArenaTrees.SplicedHashes | src/forest.cpp:4256-4269 | after the promotion every branch hash is right except possibly the grandparent's |
| ArenaTrees.RehashStep | src/forest.cpp:4334-4340 | recomputing the one stale branch moves the stale place to its parent |
| ForestState.RepresentsJoined | src/forest.cpp:4214-4222 | joining two roots under a new branch represents the forest with the joined tree |
| ForestState.RepresentsPruned | src/forest.cpp:4242-4274 | releasing what a pruned tree lost represents the forest with that tree in place |
| Accumulator.RowsCount | src/forest.cpp:4206-4274 | nodes are twice the leaves less one for every tree |
| Accumulator.CarryOrder | src/forest.cpp:4206-4228 | an addition appends its leaf behind all others in forest order |
| Accumulator.PruneOrder | src/forest.cpp:4242-4274 | deletions keep the survivors in their order |
| Accumulator.BlockOrder | src/forest.cpp:4342-4369 | after a block the leaves are the survivors in order, then the additions |
| Accumulator.BranchesTelescope | src/forest.cpp:4232-4235 | the branch allowance is additions + popcount before - popcount after |
| Packed.PackedForest.constructor | src/forest.cpp:4204-4204 | the empty forest is valid |
| Packed.PackedForest.Recompute | src/forest.cpp:4334-4340 | walking up to the root makes every branch hash right and touches nothing else |
| Packed.PackedForest.DeleteId | src/forest.cpp:4242-4274 | a live leaf is pruned from its tree and everything stays valid; anything else is refused unchanged |
| Packed.PackedForest.Add | src/forest.cpp:4206-4228 | the rows become those of the binary counter with the new leaf carried in |
| Packed.PackedForest.CarryStep | src/forest.cpp:4212-4224 | one carry: a standing tree is joined, an emptied row passes the tree on |
| Packed.PackedForest.PositionOf | src/forest.cpp:4276-4307 | succeeds for every live node and returns the position that denotes it |
| Packed.PackedForest.NodeAt | src/forest.cpp:4309-4332 | returns the node the offset walk denotes, with its hash, and fails exactly when there is none |
| Packed.PackedForest.FindLeaf | src/forest.cpp:1667-1680 | finds a leaf exactly when the forest contains the hash |
| Packed.PackedForest.Prove | src/forest.cpp:4877-4897 | succeeds exactly when every target is in the forest, with the targets' positions and the hashes standing at the needed positions |
| Packed.PackedForest.ProveAndVerify | src/forest.cpp:4877-4970 | a proof of distinct live leaves, verified against the current roots, is accepted |
| Packed.PackedForest.BranchAllowance | src/forest.cpp:4230-4235 | the loop computes the telescoping allowance |
| Packed.PackedForest.PrepareModify | src/forest.cpp:4230-4240 | succeeds exactly when the ids suffice, changes no record, rehashes at most once and exactly when the load requires it, and leaves room in the index and slots in the arena for the whole block |
| Packed.PackedForest.CollectDeletions | src/forest.cpp:4345-4356 | succeeds exactly when the deletions are distinct and present, with their ids and positions |
| Packed.PackedForest.ApplyBlock | src/forest.cpp:4359-4368 | prepared for, a block is applied without a rehash and without another chunk, every id it hands out below the slots there were; the arena grows only when no free id is left |
| Packed.PackedForest.Modify | src/forest.cpp:4342-4369 | succeeds exactly when the deletions are distinct leaves and the ids suffice; then each tree is pruned and the additions carried in, with a rehash only before and only when the load requires it; deletions push the leaves they free on the stack of free ids and additions draw from its top; failure changes nothing |
| Packed.LiveCount | src/forest.cpp:1008-1008 | the arena's live count is twice the leaves less one for every tree |
| DeltaRuns.BuildIndex | src/forest.cpp:836-866 | a run opens exactly when it is sorted and below next, and then filter and fences are right |
| DeltaRuns.UpperBound | src/forest.cpp:652-652 | the first fence above the id |
| DeltaRuns.Find | src/forest.cpp:649-665 | the lookup through filter and fences never misses a record and never invents one |
| RunMerge.TakeLeast | src/forest.cpp:1216-1233 | every occurrence of the least id is consumed and the newest kept |
| RunMerge.Latest | src/forest.cpp:1188-1236 | each id below next once, ascending, with the record a read would find |
| Layering.SealView | src/forest.cpp:3753-3799 | a seal changes no visible record |
| Layering.CompactView | src/forest.cpp:3850-3898 | a compaction changes at most the contents of free slots |
| Layering.CompactRecords | src/forest.cpp:3854-3896 | merge and filter give exactly the latest records that differ from the base |
| Windows.ReadWindow | src/forest.cpp:1123-1164 | base, runs from oldest to newest and dirty records, each through its cursor, give the records of the window |
| Windows.ForEachWindow | src/forest.cpp:1112-1170 | all windows together deliver every record below next once and in order |
| Validator.Validate | src/forest.cpp:4371-4512 | accepts exactly the valid forests that fit 32-bit ids, and returns their free ids and leaves |
| Validator.FirstPass | src/forest.cpp:4376-4440 | every record is checked in its window and every edge that leaves its window is spilled to its parent's |
| Validator.CheckWindow | src/forest.cpp:4449-4508 | a window passes exactly when every branch in it has its two live children and the right hash |
| Validator.SpilledBound | src/forest.cpp:2111-2122 | in a valid forest no bucket overflows its bound |
| Transactions.Replay | src/forest.cpp:3970-4015 | the recovery loop is the fold over the logged transactions, stopping at the first refusal |
| Transactions.RedoLinks | src/forest.cpp:3985-4011 | replaying the transaction that led from one state to another leads from anything like the first to something like the second |
| DeltaStore.RecoverDeltas | src/forest.cpp:3622-3730 | the loops compute the recovery specification, refusals included |
| DeltaStore.OpenRuns | src/forest.cpp:3643-3663 | the runs in order of generation and the place of the last snapshot, refused exactly when one is unreadable |
| DeltaStore.RecoversActive | src/forest.cpp:3664-3727 | recovery uses exactly the runs in use, whatever obsolete ones are still on disk |
| DeltaStore.SealPublishes | src/forest.cpp:3753-3799 | a seal is accepted, and recovery from then on gives back exactly the sealed store |
| DeltaStore.CompactPublishes | src/forest.cpp:3850-3898 | a compaction is accepted, and recovery from then on gives back exactly the compacted store |
| Durability.RecoverStore | src/forest.cpp:3732-3751 | delta recovery followed by replay |
| Durability.UndoRestores | src/forest.cpp:5338-5368 | putting the before-images back gives the records, roots, leaf count, point and chain from before the block |
| Durability.ReversalLinks | src/forest.cpp:5343-5367 | the reversal is itself a transaction that can be replayed |
| LogRecords.MarksFollow | src/forest.cpp:3522-3578 | in every logged history, each block on the chain has been there since its transaction, which leads from the state before it to the one after |
| LogRecords.NoGap | src/forest.cpp:3985-3988 | above the durable LSN and before any leftover record the log has no gap |
| LogRecords.RedoPrefix | src/forest.cpp:3960-4015 | replaying any prefix without leftovers over the durable store reaches the state after its last record |
| LogRecords.RedoIff | src/forest.cpp:3960-4015 | any prefix of the records replays if and only if no leftover in it is followed by another record, and then reaches the state after the last, a leftover included |
| LogSteps.AppendKeeps | src/forest.cpp:3522-3578 | a logged block keeps the log good |
| LogSteps.FailKeeps | src/forest.cpp:3545-3556 | so does an append that fails after writing |
| LogSteps.UnloggedKeeps | src/forest.cpp:3537-3578 | so does a block connected without a log |
| LogSteps.RemoveKeeps | src/forest.cpp:4078-4085 | so does the removal of a segment that is durable and below the floor |
| LogSteps.CrashLog | src/forest.cpp:3960-4029 | after any crash that recovery survives the log is good again, nothing is left over, and the history ends at the recovered state |
| OnlineRuns.RecoverIff | src/forest.cpp:3622-4029 | whatever is left of the last segment, recovery succeeds if and only if no leftover record is followed by another, and reaches the state after the last record past the durable LSN |
| OnlineRuns.SealAccepted | src/forest.cpp:3150-3165 | in every reachable state a seal or compaction passes all publication checks |
| OnlineRuns.StepKeeps | src/forest.cpp:3522-4090 | blocks with and without a log, undos, failed appends, seals, compactions, unlinks, pruning and crashes all keep the invariant |
| OnlineRuns.PruneKeeps | src/forest.cpp:4031-4090 | pruning keeps every record that redo needs and every one at or above the floor |
| OnlineRuns.CrashSafety | src/forest.cpp:3622-4029 | at every point of every run and for every cut of the last segment, recovery succeeds if and only if no leftover above the durable LSN is followed by another record, with records, roots, leaf count, next id, point and chain after the last record or the last publication |
| OnlineRuns.NothingLost | src/forest.cpp:3732-4029 | at every point of every logged run without a leftover, recovery from whole log files gives back the store as it is, every acknowledged block included |
| OnlineRuns.PublishedSafety | src/forest.cpp:3622-3730 | at every point of every run, recovering the runs gives back exactly the store that the last seal or compaction published: layers, next id, roots, leaf count, point, chain, LSN and generation |
| OnlineRuns.UnloggedCrash | src/forest.cpp:3522-3578 | a run that never logs goes back exactly to its last publication, wherever it crashes |
| UndoRuns.FoundIs | src/forest.cpp:3580-3620 | the transaction found connected the tip's point, is not younger than the tip's own, and is the tip's own if that is retained |
| UndoRuns.WindowRetained | src/forest.cpp:4031-4090 | at or above the pruning floor the transaction of a logged tip is retained |
| UndoRuns.RestoredIff | src/forest.cpp:5338-5368 | the state before the tip is back if and only if the transaction found puts back the header and, up to free slots, the records that the tip's own would |
| UndoRuns.HistoryIsReal | src/forest.cpp:3522-4090 | every state of the history is one the store was in or one a failed append would have led to, and every block in it was connected by a step of the run |
| UndoRuns.UndoSafety | src/forest.cpp:5323-5382 | at every point of every run, for every tip: a rollback that succeeds found the tip's own transaction, and the state in which that block was connected is back; or an older connect of the point, the own one being gone, and it is back if and only if the two agree |
| UndoRuns.WindowUndo | src/forest.cpp:4031-4090 | at every point of every run, a tip at or above the pruning floor that was logged is restored by every rollback that succeeds |
| Layouts.HashesUnique | src/forest.cpp:4206-4274 | with distinct leaf hashes, an injective ParentHash and leaf hashes outside its range, every live node has a hash of its own |
| Layouts.LayoutRestored | src/forest.cpp:5338-5368 | two layouts of one forest: where the before-images of one fit over the other, the records stand for the trees from before the block, under other ids |
| SameBlocks.RestoredTreesIff | src/forest.cpp:5338-5368 | undoing a block by an earlier connect of it brings the trees back if and only if that connect left the roots at the ids where they are |
| GenuineRuns.GenuineFated | src/forest.cpp:4801-4875 | a connected block leads from the trees, leaf count and arena size that its predecessor determines to those its point determines |
| GenuineRuns.KnownFated | src/forest.cpp:3522-4090 | in every run of such blocks, every state of the history has the trees, leaf count and arena size of its point |
| GenuineRuns.ConnectReal | src/forest.cpp:3522-3578 | every connect in the log was made by a step of the run |
| GenuineRuns.SameBlockUndo | src/forest.cpp:5323-5382 | at every point of every run of such blocks, a rollback that succeeds, whichever connect it found, brings back the trees from before the tip if and only if the roots are where that connect left them |
| TwoLayouts.UndoFrees | src/forest.cpp:5343-5360 | undoing a block that only took ids puts exactly those back on the stack, in ascending order |
| TwoLayouts.SameBlockWrong | src/forest.cpp:3580-3620 | calls on the forest class, over any forest just opened with enough free ids and a leaf below them, in which each point has one block and after which a rollback succeeds and leaves records that stand for no forest with the trees from before |
| Scenarios.WrongUndo | src/forest.cpp:3580-3620 | calls on the forest class, over any forest just opened and for any leaf of it, after which a rollback succeeds with an older transaction and the leaf stays deleted |
| Scenarios.PartLoses | src/forest.cpp:3545-3556 | over any base, a write that fails below 16 bytes and then the same block, acknowledged: recovery refuses the store, or succeeds without the block |
| StaleLeaf.SealUncoversStaleLeaf | src/forest.cpp:1098-1104 | calls on the forest class, over any full arena: two blocks of one leaf connected and taken off with seals between them all succeed, the state is back, and live + free exceeds next |
| Scenarios.RefusedLog | src/forest.cpp:3985-3988 | over any base and for any block, a run after which recovery refuses the log |
| Wal.WalRoundTrip | src/forest.cpp:3297-3399 | a log record read back is the transaction that was written, if and only if heights are one apart and next is below NO_NODE |
| Wal.ScanPrefix | src/forest.cpp:3960-4017 | whatever length a segment is cut to, the scan returns exactly the transactions whole in it and the length to truncate to |
| Wal.WholeCountIs | src/forest.cpp:3979-3981 | that is the largest number of transactions whose bytes fit |
| Wal.RecoverSegment | src/forest.cpp:3960-4017 | the loop over offsets is the scan |
| Wal.ScanAllWhole | src/forest.cpp:3732-3751 | whole files read back as the segments that were written |
| Wal.TornLogRecovers | src/forest.cpp:3732-4029 | the crash theorem from the bytes of all log files, for every byte length of the last |
| WalParts.PartJudged | src/forest.cpp:3960-4017 | for every part of every record with anything behind it, what the scan does: refuses below 8 bytes, drops from 8 to 15, and from 16 drops while the file is short, else answers as the reader of the mixed bytes |
| WalParts.ScanItems | src/forest.cpp:3960-4017 | a file reads as the records before its first part, unless that part makes it unreadable |
| WalParts.ScanFiles | src/forest.cpp:3732-3751 | all files are read exactly when no part makes one unreadable, and give the records before the parts |
| WalParts.PartsCrash | src/forest.cpp:3732-4029 | at every point of every run, with parts anywhere in the files: recovery from the bytes reaches the state after the last whole record if and only if no part makes a file unreadable and no record above the durable LSN stands behind a part |
| WalParts.AcknowledgedSurvive | src/forest.cpp:3732-4029 | under the same condition, and only then, recovery gives back the store as it is |
| WalParts.CutItems | src/forest.cpp:3960-4017 | a file with parts, cut at any byte, is again such a file with no record added |
| Online.RebuildIndexAndValidate | src/forest.cpp:4371-4512 | the records delivered window by window; those that stand for a forest always pass, and index and free list are rebuilt from them |
| Online.ForestValid | src/forest.cpp:4371-4512 | the records of a forest satisfy everything the validator demands |
| Online.ApplyPhysicalChanges | src/forest.cpp:4746-4764 | succeeds exactly when every record is what its change expects; free list and index agree with the records exactly when nothing live is left beyond the end; ids that are freed go on the stack in the order of the changes |
| Online.ReplaceRecord | src/forest.cpp:4756-4760 | one record is replaced and the index stays exact |
| Online.OnlineForest.Append | src/forest.cpp:3522-3578 | a transaction is logged exactly when it extends the chain and the write succeeds |
| Online.OnlineForest.ModifyBlock | src/forest.cpp:4801-4875 | success, with its exact condition, prunes and carries the forest and logs a transaction that says what changed and how to undo it; failure leaves records, free ids, roots, leaf count, chain and indexed leaves as they were |
| Online.OnlineForest.RollbackOnlineBlock | src/forest.cpp:5323-5382 | succeeds exactly when there is a block above the base and the records are those it left; restores the state and the trees before the block up to free slots, and validity exactly when no before-image beyond the restored end is live; failure changes nothing |
| Online.OnlineForest.ConnectThenUndo | src/forest.cpp:4801-5382 | connecting any block that applies and taking it off both succeed, and records, roots, leaf count, point, chain and trees are those from before |
| Online.OnlineForest.SealDelta | src/forest.cpp:3753-3799 | the forest stays valid and undoable, and what it shows is unchanged |
| Online.OnlineForest.CompactDeltas | src/forest.cpp:3850-3898 | the same up to the contents of free slots |
| Blocks.BlockLinks | src/forest.cpp:1455-1465 | the changes listed from a transaction lead from the old state to the new and hold the true images |
| Blocks.UndoBalanced | src/forest.cpp:1549-1555 | undo leaves nothing live beyond the end exactly when nothing live lay there when the block was connected |
| Blocks.FreshExpected | src/forest.cpp:4746-4755 | right after a block, every record is what its undoing expects |
| Blocks.TipInLog | src/forest.cpp:3580-3620 | the last connect of the tip in an unpruned log is the tip's own |
| Refinement.LinksInside | src/forest.cpp:836-857 | every link of a forest's records stays inside the arena, as opening a published run demands |
| Refinement.ModifyBlockConnects | src/forest.cpp:4801-4875 | a block the forest class connected is a Connect step of the state machine, so the crash and undo theorems apply to it |
| Refinement.InitMatches | src/forest.cpp:5006-5060 | a forest just opened and the machine's initial state over its base are in step |
| Refinement.UnprunedFinds | src/forest.cpp:3580-3620 | while nothing is pruned, the machine's log finds the tip's own transaction |
| Refinement.RetainedFinds | src/forest.cpp:3580-3620 | so it does as long as that transaction is retained |
| Refinement.ConnectStep | src/forest.cpp:4801-4875 | connecting succeeds exactly when the block applies and is written, and is then a Connect step that keeps machine and class in step; a block that fails is no step |
| Refinement.BlockGenuine | src/forest.cpp:4801-4875 | what ModifyBlock connected did to the trees what its contents say and grew the arena just as far as the live nodes needed |
| Refinement.GenuineStep | src/forest.cpp:4801-4875 | so a block of distinct leaves is a step of the runs that SameBlockUndo speaks of |
| Refinement.DisconnectStep | src/forest.cpp:5323-5382 | a rollback succeeds exactly when there is a block, its records are still those it left and the log is written; it is then a Disconnect step as long as the machine's log finds the tip's own transaction, and machine and class stay in step |
| Refinement.SealStep | src/forest.cpp:5280-5293 | a seal by the class is a SealRun step |
| Refinement.CompactStep | src/forest.cpp:3850-3898 | a compaction by the class is a CompactRuns step |
| CleanRecords.CleanSeal | src/forest.cpp:955-967 | a seal keeps free records free of links in every layer |
| Sync.RollbackChain | src/forest.cpp:5323-5382 | a successful rollback takes exactly one hash off the chain |
| Sync.SequentialSync.DisconnectTip | src/sync.cpp:154-162 | succeeds exactly when the forest's rollback does; the chain vector stays the store's, the state before the tip is back, and the non-contiguous outcome cannot occur |
| Sync.SequentialSync.ReconcileCurrentPoint | src/sync.cpp:141-165 | success stops at the highest height where the chains agree, with records, roots, leaf count and trees from when that block was the tip; every block above disagreed; failure stops at the block that could not be looked up or taken off, with the state of that height |
| Sync.SequentialSync.RollbackTo | src/sync.cpp:167-196 | success ends at the target, which was on the chain, with the state from when it was the tip; a target above the tip changes nothing; every failure has its cause |
| Packed.PackedForest.Roots | src/forest.cpp:4975-4986 | the hash of every tree by the leaf count, the highest row first, and none for an emptied one |
| Packed.MissingRoot | src/sync.cpp:266-269 | a missing hash in that list means that a tree was emptied |
| Packed.ListedRoots | src/sync.cpp:266-269 | a list without a missing one means that no tree was emptied, and is what a proof is checked against |
| Sync.SequentialSync.NextBlock | src/sync.cpp:213-243 | the fetched block is taken up exactly when it has the next height, the requested hash and the tip as its predecessor |
| Sync.SequentialSync.ProveDeletions | src/sync.cpp:256-281 | for distinct deletions the proof is made and accepted exactly when all are in the forest and no tree was emptied; it names their positions before the block with the right hashes |
| Sync.SequentialSync.Connect | src/sync.cpp:283-301 | succeeds exactly when the block applies and is logged; the chain vector follows the store, and a refusal leaves both as they were |
| Sync.SequentialSync.ProcessNext | src/sync.cpp:204-306 | a block is connected exactly when it is the next one, its deletions are distinct leaves, ids suffice, the log is written and, where a proof is wanted, no tree was emptied; then the trees are pruned and carried and the proof is right; a refusal leaves chain, records, books and log as they were |
| EmptiedTree.ProofsStop | src/sync.cpp:266-269 | over an empty forest, a block that adds a leaf and one that spends it are connected, and the empty block behind them is refused although it applies |
| Sync.BlockExtends | src/sync.cpp:286-297 | what ModifyBlock connected extends the chain as ProcessNext expects |
| Repair.RepairLine | src/forest.cpp:1786-1831 | cluster by cluster, no entry is lost or stranded and no deleted slot remains |
| Repair.RepairDeletions | src/forest.cpp:1786-1831 | the same for the cyclic table; refused exactly when there is no empty slot |
| StartupCache.LoadSlots | src/forest.cpp:4609-4641 | accepted exactly when ids and slots are in range and none comes twice; then each is in its slot, changed ones as deleted |
| StartupCache.SavedLoads | src/forest.cpp:4609-4641 | what was saved at the anchor always loads, as the saved table with the changed entries deleted |
| StartupCache.AnchorFree | src/forest.cpp:4643-4693 | a free list is accepted exactly when it is ascending, in range and names no leaf; then it is completed by the ids beyond the anchor |
| StartupCache.MaskedSound | src/forest.cpp:4636-4639 | marking entries deleted strands nothing and leaves exactly the leaves unchanged since the anchor |
| StartupCache.InsertValidationHome | src/forest.cpp:1769-1784 | adds exactly the id, refused exactly when the table is full |
| StartupCache.Patch | src/forest.cpp:4694-4715 | one layer's records set and clear free ids and index their leaves, refused only when they do not all fit |
| StartupCache.FullCount | src/forest.cpp:4716-4721 | a sound table has as many full slots as ids |
| StartupCache.LoadTable | src/forest.cpp:4609-4715 | slots, repair and replay give the index and the free ids, and miss only when the table would overflow |
| StartupCache.LoadValidatedStartupCache | src/forest.cpp:4514-4744 | over a saved cache it is a hit if and only if ids are left, the roots are live roots and the index has room; then free list and index are those of a full scan exactly when every id handed out since the anchor was written since or is free |
| StartupCache.AlwaysCovered | src/forest.cpp:4690-4693 | whatever is written, shrunk, sealed or compacted after the anchor, the cache stays good for it and that condition holds |
| StartupCache.SavedMoves | src/forest.cpp:4563-4592 | no such move changes what the anchor was taken of |
| StartupCache.StartFromCache | src/forest.cpp:4514-4744 | after any such moves a hit, with its exact condition, gives exactly the free ids and the leaves of the validating scan |
| CacheRuns.TxMoves | src/forest.cpp:4746-4764 | applying a block's transaction is a sequence of the moves the cache stays good for |
| CacheRuns.ReplayMoves | src/forest.cpp:3960-4015 | so is replaying what a crash left of the log |
| CacheRuns.RunMoves | src/forest.cpp:3522-4090 | at every point of every run of genuine blocks that does not compact the anchor away, moves lead from the anchor to the running store and to the last publication |
| CacheRuns.CacheStaysGood | src/forest.cpp:4514-4744 | so a cache saved at a publication can be started from at every later point of the run |
| WireTargets.TranslateAccepts | src/p2p.cpp:821-841 | accepted are exactly the positions under some root, and they keep row and offset |
| WireTargets.TranslateOrder | src/p2p.cpp:821-841 | the translation keeps the order of targets and is injective |
| WireTargets.TranslateParent | src/p2p.cpp:821-841 | translating the parent is taking the parent of the translation |
| WireTargets.TranslateWord | src/p2p.cpp:821-841 | a translated target is again a 64-bit word |
| WireTargets.TranslateAll | src/p2p.cpp:829-840 | all targets, or a refusal exactly when one does not translate |
| Wire.CompactRoundTrip | src/p2p.cpp:221-287 | every 64-bit value is read back from its encoding |
| Wire.CompactCanonical | src/p2p.cpp:262-287 | what is accepted is the only encoding of its value |
| Wire.MessageRoundTrip | src/p2p.cpp:916-1054 | a full message reads back as the proof that was sent |
| Wire.ParsedCanonical | src/p2p.cpp:982-1054 | an accepted payload is the message of the proof it is read as, and of no other |
| Wire.ParseFullUtreexoProof | src/p2p.cpp:982-1054 | the cursor loops compute the reader |
| Wire.MeasureUtreexoProof | src/p2p.cpp:806-914 | the measured size is the length of the reply, for every proof and bitmap, and refusal means the reply is malformed or too long |
| Wire.SerializeUtreexoProofWithLayout | src/p2p.cpp:916-953 | the output is the reply, refused exactly when its length is not the measured one |
| Wire.SerializeUtreexoProof | src/p2p.cpp:957-980 | the reply is sent whenever it can be, so the size check behind it never fails |
| Wire.FullReplyRoundTrip | src/p2p.cpp:806-1054 | a reply to a request for everything reads back as the proof, with its targets translated where that was asked for |

## Left out

- Packed.PackedForest.Modify: the leaf count has to stay at or below 2^62, because the shifts of src/position.cpp:42 leave the register beyond 62 rows.
- Position.RootPositionIs: at most 62 rows, for the same shift.
- OnlineRuns.StepKeeps: a run is followed up to a rollback that finds another transaction than the tip's own, not beyond it.
- OnlineRuns.CrashSafety: a failed append leaves its whole record or nothing, and a crash loses records of the last segment only; WalParts.PartsCrash adds the parts of records.
- WalParts.PartsCrash: the records in the log are those of a run, each behind whatever parts were left; a part that together with what follows reads as a whole record, checksum included, is left to WalParts.PartJudged.
- Online.OnlineForest.Append: in the class a failed write leaves nothing and the log is never pruned; the state machine has both.
- DeltaRuns.BuildIndex: the links, types and header fields checked when a run is opened are checked in DeltaStore.OpenRuns.
- Sync.SequentialSync.ReconcileCurrentPoint: the active chain is a fixed function of the height, and no block on the chain extended the arena over live records; beyond such a block the index no longer agrees with the records, and what a further rollback does is not followed.
- Sync.SequentialSync.DisconnectTip: no block on the chain extended the arena over live records, for the same reason.
- Sync.SequentialSync.RollbackTo: the same.
- Sync.SequentialSync.ProcessNext: the forest is online; the RAM forest, which refuses to roll back, is not modelled here.
- StartupCache.LoadValidatedStartupCache: the cache is taken to hold what was saved; the header, identity and checksum tests that turn a foreign or damaged file into a miss are not modelled.
- StartupCache.LoadTable: the same.
- ProofPlan.ProofsAreNeeded: which of the stray roots are returned is said by ProofOrder.ProofsExactly.
- Wire.ParseFullUtreexoProof: one error for every malformed payload.
- DeltaStore.RecoverDeltas: one error for every unreadable run, and no live-node count in the header.
- The RAM mode of the arena keeps its records where the mapped one keeps its dirty records; of the chunks only their number is modelled.
- Hash functions, the checksum and the Bloom mixing functions: opaque parameters.
- Files, locks, mapping, syncing, directory scans and temporary files: publication is one atomic step, a crash a cut between steps or in the last log file.
- 64-bit wrap-around of LSNs, generations and byte counts, which are unbounded here.
- The flush that ModifyBlock may run first: it is a seal step of the state machine.
- Version-1 superblocks and the flush-undo journal, which only migrate old state.
- Block download, prefetch, peers, gossip, RPC, JSON, UData serialization and the checkpoint compactor.
- Metrics and usage counters other than live, free and next.
