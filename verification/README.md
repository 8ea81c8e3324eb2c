# A model of the automounter daemon

This project models the parts of autofs in which state, ordering and sharing are hard to get
right, and proves what holds in every run of them:

- the **task queue** (`StateQueue*.dfy`): one global queue of tasks, a handler thread that starts
  worker threads, and workers that report back. Critical sections are steps; the theorems hold for
  every interleaving of requests, removals, wake-ups and finishing workers;
- the **map entry cache** (`Cache*.dfy`): a chained hash table, as a value, as linked nodes and as
  a list of entries per key, with negative caching, enumeration, deletion and pruning;
- the **offset trees** (`PathOrder.dfy`, `Offset*.dfy`): unbalanced search trees inside the map
  entries, walked to mount, unmount and delete the offsets of a multi-mount;
- the **mount records** and **expire list** (`MountRecords*.dfy`, `ExpireOrder.dfy`): reference
  counted records on several lists, and the order in which mounts are expired;
- the **kernel request protocol** (`KernelRequests*.dfy`): packet handlers and detached workers,
  their locks and the hand-over of the pending arguments, as interleaved small steps;
- the **alarm queue** (`AlarmQueue.dfy`, `AlarmLoops.dfy`): a sorted timer list, a sleeping handler
  and the rule for waking it;
- two **codecs** (`Base64*.dfy`, `Expand*.dfy`): Base64 as in section 3 of RFC 3548, and the
  two-pass expansion of amd map entries.

Each part has an immutable model with functions for the operations, lemmas over every run or every
input, and, where the source works by updating things in place, methods or classes with its loops
that are proved to compute those functions. `dafny verify dfyconfig.toml` checks everything.

System calls, ioctls, real mounts, clocks, thread creation and lookups are parameters or choices of
the environment. A mutex section is one step. `malloc` succeeds unless a failure is one of the
modelled outcomes.

## Where the code does not do what one would expect

- A task waiting behind a shutdown task that had not started yet runs after the shutdown and takes
  the point out of ST_SHUTDOWN, and so does a request for READY (`LeavesShutdown`,
  `ShutdownIsNotFinal`).
- A pass frees a finished head, or one that does not start, with every task waiting behind it but
  the first, so an accepted request may never run. `HandOverLoses` counts the loss, `WaitingLost`
  and `DiscardedIff` say exactly which requests a pass discards, `LostStaysLost` that they do not
  come back, and `ReadmapRequestLost` and `FirstPassFreesAll` are runs in which it happens.
- A task that st_remove_tasks marks after it finished is cancelled all the same. The cancel then
  reaches nobody, or another point's worker that has been given the ended thread's identifier;
  `CancelReaches` says exactly when, `CancelComesLate` and `CancelHitsStranger` are runs.
- A finished head can lie in the queue with the handler asleep and not signalled: a readmap task,
  the task of a point in ST_SHUTDOWN, or a task cancelled after it finished, and no other
  (`UnheardIsOneOf`, with `ReadmapUnheard`, `ShutdownUnheard` and `CancelComesLate` as runs).
- `cache_add` on a known key drops whatever follows the last entry of that key in its chain; it
  conserves the other keys exactly when that entry ends the chain (`AddToConservesIff`). A second
  source's entry for a known key can so remove another key (`SecondSourceCuts`); a single source
  never does (`SingleSourceIsLists`).
- With several entries of one key in a cache, as two sources give, lookup_prune_one_cache can delete
  a current entry with a stale one, end before its time, or never end. The entries of a key always
  lie together (`CacheIsAdjacent`), and on such caches `LoopEndsIff` and `LoopPrunesIff` say exactly
  when the loop ends, and when it leaves the pruned cache; without multi-mounts it fails to end
  exactly when, of the stale entries with another entry of their key behind them, the first one's
  key is not deleted (`BuiltEndIff`). `CurrentEntryGoes` and `NeverEnds` are families, `BothDeleted`
  and `EndlessExample` caches that two updates build.
- `update_offset_entry` links a new offset before the last one that is not longer. The list stays
  in length order only in the cases of `LinkKeepsLengthIff`; otherwise an offset can enter the tree
  before the one that contains it, and walks miss it (`NestedOffsetMissed`, `MissedExample`). A
  deletion that fails can then leave it linked to its deleted parent (`MissedChildDangles`).
- `mnts_remove_mount` returns a reference for any flag it clears, which is right exactly in the
  cases of `RemoveMountKeepsIff`; its callers only clear MNTS_MOUNTED.
- `mnts_add_submount` returns the record of another owner as if it had succeeded
  (`ConflictNotReported`), so modules/mount_autofs.c:315 does not notice the conflict.
- An expire takes a reference on mounted paths that end in a slash and never gives it back
  (`ExpireThenPut` says exactly which). So do recording a mount without newly setting the mounted
  flag and adding a submount or amd mount twice; these are all (`SpareStep`), and such a record is
  never freed (`LeakedForEver`; `SlashLeaks`, `SecondMountLeaks` and `OffsetLeaks` are runs).
- A task can be posted for a point after its alarms were deleted, exactly when the handler had
  already released the mutex to post it (`DeletedPostsIff`, `TaskAfterDelete`).
- `conditional_alarm_add` takes a cancelled alarm for a pending one (`ConditionalAddIff`,
  `AlarmMissed`).
- A request worker that exits early with no status set answers a missing-mount request with ready,
  and the handler of a direct expire answers ready for an entry that is not mounted. `ReadyIff` says
  that these are all; `NotMountedButReady` is a run.
- The length test of `base64_encode` wraps around for a target of length 0 (`TestIsSafeIff`).

## Model

| member | source | states |
|---|---|---|
| `StateQueueRuns.StepKeepsInv` | daemon/state.c:700-1140 | every critical section (request, removal, shutdown signal, handler pass, finishing worker) keeps the queue invariant |
| `StateQueueRuns.RunKeepsInv` | daemon/state.c:700-1140 | the invariant over every run |
| `StateQueueRuns.OneWorkerPerPoint` | daemon/state.c:212-293 | in every run at most one worker per point, no thread assertion fails, exp_thread and readmap_thread name exactly the running worker, and its point is in the task's state or READY |
| `StateQueueRuns.QueueShape` | daemon/state.c:700-854 | in every run one head per point, waiting tasks of the head's point with distinct states, nothing queued for READY or SHUTDOWN, busy/done/cancel flags match the workers |
| `StateQueueRuns.PassStartsEveryHead` | daemon/state.c:1050-1134 | a handler pass leaves every remaining head started, promoted ones included |
| `StateQueue.VisitProgress` | daemon/state.c:1079-1134 | each iteration of the restarting walk has fewer tasks, or as many and is nearer to the end |
| `StateQueue.HandOverLoses` | daemon/state.c:1113-1131 | unlinking a head loses it and every waiting task but the first: exactly one task if and only if at most one waits |
| `StateQueueInvariant.WalkKeeps` | daemon/state.c:1079-1134 | a walk keeps the invariant and starts every head it leaves |
| `StateQueueInvariant.FirstWalkKeeps` | daemon/state.c:1049-1070 | the walk after an empty queue keeps the invariant and leaves every head started |
| `StateQueueRuns.EntersShutdown` | daemon/state.c:79-155 | a point enters ST_SHUTDOWN exactly when its own expire worker finishes under the stated conditions, with exp_thread clear and its task done |
| `StateQueueRuns.OtherStepsNeverShut` | daemon/state.c:622-636 | no other step enters ST_SHUTDOWN |
| `StateQueueRuns.NoBadState` | daemon/state.c:79-155 | the bad-state branch of expire_cleanup is unreachable, and the finishing thread is exp_thread |
| `StateQueueEnds.ExpireEnds` | daemon/state.c:60-155 | in every run, what the end of an expire worker makes of its point: an emptied idle submount keeps its state and is asked to shut down, a shutdown that goes through ends in ST_SHUTDOWN unsignalled, otherwise the point is ready; the task is done and nothing else changes |
| `StateQueueEnds.ReadmapEnds` | daemon/state.c:275-293 | in every run the end of a readmap worker leaves the point ready and the task done, without a signal |
| `StateQueueEnds.WakeLeaves` | daemon/state.c:1036-1140 | what the handler waits for after a pass, and that a wake-up without a reason changes nothing |
| `StateQueueEnds.SignalIs` | daemon/master.c:1273-1329 | which signals are ignored, which set the shutdown flag, and when the state is asked for |
| `StateQueueEnds.NotifyIs` | daemon/master.c:1218-1240 | a notification passes the shutdown flag on and asks for the state unless the submount is shut down |
| `StateQueueEnds.ShutdownAsserts` | daemon/state.c:622-636 | what the assertion of st_shutdown checks, as the model counts its failures |
| `StateQueueEnds.StartAsserts` | daemon/state.c:212-293 | the same for the assertions on starting a worker |
| `StateQueueRuns.LeavesShutdown` | daemon/state.c:700-1140 | a point leaves ST_SHUTDOWN exactly by a request for READY, or in a pass when a task was waiting behind the finished one |
| `StateQueueRuns.ShutdownIsNotFinal` | daemon/state.c:709-783 | a concrete run in which that happens |
| `StateQueueRuns.ShutdownFate` | daemon/state.c:1079-1134 | the same for one walk, by the heads it meets |
| `StateQueueRuns.RequestIsQueued` | daemon/state.c:700-783 | exactly when a request leaves an unfinished task for it; other points and the points' states are untouched, at most one task is added |
| `StateQueueRuns.RemovalKeepsShutdown` | daemon/state.c:800-854 | which tasks st_remove_tasks cancels, keeps and drops, and that other points are untouched |
| `StateQueueLoss.WalkOutcome` | daemon/state.c:1079-1134 | what a walk makes of the head of any point: kept, started with all that waits, or freed but for the first waiting task |
| `StateQueueLoss.FirstWalkOutcome` | daemon/state.c:1049-1070 | the walk after an empty queue starts a head or frees it with all that waits |
| `StateQueueLoss.PassOutcome` | daemon/state.c:1028-1140 | the same for a pass in every run, whatever thread creation does |
| `StateQueueLoss.WaitingLost` | daemon/state.c:1113-1131 | a waiting request survives a pass exactly when its head stays with all that waits or it was the first and took its place |
| `StateQueueLoss.DiscardedIff` | daemon/state.c:1050-1134 | with thread creation succeeding, exactly which waiting requests a pass discards, by the head's flags, the point's state and, for a head both marked and done, whether the last head of the queue is the only one handed over |
| `StateQueueLoss.MeetsTwiceIff` | daemon/state.c:1113-1134 | the walk restarts and comes to a marked head again exactly when the last head, and no other, is unlinked with a task waiting |
| `StateQueueLoss.OnlyRequestsAsk` | daemon/state.c:700-1140 | no step brings a request back but a new request for it |
| `StateQueueLoss.LostStaysLost` | daemon/state.c:700-1140 | so a discarded request stays gone in every later run until it is made again |
| `StateQueueSleep.ReadmapRequestLost` | daemon/state.c:1113-1131 | a run in which an accepted readmap request is discarded, and every continuation without a new one |
| `StateQueueSleep.FirstPassFreesAll` | daemon/state.c:1049-1070 | a run in which two accepted requests go with a head that does not start |
| `StateQueueSleep.CancelReaches` | daemon/state.c:1099-1108 | a pass cancels exactly the marked heads; the cancel reaches the task's own worker exactly when the task is not done, and another point's worker exactly when the ended thread's identifier has been given out again, before the pass or earlier in it |
| `StateQueueSleep.CancelHitsStranger` | daemon/state.c:1099-1108 | a run in which the cancel of an ended expire reaches a shutdown worker of another point |
| `StateQueueSleep.CancelComesLate` | daemon/state.c:1099-1108 | a run in which an ended thread is cancelled and its finished head stays behind |
| `StateQueueSleep.UnheardIsOneOf` | daemon/state.c:1068-1134 | in every run a finished head with the handler not signalled is a readmap task, of a shut down point, or was met marked and done by an earlier pass and has been the head since |
| `StateQueueSleep.ReadmapUnheard` | daemon/state.c:275-293 | the first of these occurs |
| `StateQueueSleep.ShutdownUnheard` | daemon/state.c:720-724 | the second occurs |
| `StateQueueLoops.TaskQueue.StAddTask` | daemon/state.c:700-783 | the list loops compute AddTask |
| `StateQueueLoops.TaskQueue.QueueRequest` | daemon/state.c:726-775 | the loops put the request behind the point's head, or make it a new head |
| `StateQueueLoops.TaskQueue.StRemoveTasks` | daemon/state.c:800-854 | the list loops compute RemoveTasks |
| `StateQueueLoops.TaskQueue.StSetThid` | daemon/state.c:995-1008 | the loop sets the thread of the point's head only |
| `StateQueueLoops.TaskQueue.StSetDone` | daemon/state.c:1011-1026 | the loop marks the point's head done only |
| `StateQueueLoops.TaskQueue.LaunchWorker` | daemon/state.c:507-676 | the st_* functions set the state and create the worker, or return to ready |
| `StateQueueLoops.TaskQueue.RunStateTask` | daemon/state.c:954-993 | runs the function of the task's state |
| `StateQueueLoops.TaskQueue.HandlerVisit` | daemon/state.c:1079-1134 | one iteration of the handler's loop |
| `StateQueueLoops.TaskQueue.HandlerWalk` | daemon/state.c:1079-1134 | the loop with its restart ends and computes Walk |
| `StateQueueLoops.TaskQueue.HandlerFirstWalk` | daemon/state.c:1049-1070 | the loop after an empty queue computes FirstWalk |
| `StateQueueLoops.TaskQueue.HandlerWake` | daemon/state.c:1028-1140 | the handler from one wait to the next |
| `StateQueueLoops.TaskQueue.ExpireCleanup` | daemon/state.c:59-160 | a finishing expire worker |
| `StateQueueLoops.TaskQueue.ReadmapCleanup` | daemon/state.c:275-293 | a finishing readmap worker, which does not signal |
| `PathOrder.MapentCmpIsStrCmp` | lib/mounts.c:1613-1627 | the offset comparison is strcmp on every pair of keys |
| `PathOrder.BetweenExtends` | lib/mounts.c:1613-1627 | every key between a path and an extension of it extends the path |
| `OffsetTree.SubtreeIff` | lib/mounts.c:1383-1413 | an offset is below another in the tree exactly when that one was inserted first among all keys between |
| `OffsetTree.BeforeMeans` | lib/mounts.c:1383-1413 | inserted no later, as positions in the order of insertion |
| `OffsetTree.BuildOrdered` | lib/mounts.c:1383-1413 | insertion keeps the search order |
| `OffsetWalk.OffsetParentIsNearest` | lib/cache.c:684-718 | the parent found is the nearest cached ancestor path, or there is none |
| `OffsetWalk.RootOffsetHasNone` | lib/cache.c:684-694 | the root offset has no parent |
| `OffsetWalk.GetOffsetParent` | lib/cache.c:684-718 | the loop that cuts the key computes that parent |
| `OffsetWalk.WalkExactly` | lib/mounts.c:1677-1703 | a walk from an offset works in ascending key order on exactly its children that it precedes among the keys between |
| `OffsetWalk.CompleteIff` | lib/mounts.c:1677-1703 | walks miss no child exactly when every parent was inserted first among the keys up to its children |
| `OffsetWalk.ShortestFirstIsComplete` | lib/mounts.c:1677-1703 | inserting shortest paths first makes every walk complete |
| `OffsetWalk.LinkBackwards` | modules/parse_sun.c:892-918 | the backward loop over the offset list computes the insertion point |
| `OffsetWalk.LinkedOnce` | modules/parse_sun.c:820-918 | a known offset keeps its place, a new one is linked in without disturbing the others |
| `OffsetWalk.LinkKeepsLengthIff` | modules/parse_sun.c:892-918 | exactly when the list stays in length order |
| `OffsetWalk.ListedShortestFirst` | modules/parse_sun.c:892-918 | entries listed shortest first stay so and their walks are complete |
| `OffsetWalk.LateParentMisses` | lib/mounts.c:1677-1703 | a child inserted before its parent is missed |
| `OffsetWalk.NestedOffsetMissed` | modules/parse_sun.c:892-918 | the family of entries whose nested offset is missed |
| `OffsetWalk.MissedExample` | modules/parse_sun.c:892-918 | a concrete entry of that family |
| `OffsetUmount.TraverseStops` | lib/mounts.c:1897-1960 | every attempt but the last found no trigger or removed it, and the walk fails exactly when the last one met a busy mount or trigger |
| `OffsetUmount.TraverseReturns` | lib/mounts.c:1671-1700 | a walk returns 0 or -1, and each attempt ends as its offset does |
| `OffsetUmount.TraverseBottomUp` | lib/mounts.c:1896-1980 | an offset is attempted only after the walk over its nested offsets succeeded |
| `OffsetUmount.TraverseOnce` | lib/mounts.c:1896-1980 | no offset is attempted twice |
| `OffsetUmount.UmountIsBottomUp` | lib/mounts.c:2030-2049 | all of these for the offsets of a whole multi-mount |
| `OffsetUmount.SuccessCoversIff` | lib/mounts.c:2030-2049 | a successful unmount attempted every offset if and only if no walk misses a child |
| `OffsetUmount.OwnerIsLast` | lib/mounts.c:2037-2086 | the owner is touched only after every attempt succeeded, it is unmounted exactly if it is then mounted, its record goes exactly on success, and a busy owner's direct triggers, all and only those, are walked again |
| `OffsetUmount.OwnerAfterAll` | lib/mounts.c:2037-2086 | with complete walks the owner is unmounted only when every offset has been |
| `OffsetNodes.TreeAddLeft` | lib/mounts.c:1363-1371 | writes exactly the left link and clears the new node's |
| `OffsetNodes.TreeAddRight` | lib/mounts.c:1373-1381 | writes exactly the right link and clears the new node's |
| `OffsetNodes.FindSlot` | lib/mounts.c:1383-1413 | the search loop ends where the key belongs |
| `OffsetNodes.SpellsInsert` | lib/mounts.c:1383-1413 | writing one child link inserts the key into the tree the links spell |
| `OffsetNodes.TreeAddNode` | lib/mounts.c:1383-1413 | the linked tree becomes the tree with the key inserted |
| `OffsetNodes.TreeMapentAddNode` | lib/mounts.c:1636-1656 | the entry is in the tree, with owner and nearest parent set |
| `OffsetNodes.TraverseSubtree` | lib/mounts.c:1677-1703 | the recursive walk over the nodes computes Traverse |
| `OffsetNodes.UmountOne` | lib/mounts.c:1896-1980 | the work on one node computes UmountOffset, passing on the nested walk's result |
| `OffsetNodes.TraverseAll` | lib/mounts.c:1677-1703 | the walk without the strict stop works on all children in order |
| `OffsetNodes.UmountMulti` | lib/mounts.c:2037-2086 | the owner's umount computes UmountOffsets |
| `OffsetDelete.DeleteOffset` | lib/mounts.c:1705-1755 | clearing the owner and deleting the key removes exactly that entry |
| `OffsetDelete.DeleteSubtree` | lib/mounts.c:1705-1755 | the cache loses exactly the keys that left the tree, success or not |
| `OffsetDelete.DeleteOffsets` | lib/mounts.c:1705-1755 | it succeeds exactly when every key can be copied; then exactly the non-root keys are gone, the rest keeps its order and the owner is single; after a failure no child link leads to a deleted entry |
| `OffsetDelete.RefusedStays` | lib/mounts.c:1725-1745 | an offset whose deletion the cache refuses stays an offset of the tree |
| `OffsetDelete.CompleteLeavesNone` | lib/mounts.c:1711-1743 | if walks miss no child, no parent link leads to a deleted entry either, however the deletion ends |
| `OffsetDelete.MissedChildDangles` | lib/mounts.c:1711-1743 | otherwise one can: a missed child whose key cannot be copied is left linked to its deleted parent |
| `OffsetDelete.DanglingExample` | lib/mounts.c:1711-1743 | a concrete multi-mount |
| `OffsetDelete.DeleteOffsetsByKey` | lib/mounts.c:1705-1755 | the same per key |
| `OffsetDelete.DeleteOffsetsOfIff` | lib/mounts.c:1757-1783 | a missing key or an entry that owns no tree is refused with nothing changed; otherwise the outcome key by key, with the owner present and no longer an owner |
| `CacheTable.AddToKeyList` | lib/cache.c:513-583 | the new entry is last in its key's list |
| `CacheTable.UpdateReports` | lib/cache.c:721-759 | cache_update reports an update exactly when an entry was added or given another text |
| `CacheTable.AddToCuts` | lib/cache.c:513-583 | which entries of other keys an add drops |
| `CacheTable.AddToConservesIff` | lib/cache.c:513-583 | an add keeps all other keys exactly when the key is new or its last entry ends the chain |
| `CacheTable.DeleteFromIs` | lib/cache.c:762-828 | success exactly without multi-mount entries of the key; removes all of the key's entries and no other |
| `CacheTable.DeleteExactly` | lib/cache.c:762-828 | the same for the whole table, key by key |
| `CacheTable.OperationsKeepPlaced` | lib/cache.c:513-828 | every entry stays in the bucket of its key's hash |
| `CacheRuns.CacheIsLists` | lib/cache.c:513-828 | after any run of adds, updates and deletes entries are in their buckets, and if no add cut a chain each key has the list made by the operations on that key alone |
| `CacheRuns.ApplyKeyList` | lib/cache.c:721-759 | one operation on one key's list |
| `CacheRuns.SingleSourceIsLists` | lib/cache.c:513-828 | in every run of a single source each key has exactly the list its own operations make |
| `CacheRuns.SecondSourceCuts` | lib/cache.c:560-580 | for any two keys of one bucket, a run in which a second source's add of one removes the other |
| `CacheRuns.SecondSourceExample` | lib/cache.c:560-580 | a concrete table and run |
| `CacheEnumerate.EnumeratesEachOnce` | lib/cache.c:927-933 | an enumeration from NULL visits each primary entry exactly once |
| `CacheEnumerate.VisitsRest` | lib/cache.c:353-390 | from an entry on it visits exactly the later ones |
| `CacheChains.LeadsRelink` | lib/cache.c:560-580 | rewriting one link replaces what follows that node |
| `CacheChains.LeadsRemove` | lib/cache.c:762-828 | linking past a node takes exactly it out of the chain |
| `CacheChains.HashChain.Lookup` | lib/cache.c:442-455 | the loop finds the first node of the key |
| `CacheChains.HashChain.KeyNext` | lib/cache.c:393-410 | the loop finds the next node of the key |
| `CacheChains.HashChain.AddEntry` | lib/cache.c:513-583 | the linked chain becomes AddTo of the old one |
| `CacheChains.HashChain.UpdateEntry` | lib/cache.c:721-759 | the linked chain becomes UpdateChain of the old one |
| `CacheChains.HashChain.DeleteKey` | lib/cache.c:762-828 | the linked chain becomes DeleteFrom of the old one |
| `CacheNegative.PushPop` | lib/cache.c:100-160 | popping undoes pushing, text, age and stack |
| `CacheNegative.NegativeThenPositive` | lib/cache.c:631-681 | unavailable and unchanged up to the deadline; the first lookup after it restores the entry |
| `CacheNegative.NegativeThenAbsent` | lib/cache.c:631-681 | for a key that was absent the cache ends as it was |
| `CacheNegative.DeadlineIsNotMoved` | lib/cache.c:658-681 | a further failure changes nothing |
| `CacheNegative.UnavailableIff` | lib/cache.c:631-656 | a key is unavailable exactly up to the deadline, and asking changes nothing until then |
| `CacheNegative.PushRefreshPop` | lib/cache.c:100-160 | a text read while the entry was negative survives the pop |
| `CachePrune.PruneKeyList` | daemon/lookup.c:1343-1503 | pruning each entry on its own, which is what the loop does exactly under `LoopIsPerEntryIff`, acts on each key's entries alone |
| `CachePrune.BrowsePathIs` | daemon/lookup.c:664-724 | an indirect key without slash gets root, slash and key as its path, if it fits |
| `CachePrune.BrowsePathPrefix` | daemon/lookup.c:664-724 | a prefix is taken off first, and a key without it has no path |
| `CachePrune.DirectPath` | daemon/lookup.c:1324-1342 | a direct key is its own path, if it fits |
| `CachePrune.MultiStays` | daemon/lookup.c:1349-1475 | entries of a multi-mount are never removed, and what pruning changes on them |
| `CachePrune.CurrentStays` | daemon/lookup.c:1353-1365 | a current entry stays, its failure forgotten if it has a text or there is a wildcard |
| `CachePrune.ReadMapIs` | lib/cache.c:721-759 | after re-reading each listed key has its first listed text, others are untouched |
| `CachePrune.RereadThenPrune` | daemon/lookup.c:1343-1503 | re-reading and pruning leaves each listed key with its first text; a stale key goes exactly when it is not exempt, not within the positive timeout of an unbrowsed indirect map, and is found elsewhere first or has no mount, trigger or open descriptor |
| `CachePruneLoop.PruneEntry` | daemon/lookup.c:1349-1500 | one iteration on any cache, including finding the place again by key, computes Iterate |
| `CachePruneLoop.WildMeans` | daemon/lookup.c:1362-1363 | the wildcard test finds one exactly if the cache has one |
| `CachePruneIff.StaleIff` | daemon/lookup.c:1409-1497 | at a stale entry: exactly when what is marked, deleted and looked up by key is the entry meant |
| `CachePruneIff.DeleteIs` | lib/cache.c:762-828 | which entries of a key cache_delete takes out of any chain, with multi-mounts among them |
| `CachePruneIff.OperationsKeepSources` | lib/cache.c:721-828 | updates and deletions keep at most one entry for each key and source |
| `CachePruneIff.IterationIff` | daemon/lookup.c:1349-1500 | an iteration prunes exactly its entry and goes on with the next if and only if marking and cache_delete, which go by its key, come to that entry alone and the next entry's key leads to the next entry; multi-mounts among the entries of the key included |
| `CachePruneRuns.LoopIsPerEntryIff` | daemon/lookup.c:1343-1503 | the loop prunes each entry on its own, however many sources share a key, if and only if that holds at every entry |
| `CachePruneRuns.BenignPrunes` | daemon/lookup.c:1343-1503 | under that condition the loop ends with the pruned cache |
| `CachePruneRuns.UniqueIsBenign` | daemon/lookup.c:1343-1503 | a cache with unique keys meets the condition in every run |
| `CachePruneRuns.RereadThenLoop` | daemon/lookup.c:1343-1503 | after re-reading a single source the loop ends and leaves the same |
| `CachePruneRuns.CurrentEntryGoes` | daemon/lookup.c:1455-1497 | on a cache of a stale entry and a current one of its key the loop deletes both and ends |
| `CachePruneRuns.NeverEnds` | daemon/lookup.c:1442-1497 | on a cache of two entries of a key, the first stale and not deleted, the loop comes back to that entry for ever |
| `CacheAdjacent.CacheIsAdjacent` | lib/cache.c:513-583 | in every run of adds, updates and deletions the entries of a key lie together in their chain |
| `CachePruneSweep.EndedIff` | daemon/lookup.c:1455-1497 | a key ends the loop exactly when a stale entry of it has a primary one of the key behind it and cache_delete leaves nothing of the key |
| `CachePruneSweep.EndlessIff` | daemon/lookup.c:1442-1497 | a key keeps the loop for ever exactly when such an entry turns it back and, among the entries cache_delete leaves, one does so again |
| `CachePruneSweep.SinglesRound` | daemon/lookup.c:1442-1497 | without multi-mounts: ended exactly when the key is deleted, for ever exactly when it is not |
| `CachePruneEnds.LoopEndsIff` | daemon/lookup.c:1343-1503 | on every cache in which keys lie together the loop ends if and only if one pass over the keys comes to none that keeps it for ever |
| `CachePruneEnds.LoopIsSweep` | daemon/lookup.c:1343-1503 | it then ends with the cache that this pass computes key by key |
| `CachePruneEnds.PruneOneCache` | daemon/lookup.c:1343-1503 | the same for the loop as it runs |
| `CachePruneExact.SinglesEndIff` | daemon/lookup.c:1343-1503 | without multi-mounts the loop fails to end exactly when, of the stale entries with another of their key behind them, the first one's key is not deleted |
| `CachePruneExact.BuiltEndIff` | daemon/lookup.c:1343-1503 | so it is for every cache that a run of adds, updates and deletions builds |
| `CachePruneExact.LoopPrunesIff` | daemon/lookup.c:1343-1503 | the loop ends with the pruned cache if and only if it leaves each key it comes to as pruning its entries one by one would, and nothing is left to prune where it ends |
| `CachePruneExact.BothDeleted` | daemon/lookup.c:1455-1497 | two updates build a cache in which the loop deletes the current entry with the stale one |
| `CachePruneExact.EndlessExample` | daemon/lookup.c:1442-1497 | two updates build a cache on which it never ends |
| `ExpireOrder.InsertByLength` | lib/mounts.c:1463-1475 | although the comparison is no order, the tree is ordered by length and finds a path it holds |
| `ExpireOrder.WalkOrdered` | lib/mounts.c:1426-1445 | what the in-order walk adds to the list, and in which order |
| `ExpireOrder.ExpireListIs` | lib/mounts.c:1499-1539 | each path once unless it ends in a slash, longest first, nested mounts before those containing them |
| `ExpireOrder.RepeatedMountChangesNothing` | lib/mounts.c:1383-1413 | adding a path twice gives the same list |
| `MountRecordsRuns.StepKeeps` | lib/mounts.c:954-1551 | every record operation keeps references, flags, lists and paths consistent |
| `MountRecordsRuns.RunKeeps` | lib/mounts.c:954-1551 | the same over every run |
| `MountRecordsRuns.PutKeeps` | lib/mounts.c:1004-1012 | giving back a spare reference frees a record only when nothing refers to it |
| `MountRecordsRuns.GetExpireKeeps` | lib/mounts.c:1499-1539 | taking the expire list keeps the invariant |
| `MountRecordsRuns.DropAllKeeps` | lib/mounts.c:1541-1551 | giving it back keeps the invariant |
| `MountRecordsLaws.RefCoversUsers` | lib/mounts.c:999-1012 | in every run ref is at least the list flags plus holders plus the expire list |
| `MountRecordsLaws.FreedIsUnused` | lib/mounts.c:1004-1012 | in every run a freed record is on no list and held by nobody |
| `MountRecordsLaws.FreedStaysFreed` | lib/mounts.c:970-1031 | a freed record is never found again |
| `MountRecordsLaws.OneRecordPerPath` | lib/mounts.c:954-968 | in every run a path has at most one record and the lookup finds it |
| `MountRecordsLaws.FlagsMatchLists` | lib/mounts.c:1122-1331 | in every run list membership is exactly the flag, and a submount's point is set exactly while flagged |
| `MountRecordsLaws.RemoveMountKeepsIff` | lib/mounts.c:1318-1331 | exactly when clearing flags keeps the records consistent |
| `MountRecordsLaws.OffsetFlagAloneFrees` | lib/mounts.c:1318-1331 | a concrete call that would free a listed record |
| `MountRecordsLaws.AddThenRemove` | lib/mounts.c:1284-1331 | adding a mount and removing it restores records and lists |
| `MountRecordsLaws.RemoveAmdmountsEmpties` | lib/mounts.c:1268-1282 | the point has no amd mounts left |
| `MountRecordsLaws.ConflictNotReported` | lib/mounts.c:1122-1146 | a conflicting owner changes nothing and gets the other's record, without a reference |
| `MountRecordsLaws.SubmountAdded` | lib/mounts.c:1122-1146 | otherwise the record returned is the point's own, flagged and listed |
| `MountRecordsLaws.ExpireListOrder` | lib/mounts.c:1499-1539 | the expire list of the records: exactly the point's mounts once each but for trailing slashes, nested ones first |
| `MountRecordsLaws.ExpireThenPut` | lib/mounts.c:1541-1551 | taking and giving back changes nothing but one reference on each mounted path with a trailing slash |
| `MountRecordsSpare.SpareStep` | lib/mounts.c:954-1551 | every step changes a record's references beyond its needs by exactly those it takes without need, and none gives one back |
| `MountRecordsSpare.RefIsNeededPlusRaised` | lib/mounts.c:954-1551 | in every run ref is exactly what flags, holders and expire list need plus the references taken without need |
| `MountRecordsSpare.LeakedForEver` | lib/mounts.c:1004-1012 | a record on which a run took such a reference is there in every continuation |
| `MountRecordsSpare.SlashLeaks` | lib/mounts.c:1484-1551 | a run that leaks on a trailing slash, with every continuation |
| `MountRecordsSpare.SecondMountLeaks` | lib/mounts.c:1284-1331 | one that leaks by recording a mount twice |
| `MountRecordsSpare.OffsetLeaks` | daemon/direct.c:655-667 | one that leaks by recording an offset found mounted |
| `MountRecordsOps.LookupFinds` | lib/mounts.c:1057-1086 | a lookup finds the record of the path that has the flags asked for, and takes a reference on it |
| `MountRecordsOps.LookupUnknown` | lib/mounts.c:1046-1066 | and nothing for a path without a record |
| `MountRecordsOps.PutGivesBack` | lib/mounts.c:1004-1012 | a holder's reference is given back, the last one freeing the record |
| `MountRecordsOps.AddMountIs` | lib/mounts.c:1284-1316 | reference, flags, and the point's list exactly when the record becomes mounted |
| `MountRecordsOps.AddMountNew` | lib/mounts.c:1284-1316 | the same for a path without a record |
| `MountRecordsOps.RemoveMountIs` | lib/mounts.c:1318-1331 | flag, list and reference go together |
| `MountRecordsOps.AddSubmountIs` | lib/mounts.c:1122-1146 | owner, flag, reference, and last in the parent's list when new |
| `MountRecordsOps.AddSubmountNew` | lib/mounts.c:1122-1146 | the same for a path without a record |
| `MountRecordsOps.RemoveSubmountIs` | lib/mounts.c:1148-1161 | owner, flag, list and reference go together |
| `MountRecordsOps.AddAmdmountIs` | lib/mounts.c:1174-1230 | flag, reference, and last in the point's list when new |
| `MountRecordsOps.AddAmdmountNew` | lib/mounts.c:1174-1230 | the same for a path without a record |
| `MountRecordsOps.RemoveAmdmountIs` | lib/mounts.c:1232-1259 | flag, list and reference go together |
| `MountRecordsOps.RemoveUnknown` | lib/mounts.c:1318-1331 | removals of a path without a record change nothing |
| `MountRecordsOps.MountPathIs` | lib/mounts.c:1284-1300 | an absolute name is its own path, another follows the point's path and a slash |
| `MountRecordsTable.Table.MntsLookup` | lib/mounts.c:954-968 | the loop finds the record of the path in use, the only one there is |
| `MountRecordsTable.Table.PutRecord` | lib/mounts.c:1004-1012 | drops a reference and frees on the last; with one to spare the table stays valid |
| `MountRecordsTable.Table.MntsGetMount` | lib/mounts.c:1014-1044 | finds or creates, leaving the record one reference more than it needs |
| `MountRecordsTable.Table.MntsLookupMount` | lib/mounts.c:1057-1086 | finds a record exactly when the path has one with the flags asked for, takes a reference on it and changes nothing else |
| `MountRecordsTable.Table.MntsPutMount` | lib/mounts.c:1068-1075 | gives a held reference back |
| `MountRecordsTable.Table.MntsAddMount` | lib/mounts.c:1284-1316 | in-place AddMount of the path built from point and name, keeping the table valid |
| `MountRecordsTable.Table.MntsRemoveMount` | lib/mounts.c:1318-1331 | in-place RemoveMount, keeping the table valid for the flag its callers clear |
| `MountRecordsTable.Table.MntsAddSubmount` | lib/mounts.c:1122-1146 | in-place AddSubmount, returning a record in either case and keeping the table valid |
| `MountRecordsTable.Table.MntsRemoveSubmount` | lib/mounts.c:1148-1161 | in-place RemoveSubmount, keeping the table valid |
| `MountRecordsTable.Table.MntsAddAmdmount` | lib/mounts.c:1174-1230 | in-place AddAmdmount, keeping the table valid |
| `MountRecordsTable.Table.MntsRemoveAmdmount` | lib/mounts.c:1232-1259 | in-place RemoveAmdmount, keeping the table valid |
| `MountRecordsTable.Table.MntsRemoveAmdmounts` | lib/mounts.c:1268-1282 | the walk over the list it removes from leaves the point no amd mount and the table valid |
| `MountRecordsTable.Table.TakeReferences` | lib/mounts.c:1508-1530 | the loop takes one reference and inserts one tree node per mounted record |
| `MountRecordsTable.Table.Traverse` | lib/mounts.c:1426-1445 | the recursion links the records in order |
| `MountRecordsTable.Table.MntsGetExpireList` | lib/mounts.c:1499-1539 | both together compute GetExpire and keep the table valid |
| `MountRecordsTable.Table.MntsPutExpireList` | lib/mounts.c:1541-1551 | the walk over the list it unlinks from computes PutExpire and keeps the table valid |
| `KernelRequestsRuns.StepKeepsInv` | daemon/direct.c:951-1494 | every step of every handler and worker keeps locks, blocks, copies and answers consistent |
| `KernelRequestsRuns.HandlerKeepsLocal` | daemon/direct.c:1012-1494 | a handler's step: its locks, its answer, its pending arguments |
| `KernelRequestsRuns.WorkerKeepsLocal` | daemon/indirect.c:562-790 | a worker's step: its copy, its locks, its answer |
| `KernelRequestsRuns.RunKeepsInv` | daemon/indirect.c:552-890 | the same over every interleaving |
| `KernelRequestsLaws.ExactlyOneReply` | daemon/indirect.c:552-890 | no token is answered twice, and a finished request was answered exactly once if and only if its handler met none of the returns with no entry, usable key or descriptor |
| `KernelRequestsLaws.NoStrayReply` | daemon/indirect.c:672-685 | only tokens that were asked are answered |
| `KernelRequestsLaws.ReadyIsWorkers` | daemon/direct.c:951-1494 | in every run a missing mount is reported ready only by a worker |
| `KernelRequestsLaws.LocksReleased` | daemon/direct.c:1272-1494 | every thread ends, and every handler waits, with no lock held |
| `KernelRequestsLaws.MutualExclusion` | daemon/direct.c:1303-1345 | a check of the lock model: no two threads hold conflicting locks |
| `KernelRequestsLaws.NoUseAfterFree` | daemon/indirect.c:860-890 | the pending arguments exist, with the right token, whenever either thread may touch them, and are freed once the worker has its copy |
| `KernelRequestsLaws.ReplyIsVerdict` | daemon/indirect.c:687-770 | under every later schedule the kernel is told the verdict on the worker's outcome and nothing else |
| `KernelRequestsRefused.RefusedIff` | daemon/direct.c:1380-1450 | in every run a handler has refused with an error exactly when it came to the step that refuses with it: point shutting down, failure recorded, name too long, no memory, no thread |
| `KernelRequestsRefused.HandedIff` | daemon/indirect.c:773-890 | a handler that is through has started a worker exactly when it met no such step, no answer at once and no return with nothing to answer on |
| `KernelRequestsRefused.SearchIsInOrder` | daemon/direct.c:1303-1370 | a handler looks at the maps in order, passing over stale ones and caches without the entry, and a direct worker is given the cache of the first that has it |
| `KernelRequestsRefused.LooksUnderLock` | daemon/direct.c:1303-1380 | caches are looked into, and entries used, under the lock and in the mode their use needs |
| `KernelRequestsRefused.ArrivesWith` | daemon/direct.c:1311-1320 | the mode of the source lock for each kind of request |
| `KernelRequestsRefused.AnswersUnderLock` | daemon/direct.c:951-1012 | a worker reports a direct mount or expire as done while it holds the cache lock for writing, and answers otherwise without a lock |
| `KernelRequestsReady.ReadyIff` | daemon/direct.c:951-1494 | in every run a finished request was answered ready exactly when its work succeeded or one of the named steps decided on ready without, never both |
| `KernelRequestsExample.NotMountedButReady` | daemon/indirect.c:733-739 | a run in which that happens |
| `KernelRequestsLaws.NoDeadlock` | daemon/direct.c:1012-1494 | while a request is unfinished some thread can take a step of its own, whatever the environment does |
| `KernelRequestsLaws.CanFinish` | daemon/direct.c:1012-1494 | from every reachable state all open requests can be finished, whatever the environment does at each step, with a bound on the steps |
| `KernelRequestsLaws.GoingEnds` | daemon/direct.c:1012-1494 | every schedule of steps that threads take on their own is bounded, and where none is left all requests are finished |
| `AlarmQueue.StepKeeps` | lib/alarm.c:44-257 | every operation and handler step keeps the list sorted and the sleeper's deadline right |
| `AlarmQueue.SleepsUntilFirst` | lib/alarm.c:206-257 | in every run a sleep with no signal pending is until the first alarm, and only the first alarm may be cancelled |
| `AlarmQueue.DueWakes` | lib/alarm.c:206-257 | in every run a handler asleep with an alarm due is signalled or its deadline has passed |
| `AlarmQueue.AddWakesIff` | lib/alarm.c:44-99 | adding an alarm wakes a sleeping handler exactly when the first alarm comes earlier than before |
| `AlarmQueue.DeleteWakesIff` | lib/alarm.c:136-184 | deleting wakes it exactly when the first alarm is the point's |
| `AlarmQueue.SignalIsForSleeper` | lib/alarm.c:206-257 | in every run a signal is pending only while the handler sleeps |
| `AlarmQueue.HandlerSteps` | lib/alarm.c:206-257 | when the handler wakes, looks and posts, and what waking and going to sleep change |
| `AlarmQueue.DeleteCancels` | lib/alarm.c:136-184 | afterwards each listed alarm of the point is cancelled, at most the first, and others are untouched |
| `AlarmQueue.DeletedPostsIff` | lib/alarm.c:136-257 | in every run, after a deletion and until an alarm is added again, a task is posted for the point if and only if the handler was posting for it when the alarms were deleted, and then just that one |
| `AlarmQueue.TaskAfterDelete` | lib/alarm.c:244-254 | a run in which the task comes after the deletion |
| `AlarmQueue.NoAlarmLost` | lib/alarm.c:206-257 | without deletion every alarm added is still to come or posted exactly once |
| `AlarmQueue.ConditionalAddIff` | lib/alarm.c:186-204 | exactly when the point has an alarm that will run afterwards |
| `AlarmQueue.AlarmMissed` | lib/alarm.c:112-204 | a feasible run in which it has none |
| `AlarmQueue.DueIsComplete` | lib/alarm.c:219-254 | in a sorted list the due prefix holds every due alarm |
| `AlarmQueue.HandlerRuns` | lib/alarm.c:206-257 | a woken handler posts what is due in order and sleeps until the next alarm |
| `AlarmLoops.Alarms.AlarmAdd` | lib/alarm.c:44-99 | the insertion loop and the signalling rule compute Add |
| `AlarmLoops.Alarms.AlarmExists` | lib/alarm.c:112-134 | the loop finds an alarm of the point exactly when there is one |
| `AlarmLoops.Alarms.ConditionalAlarmAdd` | lib/alarm.c:186-204 | computes ConditionalAdd |
| `AlarmLoops.Alarms.AlarmDelete` | lib/alarm.c:136-184 | the unlinking loop computes Delete |
| `AlarmLoops.Alarms.AlarmHandler` | lib/alarm.c:206-257 | the loop from a wake-up to the next sleep posts exactly the due alarms |
| `Base64.Alphabet` | modules/base64.c:6-7 | the characters are those of RFC 3548 in order |
| `Base64.SymbolValue` | modules/base64.c:78-91 | the character tables are inverse to each other |
| `Base64.QuadIsSixBitGroups` | modules/base64.c:15-29 | repeated division gives the four six-bit groups of three bytes |
| `Base64.EncodeLength` | modules/base64.c:40-70 | the length of the encoding |
| `Base64.NoiseIsSkipped` | modules/base64.c:177-180 | characters outside the alphabet make no difference |
| `Base64.RoundTrip` | modules/base64.c:156-201 | decoding the encoding of any bytes gives them back, padded or not |
| `Base64.QuadLength` | modules/base64.c:100-146 | how many bytes four characters give, malformed ones included |
| `Base64.DecodeStops` | modules/base64.c:156-201 | what follows a padded encoding is not decoded |
| `Base64Loops.EncodeTriple` | modules/base64.c:15-29 | writes exactly the four characters |
| `Base64Loops.Base64Encode` | modules/base64.c:40-70 | succeeds exactly when the encoding and its NUL fit, writes exactly those, and changes nothing otherwise |
| `Base64Loops.TestIsSafeIff` | modules/base64.c:42-44 | the length test protects the target exactly when its length is not 0 |
| `Base64Loops.CheckQuad` | modules/base64.c:109-122 | validity and number of bytes, with '=' only at the end |
| `Base64Loops.TopBytes` | modules/base64.c:137-143 | the two loops give the leading bytes of the value |
| `Base64Loops.DecodeTriple` | modules/base64.c:100-146 | computes DecodeQuad |
| `Base64Loops.ReadQuad` | modules/base64.c:175-182 | reads the next four characters that count and never past the appended padding |
| `Base64Loops.Base64Decode` | modules/base64.c:156-201 | fails exactly when the bytes do not fit, otherwise stores exactly them over zeros; never reads past the four '=' |
| `Base64Loops.EncodeThenDecode` | modules/base64.c:40-201 | the round trip through both buffers |
| `ExpandEntry.DotForms` | lib/parse_subs.c:1075-1083 | the dotted forms cut a value at its first dot |
| `ExpandForms.MacroForms` | lib/parse_subs.c:1061-1165 | the five forms of a macro with a value: the value, its basename, its dirname, and its parts before and after the first dot |
| `ExpandForms.UnknownMacro` | lib/parse_subs.c:1130-1165 | a macro without a value stays as it is |
| `ExpandForms.MacroInPlace` | lib/parse_subs.c:1092-1165 | macros are expanded where they stand, the text around them kept |
| `ExpandForms.UnclosedMacro` | lib/parse_subs.c:1106-1125 | an entry ends at a macro that is not closed |
| `ExpandForms.Escape` | lib/parse_subs.c:1167-1182 | a backslash takes the next character as it is |
| `ExpandForms.QuotedEntry` | lib/parse_subs.c:1167-1214 | slashes and backslashes stay between single quotes |
| `ExpandEntry.NothingToExpand` | lib/parse_subs.c:1092-1221 | with no macro and no normalization an entry is unchanged up to an unclosed macro, and fully exactly without one |
| `ExpandEntry.SimpleEntry` | lib/parse_subs.c:1183-1200 | runs of slashes become one, except a double slash at the start |
| `ExpandEntry.ExpandTwice` | lib/parse_subs.c:1183-1200 | expanding a simple entry again changes nothing |
| `ExpandLoops.StrCat` | lib/parse_subs.c:1137-1155 | into a zeroed buffer strcat, strcpy and strncat all append at the write position |
| `ExpandLoops.ExpandMacro` | lib/parse_subs.c:1106-1165 | the macro case counts and writes the same text |
| `ExpandLoops.ExpandChar` | lib/parse_subs.c:1167-1214 | every other case counts and writes the same text |
| `ExpandLoops.ExpandAmdEnt` | lib/parse_subs.c:1092-1221 | counting returns the length of the expansion, writing stores exactly the expansion and returns the same length |
| `ExpandLoops.ExpandSelectors` | lib/parse_subs.c:1223-1253 | a buffer of the counted length and one more suffices, and the result is the expansion |

## Left out

- The intrusive rings of include/list.h are sequences; hash arrays and the inode index of the cache are values.
- The string hash is a parameter: only its being a function of the key is used.
- pthread primitives: a mutex section is one step, and a condition wait ends on a signal, a timeout or for no reason.
- Liveness of queued tasks: the code does not provide it (`WaitingLost`, `UnheardIsOneOf`).
- StateQueueLoops.TaskQueue.ExpireCleanup: does not make the calls of conditional_alarm_add, which change only the alarm list.
- The rest of do_readmap and of the expire procedures.
- StateQueueLoops.TaskQueue.LaunchWorker: does not call conditional_alarm_add on a failed start; the hand-over of arguments to the new thread, with its wait for `signaled`, is part of thread creation.
- CacheChains.HashChain.KeyNext: requires that it is not called on an offset with a successor, where the source loops for ever.
- CachePruneEnds.PruneOneCache: requires that the loop ends, by the condition of `LoopEndsIff`; no other thread changes the cache, and what the system answers stays the same, while it runs.
- CachePruneIff.IterationIff: requires at most one entry for each key and source, which is what updates and deletions keep (`OperationsKeepSources`).
- CachePrune.RereadThenPrune: requires a single source without multi-mounts.
- OffsetDelete.DeleteOffsets: on values; the pointers that tree_mapent_delete_offset_tree clears are the tree's links.
- Mounting offsets (tree_mapent_mount_offsets) beyond the order of its walk, and the removal of directories made for offsets.
- MountRecordsRuns.GetExpireKeeps: requires that no mount of the point is on an expire list already, which holds while one expire worker runs per point and a path is mounted by one point.
- MountRecordsTable.Table.MntsAddAmdmount: does not store the amd strings of the record (ext_mp, amd_pref, amd_type, amd_opts) or model a failing copy of them.
- MountRecordsTable.Table.MntsRemoveAmdmount: does not free those strings.
- MountRecordsTable.Table.MntsRemoveAmdmounts: does not call ext_mount_remove.
- The descriptors of the kernel request protocol (opening, storing and closing of ioctlfd), return codes of the handlers, and the locks that lookup_nss_mount takes inside a worker.
- KernelRequestsLaws.NoDeadlock: for the system of handlers and workers; other threads that take the same locks are not part of it. A handler's own wait is never cancelled, as no caller cancels it.
- Nanoseconds of the alarm's deadline.
- AlarmLoops.Alarms.AlarmHandler: with no other thread between its rounds; interleavings are in the runs of `AlarmQueue`.
- Base64Loops.Base64Encode: requires a target of at least one character, since the length test is wrong for none.
- ExpandLoops.ExpandMacro: requires a body that is not a lone `/` or `.`, as below.
- ExpandLoops.ExpandSelectors: requires entries without such a body, as below.
- ExpandLoops.ExpandAmdEnt: requires that no `${...}` body is a lone `/` or `.`, where the source passes a negative length; macro lookup, basename and dirname are parameters.
- Map parsing, name service switch, NFS host selection, configuration, command line, logging, RPC and fedfs helpers.
