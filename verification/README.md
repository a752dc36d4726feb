# CHASM tree and routing: a verified model

This project models, in Dafny 4.11, the in-memory tree of persisted components of the Temporal
server (package `chasm`) and five self-contained algorithms beside it, and proves what they are for.
`dafny verify dfyconfig.toml` checks all of it.

## The tree

A tree holds nodes by position. Each node has a record that is persisted, and, once it has been
read, a value. Three protocols work on it.

*Closing a transaction.* The values that were written are compared with the nodes (`Sync`,
`SyncApply`, `SyncFacts`), deferred pointers are resolved (`Pointers`, `DeferredPointers`), changed
nodes are serialized (`Transaction`), the logical tasks of all components are cleaned up, extended
and handed to the queues (`Tasks`, `TaskFacts`, `CloseTasks`, `NewTasks`, `CloseTree`), and an
incremental mutation is returned (`Persistence`). What sync makes of a value is said node by node in
`NewNodes`. `Steps` says what holds between and during transactions,
`Start` how an execution begins, and `Execution.CloseTransaction` is the whole of a close: the
records persisted before, changed by the mutation, are the records of the tree, and what was written
is in them; `Closability` says of a tree beforehand that it will close. `Settled` is the close of a transaction that has changed no value, after replication or,
in `Regeneration`, after a refresh of the tasks. `Load` shows that loading the records gives the
tree again.

*Replication.* A standby computes the difference to a snapshot and applies it (`Replication`,
`ReplicationApply`). `Convergence` says exactly when that reproduces the snapshot. A source is the
history of its transactions (`Transitions`, `Source`; the operations on its tree are shown to make
one in `Recording`): a snapshot brings a standby that holds any earlier state to the present one,
and the mutation of each transaction brings it from one state to the next (`Following`).
`ReplicationStatus` and `CarryingOver` say exactly which records and physical task statuses arrive. `Standby.ReceiveSnapshot` and
`StandbyMutations.ReceiveMutation` are the whole of it, with the close that persists the result.

*Physical tasks.* A status that is local to the cluster decides which logical tasks still need a
queue entry. `Runs` describes whole runs of a cluster as steps on the task lists of all components,
the physical timers and the tasks emitted, and proves what holds in every state. The methods on the
tree are shown to be these steps (`CloseTree.UpdateComponentTasks`,
`ReplicationRuns.SnapshotIsReplicate`, `Refresh.RefreshIsStep`). `PureTasks` runs the tasks that are
due (`Scheduling` shows that it misses none in any run), and `Visibility` is a client of the
protocol.

Keys of nodes are made and taken apart by `PathEncoder`; `PathKeys` proves the round trip and the
range queries.

## Beside the tree

`MovingAverage` is the ring buffer of the moving-window average, `LoadBalancer` the balancing of
polls over partitions, `ShardMapping` the mapping between shard counts, `Redirector` the cache of
shard owners.

## How the code is rendered

- The tree, its backend, the moving average, the balancer of a queue, the cache of shard owners and
  the visibility component are classes with the fields of the code. The nodes of a tree are the
  entries of one map from positions to node records, a field of the class `Tree`.
- Loops are loops, and each method is proved against a function or a predicate about which lemmas
  then prove what the code is for. Iteration over a Go map is iteration in an arbitrary order.
- A panic, or a nil value that the code would dereference, is a failure without result.
- Validators of tasks, serializers, callbacks, membership lookups, random starts and readings of the
  clock are arbitrary parameters. The comparison of versioned transitions is not in the files
  modelled; it is taken to be the lexicographic order of failover version and transition count, and
  a missing one to be zero. Every transaction writes a larger version than any before it.
- `DeleteCHASMPureTasks` removes whichever timers strictly before its bound it chooses.

Where the documentation in the code promises more than the code does, the code is modelled, and a
lemma says exactly when the promise holds: the query for a sub-tree (`PathKeys.SubtreeQueryExact`),
syncing the entire tree (`SyncFacts.NothingLeftToSync`), resolving all deferred pointers of the tree
(`DeferredPointers.NoDeferredLeft`), convergence after an arbitrary snapshot
(`Convergence.SnapshotConverges`), statuses after replication, which come from the source where a
child is created before its parent and where a node that was none becomes a component
(`ReplicationStatus.StatusesResetInEveryOrder`, `ReplicationRuns.SnapshotIsReplicate`), updates and
deletions of a mutation being disjoint on a standby (`Standby.ApartUnlessRecreated`), the early exit
among pure tasks (`PureTasks.StoppingEarlyLosesNothing`), and exact poll counts after a change of
the partition count (`LoadBalancer.ResizeKeepsExact`).

Hypotheses on the application: a value without node is never put where a child still is, and no
object is attached at two positions (`Sync.NodeOk`, `Sync.AllAtHome`). The Visibility component does
not keep to the first one; `Replacement` says what then holds, and when the mutation is still
complete. That the components above every changed one have been read (`SyncFacts.Hydrated`) is
sufficient, not necessary, for a sync to leave nothing; where a sync stops above a changed node, the
next one gets further, and a close whose own sync stops fails (`SyncFacts.NothingBlocked` in
`Execution.NothingLost`). A write leaves the fields of deferred pointers alone or clears them
(`DeferredPointers.SparesDeferred`).

## Model

| member | source | states |
|---|---|---|
| `PathEncoder.WriteName` | temporal/temporal/chasm/path_encoder.go:70-87 | Writing one name appends its escaped form, or fails with the error for an empty name or for a code point that is not UTF-8, whichever the loop meets first. |
| `PathEncoder.Encode` | temporal/temporal/chasm/path_encoder.go:47-90 | The loop writes exactly the escaped names joined by separators, with '#' in front of the last name of a direct collection item, or fails with the error of the first bad name. |
| `PathEncoder.Decode` | temporal/temporal/chasm/path_encoder.go:92-132 | The loop splits exactly at the unescaped separators; a bad code point and a trailing escape give their two errors. |
| `PathKeys.RoundTrip` | temporal/temporal/chasm/path_encoder.go:47-132 | Encoding succeeds on exactly the paths of nonempty valid names, decoding undoes it under either separator, and no path but the root's gets the empty key. |
| `PathKeys.EncodeInjective` | temporal/temporal/chasm/path_encoder.go:47-90 | Two nodes share a key only if they have the same path and, from the second level on, the same kind of parent. |
| `PathKeys.DecodeDomain` | temporal/temporal/chasm/path_encoder.go:92-132 | A text decodes exactly if it is valid UTF-8 and does not end inside an escape. |
| `PathKeys.SubtreeRange` | temporal/temporal/chasm/path_encoder.go:26-46 | For a node that is no direct collection item, a key lies from the node's key up to that key followed by '%' exactly if it is that of the node or of one below it. |
| `PathKeys.ItemRangeHoldsItemOnly` | temporal/temporal/chasm/path_encoder.go:34-46 | For a direct collection item the same query finds the item alone: the keys of the nodes below it hold the other separator. |
| `PathKeys.SubtreeQueryExact` | temporal/temporal/chasm/path_encoder.go:27-46 | The documented sub-tree query answers rightly about a node exactly if it is not asked about something strictly below a direct collection item. |
| `PathKeys.CollectionRange` | temporal/temporal/chasm/path_encoder.go:27-36 | A key lies from the key of a node followed by '#' up to that key followed by '$' exactly if it is that of a direct item of the node. |
| `PathKeys.KeyOfChild` | temporal/temporal/chasm/path_encoder.go:60-90 | The format: the root has the empty key, a child of it its escaped name, and any other node the key of its parent, '#' under a collection or '$' elsewhere, and its escaped name. |
| `PathKeys.EscapeOfRune` | temporal/temporal/chasm/path_encoder.go:79-85 | An escape stands before the escape character itself, before both separators and before every code point below '#', and before no other. |
| `PathKeys.EncodeError` | temporal/temporal/chasm/path_encoder.go:70-78 | Encoding fails with the error of the first name that is empty or not UTF-8: an internal one, or an invalid argument. |
| `PathKeys.DecodeError` | temporal/temporal/chasm/path_encoder.go:92-132 | Decoding fails with an invalid argument for text that is not UTF-8, else with an internal error for one that ends inside an escape. |
| `TaskFacts.CompareIsOrder` | temporal/temporal/chasm/tree.go:2708-2721 | Both comparisons are total orders; two tasks compare equal exactly if their keys (and for pure tasks their times) are equal. |
| `TaskFacts.OrderMeaning` | temporal/temporal/chasm/tree.go:2708-2721 | Versions are compared by failover version, then by transition count; side-effect tasks by version and then offset; pure tasks by time first. |
| `Tasks.CarryOverTaskStatus` | temporal/temporal/chasm/tree.go:2723-2763 | The two-pointer loops terminate, and leave the target list and the payload cache that the recursive merge describes. |
| `TaskFacts.MergeTakesMatch` | temporal/temporal/chasm/tree.go:2733-2742 | A target task takes status and payload from the source task with its key, wherever both stand in their sorted lists. |
| `TaskFacts.MergeResetsUnmatched` | temporal/temporal/chasm/tree.go:2748-2758 | A target task without counterpart is left without physical task. |
| `TaskFacts.MergeKeepsTasks` | temporal/temporal/chasm/tree.go:2723-2763 | Nothing but status and payload of a target task ever changes, and it is marked Created only if its counterpart was. |
| `TaskFacts.EvictedExactly` | temporal/temporal/chasm/tree.go:2743-2747 | On sorted lists exactly the payloads of the source tasks without counterpart leave the cache. |
| `TaskFacts.MergeKeepsShape` | temporal/temporal/chasm/tree.go:2723-2763 | The merged list has its Created tasks in front exactly if no unmatched target task stands before one that takes over Created. |
| `TaskFacts.ExtendedSublistKeepsShape` | temporal/temporal/chasm/tree.go:2723-2763 | So it has, when the incoming list is a sublist of the local one followed by larger keys. |
| `Tasks.RemoveInvalid` | temporal/temporal/chasm/tree.go:1865-1893 | One pass of DeleteFunc keeps exactly the tasks not found invalid, reports whether any was found so, evicts exactly their payloads, and fails exactly if a validator fails. |
| `Tasks.KeptExactly` | temporal/temporal/chasm/tree.go:1865-1893 | The tasks that stay are exactly those not found invalid. |
| `Tasks.CleanupInvalidTasks` | temporal/temporal/chasm/tree.go:1859-1901 | Both lists are cleaned; something was removed exactly if the lists changed, and exactly the payloads of invalid tasks are evicted. |
| `Tasks.HandleNewTasks` | temporal/temporal/chasm/tree.go:1903-1975 | The valid new tasks are appended with consecutive offsets, the pure list is sorted if one was added, exactly their payloads join the cache; it fails exactly if a task has both a destination and a scheduled time or a validator fails. |
| `TaskFacts.SortFuncSorts` | temporal/temporal/chasm/tree.go:1969-1972 | Sorting tasks with distinct keys gives a strictly sorted permutation. |
| `TaskFacts.SortedPermutationUnique` | temporal/temporal/chasm/tree.go:1969-1972 | There is only one such permutation, so the sorting algorithm does not matter. |
| `Tasks.GeneratePhysicalSideEffectTasks` | temporal/temporal/chasm/tree.go:1766-1778 | The backward loop marks exactly the tasks behind the last Created one, and emits them, last first, as they were. |
| `TaskFacts.ScanReachesAll` | temporal/temporal/chasm/tree.go:1766-1778 | That loop reaches all tasks without physical task, and no other, exactly if the Created ones come first. |
| `Tasks.ResetTaskStatus` | temporal/temporal/chasm/tree.go:2378-2402 | All statuses of both lists are reset, and the result says whether any was Created. |
| `CloseTasks.LogicalFacts` | temporal/temporal/chasm/tree.go:1859-1975 | Cleanup, append and re-sort keep both lists strictly sorted and all keys distinct; new keys have the new version and offsets given out in this close. |
| `CloseTasks.AppendedFacts` | temporal/temporal/chasm/tree.go:1940-1967 | New tasks get consecutive keys of the new version and join behind the old ones. |
| `CloseTasks.LogicalShape` | temporal/temporal/chasm/tree.go:1859-1975 | They also keep the Created tasks in front; a task not there before is a new one without physical task. |
| `CloseTasks.EmittedFacts` | temporal/temporal/chasm/tree.go:1766-1778 | On such a list every task without physical task is emitted, no other is, and afterwards all are marked. |
| `NewTasks.AppendedTakes` | temporal/temporal/chasm/tree.go:1903-1975 | Appending takes every valid new task, and no other, into the list of its kind: with its type, destination, scheduled time and payload, the version written and the offset that the number of valid ones before it gives; whatever was there stays. |
| `NewTasks.CloseUpdates` | temporal/temporal/chasm/tree.go:1695-1975 | So does the close of a whole tree: every component keeps exactly its tasks that are still valid and gets exactly the valid ones among its new tasks, each in the list of its kind, changed in nothing but status. |
| `NewTasks.CloseNumbers` | temporal/temporal/chasm/tree.go:1707-1755 | The offsets of all new tasks of a transaction are consecutive from one on, in the order of the traversal. |
| `Runs.CloseAllKeeps` | temporal/temporal/chasm/tree.go:1695-1804 | After any part of the traversal of a close: lists sorted, keys unique in the tree, marks equal to what was emitted, and the earliest pure task seen so far is remembered. |
| `Runs.CloseKeepsInv` | temporal/temporal/chasm/tree.go:1695-2033 | A close keeps the invariant of all runs; the earliest pure task of the tree is then Created, all side-effect tasks are emitted, and at most one timer was added. |
| `Runs.TimersAfterClose` | temporal/temporal/chasm/tree.go:1780-2033 | Removing any timers strictly before the earliest pure task leaves a timer for every pure task marked Created. |
| `Runs.RefreshKeepsInv` | temporal/temporal/chasm/tree.go:2354-2402 | RefreshTasks keeps the invariant, with an empty record of emissions. |
| `Runs.ReplicateKeepsInv` | temporal/temporal/chasm/tree.go:2302-2402 | Replication keeps it, when incoming side-effect lists continue the local ones and bring no task that was emitted here. |
| `Runs.RunKeepsInv` | temporal/temporal/chasm/tree.go:1695-2033 | In every state of every run: lists strictly sorted, task keys unique in the tree, Created side-effect tasks first, a task marked exactly if emitted since the last refresh, none emitted twice, a timer for every Created pure task. |
| `Runs.CloseInRun` | temporal/temporal/chasm/tree.go:1695-2033 | After every close of every run each side-effect task has been emitted exactly once since the last refresh, and the earliest pure task has its timer, though the close added at most one. |
| `ChasmTree.Tree.constructor` | temporal/temporal/chasm/tree.go:287-319 | A new tree has only its empty root, an empty index and an empty mutation. |
| `ChasmTree.Tree.SetValue` | temporal/temporal/chasm/tree.go:374-389 | The value is replaced and the index holds exactly the values of the attached component and data nodes afterwards. |
| `ChasmTree.Tree.SetValueState` | temporal/temporal/chasm/tree.go:391-396 | The state is set, and the tree becomes dirty exactly from NeedSerialize on. |
| `ChasmTree.Tree.GetEncodedPath` | temporal/temporal/chasm/tree.go:2404-2413 | The key is the cached or the computed one and is cached; it fails exactly if neither is possible. |
| `ChasmTree.Tree.FindNode` | temporal/temporal/chasm/tree.go:2423-2436 | The recursion finds a node exactly if there is one at that position. |
| `ChasmTree.Tree.SetSerializedNode` | temporal/temporal/chasm/tree.go:720-739 | The record is put at the position, empty nodes above it where there were none, and nothing else changes. |
| `ChasmTree.Tree.Delete` | temporal/temporal/chasm/tree.go:2438-2464 | Exactly the subtree goes (of the root, all below it), exactly its keys join DeletedNodes, exactly the payloads of its tasks leave the cache, the index stays exact; it fails exactly if a key cannot be encoded. |
| `ChasmTree.Tree.CleanupCachedTasks` | temporal/temporal/chasm/tree.go:2466-2479 | Exactly the payloads of the node's two task lists leave the cache. |
| `ChasmTree.KeyDecodes` | temporal/temporal/chasm/tree.go:2404-2421 | A cached or computed key decodes to the position of its node. |
| `ChasmTree.Tree.IndexIsExact` | temporal/temporal/chasm/tree.go:374-389 | An identity is in the index, for a position, exactly if the component or data node there holds the object with it. |
| `ChasmTree.PlacedExactly` | temporal/temporal/chasm/tree.go:720-739 | After setSerializedNode the position holds the record and its key, to be deserialized; there are new empty nodes where there was none above it, and all others are as they were. |
| `ChasmTree.DeletedExactly` | temporal/temporal/chasm/tree.go:2438-2464 | A deletion takes out the node and all below it, but leaves the root, without its value; all others are as they were, and the keys and payloads that go are exactly those of the subtree. |
| `SyncApply.SyncSubComponents` | temporal/temporal/chasm/tree.go:809-922 | After syncing a subtree every position of it holds what the position-wise result says, nothing outside changes, the deletions recorded cover all nodes that are gone and stand only for positions without node, and the flag for resolving pointers is set if a deferred one has come; it succeeds if all below the subtree have encoded paths, as have the collections of empty maps. |
| `SyncApply.SyncSubField` | temporal/temporal/chasm/tree.go:1026-1108 | The same for one field or item: cleared content gets no node, a fresh value a node with its subtree, an attached child is synchronised in turn. |
| `SyncApply.SyncItems` | temporal/temporal/chasm/tree.go:853-913 | The same for the items of a collection. |
| `SyncApply.SyncComponent` | temporal/temporal/chasm/tree.go:809-922 | The same for a component whose value has been written. |
| `SyncApply.DeleteChildren` | temporal/temporal/chasm/tree.go:1110-1121 | Exactly the children not kept are deleted. |
| `SyncApply.AttachChild` | temporal/temporal/chasm/tree.go:666-691 | The new node holds the value, is to be synchronised if it is a component and serialized otherwise, and has a blank record of its kind: the version of the transaction as its initial one, no last update, no data, for a component its detached flag and no tasks; the value is indexed, and a deferred pointer sets the flag for resolving. |
| `Replacement.ReplacingKeepsTx` | temporal/temporal/chasm/tree.go:1038-1098 | When a fresh value is put over a child that is still attached, the mutation still completes exactly if no record of what leaves the tree is left behind: each is deleted already or stands under the key of the new node. |
| `Replacement.ReplacingLeafKeepsTx` | temporal/temporal/chasm/visibility.go:232-252 | So it does for a leaf under the key of the encoder, as the search attributes and the memo are. |
| `Replacement.ReplacedSubtreeStays` | temporal/temporal/chasm/tree.go:1038-1098 | It is not so when a node persisted below the child has left the tree with it: its record is left behind. |
| `Replacement.ReplacementPersisted` | temporal/temporal/chasm/tree.go:1422-1474 | The mutation of a close that serializes the tree after such a replacement makes the persisted records those of the tree exactly if nothing was left behind. |
| `Replacement.ReplaceChild` | temporal/temporal/chasm/tree.go:1038-1098 | The index then holds exactly the attached values and, in addition, those that have left. |
| `Sync.SyncedNodeOrigin` | temporal/temporal/chasm/tree.go:809-1121 | Every node after a sync was there before and has at most settled, or is new: to be serialized, with the version of the transaction as its initial one, no last update, no data, no type or target yet, and no tasks. |
| `NewNodes.SyncBuildsField` | temporal/temporal/chasm/tree.go:1026-1108 | Every fresh value in a field or item of a synchronised component gets its node, and so does everything in it at every depth: of the kind of the field, with the content's own detached flag, holding that value with its fields settled; a map gets its collection. |
| `NewNodes.SyncBuildsItem` | temporal/temporal/chasm/tree.go:853-913 | So does every fresh item of a map; its collection, if it is new, has a blank record too. |
| `NewNodes.NewNodeComesFrom` | temporal/temporal/chasm/tree.go:809-1121 | Conversely every new node is that of a map, or lies in the subtree of a fresh value, of a component that was synchronised. |
| `NewNodes.SyncSettlesValue` | temporal/temporal/chasm/tree.go:1083-1108 | The value of a synchronised component afterwards: fresh fields are attached, deferred pointers still know their target, and nothing else of it has changed. |
| `SyncFacts.ChildrenMatchFields` | temporal/temporal/chasm/tree.go:809-922 | A component that was synchronised has exactly the children that its fields name. |
| `SyncFacts.ItemsMatchMap` | temporal/temporal/chasm/tree.go:853-913 | A collection has exactly the items that have not been cleared. |
| `SyncFacts.NothingLeftToSync` | temporal/temporal/chasm/tree.go:809-1121 | One sync leaves nothing to synchronise exactly if it stops above no changed value: where, at whatever depth, a component to be synchronised has next on the way an attached field or item that is not a component with its value read. |
| `SyncFacts.LeftToSync` | temporal/temporal/chasm/tree.go:809-1121 | Position by position: what is still to be synchronised afterwards is exactly what was and had such a component above it. |
| `SyncFacts.HydratedIsNotBlocked` | temporal/temporal/chasm/tree.go:809-1121 | It is enough that all components above the changed ones have been read. |
| `SyncFacts.UnreadComponentBlocksSync` | temporal/temporal/chasm/tree.go:1099-1105 | Where sync stops above a changed node, it leaves that node and everything below it as it is. |
| `SyncFacts.UnreadComponentExample` | temporal/temporal/chasm/tree.go:809-1121 | A tree for which a sync does not do what it is called for: under a written root, a component that has not been read, and below it one that was written and is missed. |
| `SyncFacts.SyncIsIdempotent` | temporal/temporal/chasm/tree.go:809-1121 | A second sync changes nothing exactly if the first has stopped nowhere; else it gets past a component at which the first one stopped. |
| `SyncFacts.RankExists` | temporal/temporal/chasm/tree.go:809-1121 | Every tree bounds the depth of its sync, so the recursion always ends. |
| `Pointers.ResolveComponent` | temporal/temporal/chasm/tree.go:2044-2087 | All deferred pointers of a component are replaced, or it fails, exactly when one has no node or no indexed target; no field holds one afterwards. |
| `Pointers.ResolveDeferredPointers` | temporal/temporal/chasm/tree.go:2038-2089 | The same for the whole tree, and nothing else changes. |
| `Pointers.PointersLeadBack` | temporal/temporal/chasm/tree.go:2038-2089 | No deferred pointer is left in a field of a component, and each leads to the position of the node that holds its target; items of collections are not looked at. |
| `Pointers.OnlyDeferredChange` | temporal/temporal/chasm/tree.go:2062-2084 | Resolving makes exactly the deferred fields plain attached ones; no other field changes, and of a node nothing but its value, unless it is that of a deferred pointer nothing at all. |
| `DeferredPointers.SyncKeepsDeferredOk` | temporal/temporal/chasm/tree.go:1026-1108 | After any sync every node holding a deferred pointer is new, and the node above it is a collection, or has a field that says so, or one that has been cleared and not been synchronised yet; if the sync has left nothing, not the last. |
| `DeferredPointers.WriteKeepsDeferredOk` | temporal/temporal/chasm/tree.go:513-547 | So it is after a write that leaves the fields of deferred pointers alone or clears them. |
| `DeferredPointers.TransactionKeepsDeferredOk` | temporal/temporal/chasm/tree.go:809-1121 | And so in every state of a transaction with any number of such writes, of reads, and of syncs. |
| `DeferredPointers.TxLeavesNoneDeferred` | temporal/temporal/chasm/tree.go:1422-1474 | A transaction that starts without deferred pointers is closed only when all that it has made are resolved. |
| `DeferredPointers.DeferredAfterResolving` | temporal/temporal/chasm/tree.go:2038-2089 | Resolving leaves exactly the deferred pointers that are items of collections. |
| `DeferredPointers.NoDeferredLeft` | temporal/temporal/chasm/tree.go:2038-2089 | None is left in the tree exactly if no collection has one as an item; if one has, serialization fails. |
| `DeferredPointers.DeferredItemExample` | temporal/temporal/chasm/tree.go:2038-2089 | A transaction that cannot be closed: a map field has got a pointer to an object without node as its item, which stays deferred. |
| `DeferredPointers.ClosedWithoutDeferredItems` | temporal/temporal/chasm/tree.go:1422-1474 | So a close succeeds only without such items. |
| `Pointers.PersistedPointerLeadsBack` | temporal/temporal/chasm/tree.go:1151-1165 | The record written for a resolved pointer has that position as its target. |
| `Transaction.PreOrder` | temporal/temporal/chasm/tree.go:2093-2112 | The traversal visits every position of the subtree exactly once. |
| `Transaction.Serialize` | temporal/temporal/chasm/tree.go:743-807 | The record gets the new version and keeps its initial one; a component gets its encoded value and its type and keeps its detached flag and tasks, a data node gets its encoded value, a pointer the path that is its value as its target; it fails exactly if there is no record, or a pointer holds no path. |
| `Transaction.SerializeNode` | temporal/temporal/chasm/tree.go:1656-1690 | A dirty node is serialized, joins UpdatedNodes and leaves DeletedNodes; a clean one is left alone; it fails exactly if the node is not in a state to be serialized or has no key. |
| `Transaction.SerializeNodes` | temporal/temporal/chasm/tree.go:1655-1693 | Exactly the dirty nodes are rewritten and entered under their keys, and their keys leave DeletedNodes; it fails exactly if one of them cannot be written. |
| `CloseTree.CleanupComponent` | temporal/temporal/chasm/tree.go:1717-1744 | The lists of the component are cleaned on the active side only; if that changes them and the component was not written, it gets the new version and joins the mutation. |
| `CloseTree.CloseComponent` | temporal/temporal/chasm/tree.go:1710-1778 | One component of the traversal: it keeps exactly its tasks still valid (all, on the passive side) and gets exactly the valid ones among those added, if it has the version of the transaction by then; the mutation and the emitted tasks are what the list functions say. |
| `CloseTree.EmitSideEffectTasks` | temporal/temporal/chasm/tree.go:1766-1778 | The tasks behind the last Created one are handed to the backend, in that order. |
| `CloseTree.FirstPureTask` | temporal/temporal/chasm/tree.go:1780-1792 | The component with the earlier first pure task is remembered. |
| `CloseTree.GeneratePhysicalPureTask` | temporal/temporal/chasm/tree.go:1999-2033 | Only timers strictly before the first pure task are removed; unless it is Created already it is marked, gets its timer, and its node is persisted without being replicated. |
| `CloseTree.UpdateComponentTasks` | temporal/temporal/chasm/tree.go:1695-1804 | The task phase on the tree is the close step of the runs, and every record it changes is in one of the two mutations; every component written in this transaction, or that cleanup takes a task from, takes up exactly the valid ones among the new tasks of its value, and no other component takes up any; if it succeeds every validator has had an answer and no task added was malformed, and then it succeeds if the components have encoded paths. |
| `CloseTree.QuietComponent` | temporal/temporal/chasm/tree.go:1746-1778 | A component neither written nor cleaned up keeps its record, so leaving it out of the mutation loses nothing. |
| `CloseTree.SameContentExactly` | temporal/temporal/chasm/tree.go:1717-1744 | What the task phase leaves of a record: its initial version, data and kind, and its type and detached flag, or its target. |
| `Persistence.WriteComponent` | temporal/temporal/chasm/tree.go:513-547 | A component accessed for writing gets its new value and is to be synchronised; the tree keeps in step with what is persisted. |
| `Persistence.WriteDataNode` | temporal/temporal/chasm/tree.go:549-577 | A data node accessed for writing gets its new value and is to be serialized; the tree keeps in step. |
| `Persistence.Hydrate` | temporal/temporal/chasm/tree.go:1180-1291 | Reading the value of a component, a data node or a pointer keeps the tree in step with what is persisted and leaves it clean. |
| `Persistence.SyncKeepsTx` | temporal/temporal/chasm/tree.go:809-1121 | So does a sync, any number of times in a transaction, also when a position is deleted and created again. |
| `Persistence.SerializeWrites` | temporal/temporal/chasm/tree.go:1655-1693 | After serialization every node is in the mutation or persisted as it is, and no key of a node is among the deletions. |
| `Persistence.MutationCompletes` | temporal/temporal/chasm/tree.go:1466-1473 | Removing DeletedNodes from the persisted records and adding UpdatedNodes gives exactly the keys and records of the tree; the two are disjoint. |
| `Steps.Write` | temporal/temporal/chasm/tree.go:513-547 | A write to a component keeps everything that holds during a transaction, also in an empty tree of which nothing is persisted yet. |
| `Steps.WriteData` | temporal/temporal/chasm/tree.go:549-577 | So does a write to a data node. |
| `Steps.Read` | temporal/temporal/chasm/tree.go:1180-1291 | So does reading the value of a component, a data node or a pointer. |
| `Steps.SyncTree` | temporal/temporal/chasm/tree.go:809-922 | So does a sync of the whole tree, any number of times, and its result is the position-wise one. |
| `Steps.ResolvePointers` | temporal/temporal/chasm/tree.go:1433-1437 | So does resolving pointers, which fails exactly if one cannot be resolved. |
| `Execution.ContentAfterTasks` | temporal/temporal/chasm/tree.go:1655-1804 | Of a record that was serialized, or left alone, the task phase changes nothing but tasks and version; one that is not in the mutation is as it was. |
| `Execution.CloseTransaction` | temporal/temporal/chasm/tree.go:1422-1474 | From a tree in a transaction, a successful close returns a mutation that makes the persisted records exactly those of the tree, with updates and deletions disjoint; under the key of every node changed then stands a record with the new version, its old initial one and, by its kind, the encoded value, type and old detached flag or the path of the pointer, and every other record keeps its content; no changed value was missed by the sync; every component takes up exactly the valid ones of its new tasks; the tasks have made a close step of the runs; the tree is ready for the next transaction. It succeeds if the tree will close (`Closability.WillClose`). |
| `Execution.ChangesArePersisted` | temporal/temporal/chasm/tree.go:743-807 | Whatever is dirty after the sync is persisted so, in terms of the records that the mutation makes of the old ones. |
| `Closability.SettledWillClose` | temporal/temporal/chasm/tree.go:1422-1474 | When there is nothing to synchronise, a tree will close exactly if its nodes have encoded paths and can be serialized once their pointers are resolved, the pointers can, and the validators have answers. |
| `Start.NewExecution` | temporal/temporal/chasm/tree.go:265-285 | A new execution is an empty tree at rest, with nothing persisted. |
| `Start.SetRootComponent` | temporal/temporal/chasm/tree.go:359-369 | On an empty tree it starts the transaction that creates the execution: the tree is that of the component, and nothing is left to synchronise; it succeeds if the collections of empty maps have encoded paths. |
| `Start.CreateExecution` | temporal/temporal/chasm/tree.go:1422-1474 | Creating an execution and closing its first transaction persists exactly its tree, root included; it succeeds if the tree that sync makes of the component can be closed. |
| `Start.SmallestExecution` | temporal/temporal/chasm/tree.go:265-369 | An execution can always be created with a component without fields and tasks. |
| `Load.NewTreeFromDB` | temporal/temporal/chasm/tree.go:233-263 | Loading succeeds exactly if all keys decode; the tree has the records at their positions, or an empty root if there are none. |
| `Load.LoadedOutcome` | temporal/temporal/chasm/tree.go:248-255 | The loaded tree does not depend on the order of the records; positions without record above one are empty nodes. |
| `Load.LoadRoundTrip` | temporal/temporal/chasm/tree.go:233-263 | Loading what is persisted for a tree gives the same positions, records and keys. |
| `Load.ReloadBetweenTransactions` | temporal/temporal/chasm/tree.go:233-285 | Between two transactions a process may lose its memory: the tree loaded from what was persisted, be it nothing, is the same, and all invariants hold for it. |
| `Load.RestingIsDecodable` | temporal/temporal/chasm/tree.go:233-263 | What is persisted for a tree at rest can always be loaded. |
| `Refresh.RefreshTasks` | temporal/temporal/chasm/tree.go:2354-2376 | Exactly the components with a Created task are reset and entered into the system mutation under their keys; it succeeds if all nodes have encoded paths. |
| `Refresh.RefreshedExactly` | temporal/temporal/chasm/tree.go:2378-2402 | A component is reset exactly if one of its tasks, of either kind, is Created: then all of both lists lose their status, and nothing else of it changes. |
| `Refresh.RefreshIsStep` | temporal/temporal/chasm/tree.go:2354-2376 | On the task lists this is the refresh step of the runs. |
| `Settled.CloseSettled` | temporal/temporal/chasm/tree.go:1422-1474 | Closing a transaction in which no value was changed, with whatever replication or a refresh has put into the two mutations: the persisted records become those of the tree, every record keeps its version, content and key, and the tasks have made a close step; without new tasks and pointers to resolve it succeeds if the components have encoded paths. |
| `Regeneration.RefreshAndClose` | temporal/temporal/chasm/tree.go:1422-1474 | RefreshTasks and the close after it: all records changed are persisted, the tree is at rest, and every side-effect task of the tree has been emitted exactly once since the refresh; it succeeds if all nodes have encoded paths. |
| `Regeneration.EmittedAtRest` | temporal/temporal/chasm/tree.go:2354-2402 | At rest every side-effect task has been emitted exactly once since the last refresh. |
| `ReplicationApply.Snapshot` | temporal/temporal/chasm/tree.go:2142-2182 | The records newer than the bound, each under its key, and nothing else; the tree only gains cached keys. |
| `ReplicationApply.SnapshotExactly` | temporal/temporal/chasm/tree.go:2142-2182 | A record is in it under a key exactly if a node with that key has it, and its version is later than the bound by failover version and then count. |
| `ReplicationApply.ApplyDeletions` | temporal/temporal/chasm/tree.go:2275-2300 | In any order: exactly the nodes with no deleted path at or above them, and the root, remain, the keys and payloads of all others are recorded and evicted. |
| `ReplicationApply.ApplyUpdates` | temporal/temporal/chasm/tree.go:2302-2352 | The loop over the updates gives the tree, the mutation entries and the cached payloads that the functions give for the order it takes, and fails exactly if a key does not decode. |
| `ReplicationApply.CarryOver` | temporal/temporal/chasm/tree.go:2327-2341 | The incoming record takes over the statuses of the local one if both are components, and exactly the unmatched payloads are evicted. |
| `ReplicationApply.ComputeMutation` | temporal/temporal/chasm/tree.go:2241-2272 | The two loops find exactly the keys to delete, those not in the snapshot, and the records that are new or of another version, as they are in the snapshot. |
| `ReplicationApply.ApplyMutation` | temporal/temporal/chasm/tree.go:2189-2239 | Deletions first, then updates, then the root component is read; if all keys decode and encode it fails exactly if the root cannot be read. |
| `ReplicationApply.ReadRoot` | temporal/temporal/chasm/tree.go:2216-2236 | The root component is deserialized if it was not, and nothing else changes; it fails exactly if its record is none of a component or has no value. |
| `ReplicationApply.ApplySnapshot` | temporal/temporal/chasm/tree.go:2241-2273 | The composition, on the tree itself, with the entries that it leaves in the mutation of the standby; on decodable records it fails exactly if the root cannot be read. |
| `Replication.DeletionStep` | temporal/temporal/chasm/tree.go:2275-2300 | Deleting one more path of a set commutes with the ones already deleted. |
| `Replication.OrderDoesNotMatter` | temporal/temporal/chasm/tree.go:2302-2352 | Two orders of the same updates give the same positions, values, states and records, task statuses and payload identities aside. |
| `Replication.StripsAlike` | temporal/temporal/chasm/tree.go:2302-2352 | What is left aside there: records agree so exactly if versions, data and attributes are equal and their tasks differ in nothing but status and payload. |
| `Replication.PlaceholdersOnlyInGaps` | temporal/temporal/chasm/tree.go:2302-2352 | No empty node is left exactly if nodes and updates together have no gap. |
| `Convergence.SnapshotConverges` | temporal/temporal/chasm/tree.go:2241-2352 | After ApplySnapshot the positions and versions are those of the snapshot exactly if it deletes nothing at or above a record it takes to be up to date. |
| `Convergence.SnapshotConvergesOnSameKeys` | temporal/temporal/chasm/tree.go:2241-2352 | So it always does when no position has different keys in the two clusters, and where a version determines a record it reproduces the records. |
| `Convergence.OrphanExample` | temporal/temporal/chasm/tree.go:2241-2352 | Two whole trees with the keys of the encoder for which it does not: a collection has become a component, and the unchanged child of its item is lost in every order. |
| `Convergence.RecordsReproduced` | temporal/temporal/chasm/tree.go:2241-2352 | Where nothing is lost and a version determines a record, the records are reproduced. |
| `Convergence.SecondSnapshotIsEmpty` | temporal/temporal/chasm/tree.go:2241-2273 | Where the incoming keys are the encoder's and a version determines a record, applying the same snapshot again computes an empty mutation exactly if the first application lost nothing; between a source and its standby both hold (`Source.CatchesUp`). |
| `Transitions.SyncKeepsTrack` | temporal/temporal/chasm/tree.go:809-1121 | What holds since the start of a transaction holds after a sync: cached keys are the encoder's, a node not to be written has its old record, and its key and those of all nodes above it are the old ones; where something was deleted there are only nodes to be written. |
| `Transitions.TransactionKeepsTrack` | temporal/temporal/chasm/tree.go:513-1121 | So it does after any number of reads, writes and syncs. |
| `Source.TxDescends` | temporal/temporal/chasm/tree.go:1422-1474 | After a transaction a node with an older version has its old record, statuses of tasks aside, under its old key, and all nodes above it are under theirs. |
| `Source.TxKeepsSource` | temporal/temporal/chasm/tree.go:1422-1474 | A transaction leaves a tree whose nodes are all written, none with a later version than its own, under the keys of the encoder. |
| `Source.HistoryKeepsSource` | temporal/temporal/chasm/tree.go:1422-1474 | So does any number of transactions. |
| `Source.HistoryDescends` | temporal/temporal/chasm/tree.go:1422-1474 | And any later state descends from any earlier one: what has an old version has not changed since. |
| `Recording.StartsRecorded` | temporal/temporal/chasm/tree.go:1422-1474 | What a close leaves, or the loading of a tree, is where the next transaction starts. |
| `Recording.RecordWrite` | temporal/temporal/chasm/tree.go:513-547 | A write to a component is a step of a transaction in that sense, and leaves its value in the tree, to be synchronised. |
| `Recording.RecordWriteData` | temporal/temporal/chasm/tree.go:549-577 | So is a write to a data node, which is then to be serialized. |
| `Recording.RecordRead` | temporal/temporal/chasm/tree.go:1180-1291 | So is the reading of a value. |
| `Recording.RecordSync` | temporal/temporal/chasm/tree.go:809-922 | So is a sync of the whole tree, with its position-wise result. |
| `Recording.CloseRecorded` | temporal/temporal/chasm/tree.go:1422-1474 | A close ends such a transaction: the steps recorded, the last sync, the pointers resolved and the mutation returned lead from the tree at its start to the tree left; it succeeds if the tree will close. |
| `Recording.CloseSource` | temporal/temporal/chasm/tree.go:1422-1474 | So every close adds a state to the history of the source, with the mutation returned. |
| `Recording.CreateSource` | temporal/temporal/chasm/tree.go:287-369 | Creating an execution and closing its first transaction starts a history: all nodes are written, under the keys of the encoder; it succeeds if the tree of its component can be closed. |
| `Source.SnapshotOfSource` | temporal/temporal/chasm/tree.go:2142-2182 | The snapshot of such a tree is that of a whole tree, with the keys of the encoder. |
| `Source.SourceSendsNoOrphan` | temporal/temporal/chasm/tree.go:2241-2352 | A source whose tree has come from an earlier state by such transactions never sends a standby that holds that state a record that would be lost. |
| `Source.StandbyCatchesUp` | temporal/temporal/chasm/tree.go:2241-2352 | From any earlier state of its source, after any number of transactions, a snapshot brings a standby to the present positions, records and keys, statuses of tasks aside; a second application finds nothing. |
| `Source.StandbyStarts` | temporal/temporal/chasm/tree.go:2241-2352 | A new standby has an empty tree; the first snapshot, of any state of the source, makes it hold that state. |
| `Following.TxBrings` | temporal/temporal/chasm/tree.go:1422-1474 | The mutation of a transaction says all that a standby needs: what it neither updates nor deletes is as it was, and whatever it does not delete has kept its key. |
| `Following.StandbyFollows` | temporal/temporal/chasm/tree.go:2189-2199 | A standby that holds the state before a transaction is brought to the state after it by the mutation which that close returned, in any order of its updates. |
| `Following.ReplayHolds` | temporal/temporal/chasm/tree.go:2189-2199 | Applying the mutations of a history one after the other, it holds every state in turn. |
| `Following.FollowMutation` | temporal/temporal/chasm/tree.go:2189-2239 | On the tree, ApplyMutation then fails exactly if the root component cannot be read. |
| `StandbyMutations.MutationWritten` | temporal/temporal/chasm/tree.go:2189-2199 | After it every node is in the mutation of the standby or persisted as it is, and the records of all nodes that are gone are deleted. |
| `StandbyMutations.ReceiveMutation` | temporal/temporal/chasm/tree.go:1422-1474 | ApplyMutation and CloseTransaction on a standby at rest that holds the state before a transaction: it holds the state after it, also when its own close has been through, and its own mutation has brought its records to those of its tree; it is at rest if the tasks that have arrived keep the invariant of the runs; without new tasks it succeeds if the root can be read and the components have encoded paths. |
| `ReplicationStatus.ExactRecord` | temporal/temporal/chasm/tree.go:2302-2352 | The exact record of every updated position in every order: carried over where a node exists, reset where it is new, and taken over as sent where an empty node stands. |
| `CarryingOver.ArrivesExactly` | temporal/temporal/chasm/tree.go:2302-2402 | Spelled out task by task, for every order: a record of the same version is left alone; between components each incoming task has the status and payload of the local task with its key, or no physical task if there is none; a new node has its statuses reset, or, over an empty node, those it was sent with; nothing else of what was sent changes. |
| `CarryingOver.EvictedAllExactly` | temporal/temporal/chasm/tree.go:2327-2341 | In every order exactly the payloads of local tasks leave the cache that have no counterpart in a record that replaces theirs. |
| `ReplicationStatus.RecordedExactly` | temporal/temporal/chasm/tree.go:2302-2352 | The mutation of the standby holds exactly the updates that change something, in every order. |
| `ReplicationStatus.StatusesResetInEveryOrder` | temporal/temporal/chasm/tree.go:2313-2346 | Over all updated positions and in every order, a task is Created afterwards only if the local one with its key was, exactly if no update with a Created task is for a new node with an update strictly below it, or makes a component of a node that is none. |
| `ReplicationStatus.ChildFirstLeaks` | temporal/temporal/chasm/tree.go:2320-2346 | Two updates for which the order decides: child first, the component keeps the statuses of the source cluster. |
| `ReplicationRuns.SnapshotIsReplicate` | temporal/temporal/chasm/tree.go:2241-2402 | Applying a snapshot that orphans nothing to the tree is the replication step of the runs on its task lists, exactly if the order in which the updates are taken leaks nothing: none with a Created task is for a new node and taken after one below it, and none makes a component of a node that is none. |
| `ReplicationRuns.ParentsFirstLeaksNothing` | temporal/temporal/chasm/tree.go:2302-2352 | An order with parents first leaks nothing if no update makes a component of a node that is none; and no order does if no update is exposed. |
| `ReplicationRuns.PointerBecomesComponent` | temporal/temporal/chasm/tree.go:2302-2352 | Where it does, statuses leak in every order: a pointer of the standby is overwritten by a component, whose Created task then never gets a physical task here, even with parents first. |
| `ReplicationRuns.SnapshotKeepsInv` | temporal/temporal/chasm/tree.go:2241-2402 | In such an order the standby keeps the invariant of all runs. |
| `Standby.SnapshotWritten` | temporal/temporal/chasm/tree.go:2241-2352 | After ApplySnapshot on a standby at rest every node is in the mutation or persisted as it is, and the records of all nodes that are gone are deleted; positions may have changed their keys, as long as nothing is orphaned. |
| `Standby.ApartUnlessRecreated` | temporal/temporal/chasm/tree.go:2184-2199 | The mutation of the standby names a key both as updated and as deleted exactly if a node is deleted with one above it and created again under its own key, against what the comment on ApplyMutation demands of a mutation. |
| `Standby.OverlapExample` | temporal/temporal/chasm/tree.go:2184-2199 | Two trees with the keys of the encoder for which it does. |
| `Standby.ReceiveSnapshot` | temporal/temporal/chasm/tree.go:2241-2352 | ApplySnapshot and CloseTransaction on a standby at rest, in any order of the updates: its mutation brings its own records to those of its tree, which has the positions, the versions and the content of the snapshot, and is disjoint if nothing is created again; if the order leaks nothing, the tasks have made a replication and a close step, and it is at rest again; without new tasks it succeeds if in every order the root can be read and the components have encoded paths. |
| `PureTasks.Truncated` | temporal/temporal/chasm/tree.go:2593-2594 | Times are truncated down to milliseconds. |
| `PureTasks.ExpiredIsDue` | temporal/temporal/chasm/tree.go:2585-2601 | A task is due exactly if it has a scheduled time before the end of the millisecond of the reference; so every task scheduled no later than the reference is. |
| `PureTasks.StoppingEarlyLosesNothing` | temporal/temporal/chasm/tree.go:2585-2601 | On a list sorted by time the tasks in front of the first that is not due are all that are due, exactly if no task without scheduled time stands before one that is due. |
| `PureTasks.GatherDue` | temporal/temporal/chasm/tree.go:2613-2638 | Exactly the components whose first pure task is due are gathered, each once. |
| `PureTasks.RunComponent` | temporal/temporal/chasm/tree.go:2648-2687 | The tasks of a component are called in order until one is not due or the component has been removed. |
| `PureTasks.EachPureTask` | temporal/temporal/chasm/tree.go:2603-2693 | No task is called twice or before an earlier one of its component, none that is not due, none of a component removed by an earlier call; every due task in front of its list is called unless its component has been removed; if none is and no list has an untimed task in front of a due one, exactly the due tasks are called, those with a scheduled time before the end of the reference's millisecond; it fails exactly if a call fails. |
| `PureTasks.ExactlyTheDueTasks` | temporal/temporal/chasm/tree.go:2603-2693 | If no call removes a component, exactly the tasks of the tree with a scheduled time before the end of the reference's millisecond are called, each once. |
| `PureTasks.OnlyRemovedAreLeftOut` | temporal/temporal/chasm/tree.go:2640-2664 | In general only tasks of removed components are left out. |
| `Scheduling.TimedInRun` | temporal/temporal/chasm/tree.go:1940-1956 | In every state of every run all pure tasks have a scheduled time, if those replicated have, so the early exit never loses a due one. |
| `Visibility.VisibilityComponent.constructor` | temporal/temporal/chasm/visibility.go:140-151 | A new component has count one and one task. |
| `Visibility.VisibilityComponent.GenerateTask` | temporal/temporal/chasm/visibility.go:322-331 | The count goes up by one, and an immediate side-effect task whose payload is the new count is added. |
| `Visibility.OnlyLastAppended` | temporal/temporal/chasm/visibility.go:322-344 | Of any number of tasks generated in a transaction at most the last is found valid. |
| `Visibility.OneLiveAfterClose` | temporal/temporal/chasm/visibility.go:322-344 | After a close with any number of generateTask calls there is at most one logical task, the one with the current count, and at most one to emit; exactly one if a call was made and its task is valid. |
| `Visibility.OneLiveInClose` | temporal/temporal/chasm/visibility.go:322-344 | The same within the close of a whole tree, counting the emissions for this component. |
| `Visibility.OneLiveInRun` | temporal/temporal/chasm/visibility.go:322-344 | And in every state of every run of the active cluster after its creation. |
| `MovingAverage.MovingWindowAvg.constructor` | temporal/temporal/common/aggregate/moving_window_average.go:31-40 | An empty buffer with an empty history. |
| `MovingAverage.MovingWindowAvg.Record` | temporal/temporal/common/aggregate/moving_window_average.go:42-58 | The sample joins the history; the oldest leaves exactly when maxBufferSize - 1 are held. |
| `MovingAverage.MovingWindowAvg.ExpireOldValues` | temporal/temporal/common/aggregate/moving_window_average.go:71-79 | Afterwards the oldest sample left is young enough at the last reading of the clock; the history is kept. |
| `MovingAverage.MovingWindowAvg.Average` | temporal/temporal/common/aggregate/moving_window_average.go:60-79 | Exactly those of the last maxBufferSize - 1 samples are left whose age is below the window at the last reading of the clock, and the average is the quotient of the 64-bit sum of their values and their number, or zero if there is none; the sum is exact whenever it fits, whatever has wrapped around before. |
| `MovingAverage.HeldAfterRecord` | temporal/temporal/common/aggregate/moving_window_average.go:46-57 | The 64-bit sum and the count describe the circular segment after every Record, full buffer or not. |
| `MovingAverage.HeldAfterDrop` | temporal/temporal/common/aggregate/moving_window_average.go:71-79 | And after a value has been expired. |
| `MovingAverage.TracksRecent` | temporal/temporal/common/aggregate/moving_window_average.go:71-79 | A sample is left exactly if it is one of the last maxBufferSize - 1 and younger than the window. |
| `MovingAverage.SumAdds` | temporal/temporal/common/aggregate/moving_window_average.go:46-57 | The sum is that of the values: nothing for no sample, the value for one, and additive. |
| `LoadBalancer.TaskQueueLoadBalancer.EnsurePartitionCount` | temporal/temporal/client/matching/loadbalancer.go:186-200 | New partitions start at zero, the counts of removed ones are forgotten, the others stay. |
| `LoadBalancer.TaskQueueLoadBalancer.PickWithFewestPolls` | temporal/temporal/client/matching/loadbalancer.go:169-183 | For any random start, and despite the exit at zero, the partition picked has a least counter, and is the first such in the circular order from the start. |
| `LoadBalancer.TaskQueueLoadBalancer.PickReadPartition` | temporal/temporal/client/matching/loadbalancer.go:139-152 | A least counter is increased by one and no other changes; counters stay between zero and the tokens that are out, and exact if no partition was ever removed. |
| `LoadBalancer.TaskQueueLoadBalancer.ForceReadPartition` | temporal/temporal/client/matching/loadbalancer.go:154-166 | The forced partition exists afterwards and is counted; the same invariant. |
| `LoadBalancer.TaskQueueLoadBalancer.Release` | temporal/temporal/client/matching/loadbalancer.go:202-209 | The counter goes down unless it is gone or zero; the same invariant. |
| `LoadBalancer.ResizeKeepsExact` | temporal/temporal/client/matching/loadbalancer.go:186-200 | A change of the partition count keeps the counters exact exactly if no partition it removes has a poller. |
| `LoadBalancer.PickKeepsBalance` | temporal/temporal/client/matching/loadbalancer.go:139-183 | Increasing a least counter keeps all counters within one of each other. |
| `LoadBalancer.PicksSpreadEvenly` | temporal/temporal/client/matching/loadbalancer.go:139-183 | After any picks with a fixed partition count and no releases counters differ by at most one and add up to the number of picks. |
| `LoadBalancer.EachHasItsShare` | temporal/temporal/client/matching/loadbalancer.go:139-183 | So, n picks over m partitions, each partition has between n/m rounded down and n/m rounded up of them. |
| `ShardMapping.HistoryShard` | temporal/temporal/common/util.go:386-396 | The shard lies between 1 and the shard count, and one less than it is congruent to the hash modulo the count. |
| `ShardMapping.MapShardID` | temporal/temporal/common/util.go:398-432 | The array holds the mapped shards; the panic happens exactly if neither count divides the other. |
| `ShardMapping.VerifyShardIDMapping` | temporal/temporal/common/util.go:434-457 | It accepts exactly the pairs in range that MapShardID relates. |
| `ShardMapping.MappedExactly` | temporal/temporal/common/util.go:398-432 | A target shard belongs to a source shard exactly if both agree modulo the smaller count. |
| `ShardMapping.HashingCommutes` | temporal/temporal/common/util.go:386-432 | For every 32-bit hash the shard in the target cluster is among those its source shard is mapped to. |
| `ShardMapping.MappingSymmetric` | temporal/temporal/common/util.go:398-432 | Membership is symmetric under swapping the sides. |
| `ShardMapping.MappingCovers` | temporal/temporal/common/util.go:398-432 | Every target shard is reached, and by one source shard only if there are no more source than target shards. |
| `ShardMapping.MappedDistinct` | temporal/temporal/common/util.go:406-421 | The shards of one source shard are in range and given in ascending order. |
| `Redirector.CachingRedirector.LookIn` | temporal/temporal/client/history/caching_redirector.go:124-134 | Under the read lock: the cached entry unless it has expired; the cache is not changed. |
| `Redirector.CachingRedirector.Refill` | temporal/temporal/client/history/caching_redirector.go:136-153 | Under the write lock: the usable entry, which stays; else the address that the lookup gives, without expiry, in place of the expired one; or none, with the expired one gone, if the lookup fails. |
| `Redirector.CachingRedirector.CacheAdd` | temporal/temporal/client/history/caching_redirector.go:156-180 | The entry of the shard is the address given, without expiry; no other changes. |
| `Redirector.CachingRedirector.CacheDeleteByAddress` | temporal/temporal/client/history/caching_redirector.go:183-191 | Exactly the entries of the host go. |
| `Redirector.CachingRedirector.HandleSolError` | temporal/temporal/client/history/caching_redirector.go:194-214 | The entry of the old owner goes; a hint to another owner is cached and returned. |
| `Redirector.CachingRedirector.StaleCheck` | temporal/temporal/client/history/caching_redirector.go:244-266 | Expired entries go, entries that disagree with membership get their expiry once, all others stay. |
| `Redirector.CheckSetsDeadline` | temporal/temporal/client/history/caching_redirector.go:257-264 | A check that sees the cached owner disagree sets the deadline. |
| `Redirector.StepKeepsDeadline` | temporal/temporal/client/history/caching_redirector.go:124-266 | No step of any kind postpones it. |
| `Redirector.BoundedStaleness` | temporal/temporal/client/history/caching_redirector.go:124-266 | In every interleaving: once the TTL has passed since such a check, the address that getOrCreateEntry returns for the shard is one that a later step gave for it, as the answer of its lookup or as the hint of the owner that lost it. |

## Left out

- Parent and child links between node objects: a node is addressed by its position, so node identity across a deletion and re-creation, and aliasing of nodes, are not captured. An entry of the mutation stands for the record that its node has when the mutation is returned, as the shared record does in the code; an entry for a node that is deleted later in the same transaction is not modelled.
- Reflection over component structs and protobuf encoding: of a component value only the fields that hold children are modelled, and encoded payloads are opaque. That a component type has exactly one data field, without which serializeComponentNode would leave its state alone, is assumed.
- Reading values inside the task phase of a close (prepareComponentValue before cleanup) and access rules: validators answer for a component whether or not its value was read before.
- executeImmediatePureTasks: the tasks it runs may add further ones, so it need not end.
- Root lifecycle changes, search attributes, memo, and the forced visibility update at close; a forced update is one more generateTask call in `Visibility`.
- The physical task's other fields (workflow key, category, versions of the component) and the path slice handed to it, which the code shares between tasks: an emission is a position and a logical task.
- A transaction that mixes changes of values with RefreshTasks, or with replication: each is modelled from a tree at rest to its close.
- Source.HistoryKeepsSource: the steps of a history are transactions of the active cluster; a refresh of tasks between them, which changes statuses alone, is not one.
- StandbyMutations.ReceiveMutation: that the tasks which arrive by a mutation keep the invariant of the runs is proved for snapshots (`ReplicationRuns.SnapshotKeepsInv`) and a hypothesis here; their statuses are described by `ReplicationStatus`.
- Replacement.ReplaceChild: leaves the values that were replaced in the index, as the code does, so it is not a step of the methods that keep the index exact; what it does to a transaction up to its close is in the lemmas of `Replacement`.
- What ApplyMutation keeps of the root component that it reads: its search attributes and its memo.
- Errors of the encoder in the middle of a sync or a deletion: the transaction is abandoned, and nothing is said of the tree then.
- deserializeTask, the contents of the task value cache during validation, terminate, references, archetypes, Nexus, logging and metrics.
- SyncApply.SyncSubComponents: says that it succeeds if every node below and every collection of an empty map has an encoded path, which is more than it needs: it fails only where that is so of something it deletes. What it leaves when it fails is not described.
- PureTasks.EachPureTask: components are told apart by position, as the index does while they stay attached; what a callback does to the tree is an arbitrary set of components that are gone afterwards.
- MovingAverage.MovingWindowAvg.Average: the quotient is an arbitrary function of sum and count, so nothing is said of its rounding.
- Write partitions, test hooks, namespace lookup and the map of balancers; the hash function; connections, the event loop and redirect loops of the redirector: parameters, or one branch each.
- Clients, factories, retry and metric wrappers, process wiring, the state machine, registry and engine: plumbing, or easy members only.
