/** Closing a transaction in which no value was changed (chasm/tree.go): after replication, or
    after a refresh of the tasks. */
module Settled {
  import opened Basics
  import opened PathEncoder
  import opened Tasks
  import opened ChasmTree
  import opened Transaction
  import opened CloseTasks
  import opened CloseTree
  import opened Sync
  import opened SyncApply
  import SyncFacts
  import opened Runs
  import opened Persistence
  import opened Pointers
  import opened Steps
  import opened Execution

  /** Nothing is left for a close to do but the tasks. */
  ghost predicate Settling(nodes: Nodes, updated: map<string, Path>, system: map<string, Path>, deleted: set<string>,
                           records: Records, next: VersionedTransition) {
    && Written(nodes, updated + system, deleted, records) && WrittenOrQuiet(nodes, updated, system, next) &&
       LastUpdatesUpTo(nodes, next)
    && CachedKeysDecode(nodes)
  }

  lemma SettlingIsIdle(nodes: Nodes, entries: map<string, Path>, deleted: set<string>, records: Records)
    requires Written(nodes, entries, deleted, records)
    ensures NodesOk(nodes, []) && Idle(nodes, []) && SyncFacts.NothingToSync(nodes)
  {
    forall q | q in nodes
      ensures Clean(nodes[q])
    {
      assert WrittenAt(nodes, entries, deleted, records, q);
    }
  }

  /** The sync of a close finds nothing to do on a tree without changed values. */
  method SyncSettled(t: Tree, next: VersionedTransition, ghost records: Records, ghost home: map<nat, Path>)
    returns (ok: bool)
    requires t.Valid() && Settling(t.nodes, t.updatedNodes, t.systemUpdatedNodes, t.deletedNodes, records, next) &&
             AllAtHome(t.nodes, home)
    modifies t`nodes, t`valueToNode, t`deletedNodes, t`taskValueCache, t`isActiveStateDirty, t`needsPointerResolution
    ensures ok && t.Valid() && t.nodes == old(t.nodes) && t.isActiveStateDirty == old(t.isActiveStateDirty)
    ensures t.deletedNodes == old(t.deletedNodes) && t.needsPointerResolution == old(t.needsPointerResolution)
    ensures Settling(t.nodes, t.updatedNodes, t.systemUpdatedNodes, t.deletedNodes, records, next)
  {
    ghost var before := t.nodes;
    ghost var rank := SyncFacts.RankExists(t.nodes);
    SettlingIsIdle(t.nodes, t.updatedNodes + t.systemUpdatedNodes, t.deletedNodes, records);
    ok := SyncSubComponents(t, [], next, rank, home);
    SyncFacts.IdleSync(before, t.nodes, next);
  }

  lemma ResolvingSettles(start: Nodes, index: map<nat, Path>, nodes: Nodes, updated: map<string, Path>,
                         system: map<string, Path>, deleted: set<string>, records: Records, next: VersionedTransition)
    requires ResolvedSoFar(start, index, start.Keys, nodes) && Settling(start, updated, system, deleted, records, next)
    ensures Settling(nodes, updated, system, deleted, records, next) && CompsOf(nodes) == CompsOf(start)
    ensures forall q | q in nodes ::
              q in start && nodes[q].serialized == start[q].serialized && Key(nodes, q) == Key(start, q)
  {
    ResolvedKinds(start, index, start.Keys, nodes);
    ResolvingKeepsKeys(start, index, start.Keys, nodes);
    SameRecordsWritten(start, nodes, updated + system, deleted, records);
    SameRecordsSameTasks(start, nodes, next);
    forall q | q in nodes
      ensures WrittenOrQuietAt(nodes, updated, system, next, q)
    {
      assert WrittenOrQuietAt(start, updated, system, next, q);
    }
  }

  lemma SameRecordsWritten(start: Nodes, nodes: Nodes, updated: map<string, Path>, deleted: set<string>,
                           records: Records)
    requires Written(start, updated, deleted, records) && SameRecords(start, nodes)
    ensures Written(nodes, updated, deleted, records)
  {
    forall q | q in nodes
      ensures WrittenAt(nodes, updated, deleted, records, q)
    {
      assert WrittenAt(start, updated, deleted, records, q);
    }
  }

  method ResolveSettled(t: Tree, ghost records: Records, ghost next: VersionedTransition) returns (ok: bool)
    requires t.Valid() && Settling(t.nodes, t.updatedNodes, t.systemUpdatedNodes, t.deletedNodes, records, next)
    modifies t`nodes
    ensures ok ==> t.Valid() && t.nodes.Keys == old(t.nodes).Keys && CompsOf(t.nodes) == CompsOf(old(t.nodes))
    ensures ok ==> forall q | q in t.nodes ::
                     t.nodes[q].serialized == old(t.nodes)[q].serialized && Key(t.nodes, q) == Key(old(t.nodes), q)
    ensures !t.needsPointerResolution ==> ok && t.nodes == old(t.nodes)
    ensures ok ==> Settling(t.nodes, t.updatedNodes, t.systemUpdatedNodes, t.deletedNodes, records, next)
  {
    ok := true;
    if t.needsPointerResolution {
      ghost var start := t.nodes;
      ok := ResolveDeferredPointers(t);
      if ok {
        ResolvingSettles(start, t.valueToNode, t.nodes, t.updatedNodes, t.systemUpdatedNodes, t.deletedNodes,
                         records, next);
      }
    }
  }

  lemma NothingToSerialize(start: Nodes, next: VersionedTransition, codec: Codec, nodes: Nodes,
                           updated: map<string, Path>, updated': map<string, Path>)
    requires forall q | q in start :: Clean(start[q])
    requires SerializedSoFar(start, start.Keys, next, codec, nodes) &&
             DirtyEntries(start, start.Keys, updated, updated')
    ensures nodes == start && updated' == updated && DirtyKeys(start, start.Keys) == {}
  {
    assert DirtyKeys(start, start.Keys) == {};
    SameMap(nodes, start);
    SameMap(updated', updated);
  }

  method SerializeSettled(t: Tree, next: VersionedTransition, codec: Codec, ghost records: Records) returns (ok: bool)
    requires t.Valid() && Settling(t.nodes, t.updatedNodes, t.systemUpdatedNodes, t.deletedNodes, records, next)
    modifies t`nodes, t`updatedNodes, t`deletedNodes
    ensures ok
    ensures ok ==> t.Valid() && t.nodes == old(t.nodes)
    ensures ok ==> t.updatedNodes == old(t.updatedNodes) && t.deletedNodes == old(t.deletedNodes)
    ensures ok ==>
            ReadyForTasks(t.nodes, t.nodes, t.updatedNodes, t.systemUpdatedNodes, t.deletedNodes, records, false, next)
  {
    ghost var start, updated := t.nodes, t.updatedNodes;
    assert forall q | q in start :: WrittenAt(start, updated + t.systemUpdatedNodes, t.deletedNodes, records, q);
    ok := SerializeNodes(t, next, codec);
    if ok {
      NothingToSerialize(start, next, codec, t.nodes, updated, t.updatedNodes);
    }
  }

  /** The records of the tree keep their version and their content, and their keys. */
  ghost predicate RecordsKept(before: Nodes, after: Nodes, next: VersionedTransition) {
    && after.Keys == before.Keys
    && forall q | q in before ::
         before[q].serialized.Some? && after[q].serialized.Some? && Key(after, q) == Key(before, q) &&
         ContentKept(before[q], after[q], Stamp(next, false))
  }

  /** Up to the task phase. */
  method SettleForTasks(t: Tree, next: VersionedTransition, codec: Codec, ghost records: Records,
                        ghost home: map<nat, Path>) returns (ok: bool)
    requires t.Valid() && AllAtHome(t.nodes, home) &&
             Settling(t.nodes, t.updatedNodes, t.systemUpdatedNodes, t.deletedNodes, records, next)
    modifies t`nodes, t`valueToNode, t`updatedNodes, t`deletedNodes, t`taskValueCache, t`isActiveStateDirty,
             t`needsPointerResolution
    ensures !old(t.needsPointerResolution) ==> ok && t.nodes == old(t.nodes)
    ensures ok ==> t.Valid() && t.nodes.Keys == old(t.nodes).Keys && CompsOf(t.nodes) == CompsOf(old(t.nodes))
    ensures ok ==> forall q | q in t.nodes ::
                     t.nodes[q].serialized == old(t.nodes)[q].serialized && Key(t.nodes, q) == Key(old(t.nodes), q)
    ensures ok ==>
            ReadyForTasks(t.nodes, t.nodes, t.updatedNodes, t.systemUpdatedNodes, t.deletedNodes, records, false, next)
    ensures t.isActiveStateDirty == old(t.isActiveStateDirty)
    ensures ok ==> t.updatedNodes == old(t.updatedNodes) && t.deletedNodes == old(t.deletedNodes)
  {
    ok := SyncSettled(t, next, records, home);
    if ok {
      ok := ResolveSettled(t, records, next);
    }
    if ok {
      ok := SerializeSettled(t, next, codec, records);
    }
  }

  /** What is persisted of the tree is the tree, whatever its tasks. */
  ghost predicate Persisted(t: Tree, image: Records)
    reads t
  {
    && t.Valid() && FullImage(t.nodes, image) && TxInv(t.nodes, {}, image)
    && t.updatedNodes == map[] && t.deletedNodes == {} && t.systemUpdatedNodes == map[] && !t.isActiveStateDirty
    && !t.needsPointerResolution
    && forall q | q in t.nodes :: Clean(t.nodes[q])
  }

  /** The tree is at rest, its earliest pure task is marked, and at most one timer is new. */
  ghost predicate RestsAfter(t: Tree, backend: Backend, image: Records, last: VersionedTransition, timers: set<Time>)
    reads t, backend
  {
    Resting(t, backend, image, last) && EarliestCreated(CompsOf(t.nodes)) && |backend.timers - timers| <= 1
  }

  /** What the task phase has made of a tree on a standby, or on one without changes. */
  ghost predicate TasksClosed(written: Nodes, entries: map<string, Path>, deleted: set<string>, synced: Cluster,
                              mutation: Mutation, visited: seq<Path>, input: CloseInput, dropped: set<Time>,
                              nodes: Nodes, after: Cluster, next: VersionedTransition)
  {
    && !input.active && input.next == next && OnlyTasksChanged(written, entries, mutation, nodes, input.Mark())
    && (Apart(entries, deleted) ==> mutation.updated.Keys !! mutation.deleted)
    && CloseStep(synced, visited, input, dropped, after)
  }

  /** The end of a close; what it leaves at rest depends on the tasks it has started from. */
  method FinishSettled(t: Tree, backend: Backend, ghost synced: Cluster, ghost visited: seq<Path>,
                       ghost input: CloseInput, ghost dropped: set<Time>, ghost written: Nodes, ghost image: Records,
                       ghost mutation: Mutation, ghost next: VersionedTransition, ghost entries: map<string, Path>,
                       ghost deleted: set<string>)
    requires t.Valid() && CompareVT(ZERO_VT, synced.last) <= 0 && CompareVT(synced.last, next) < 0
    requires Closed(written, image, mutation, t.nodes, next)
    requires TasksClosed(written, entries, deleted, synced, mutation, visited, input, dropped, t.nodes,
                         ClusterOf(t.nodes, backend.timers, backend.emitted, next), next)
    modifies t`updatedNodes, t`deletedNodes, t`systemUpdatedNodes, t`isActiveStateDirty, t`needsPointerResolution
    ensures Persisted(t, mutation.Apply(image))
    ensures Inv(synced) ==> RestsAfter(t, backend, mutation.Apply(image), next, synced.timers)
    ensures TasksClosed(written, entries, deleted, synced, mutation, visited, input, dropped, t.nodes,
                        ClusterOf(t.nodes, backend.timers, backend.emitted, next), next)
  {
    FreshTransaction(t.nodes, mutation.Apply(image));
    if Inv(synced) {
      AtRestAfterClose(synced, visited, input, dropped, written, image, mutation, t.nodes, backend.timers,
                       backend.emitted, next);
    }
    CleanupTransaction(t);
  }

  lemma TasksKeepRecords(written: Nodes, entries: map<string, Path>, mutation: Mutation, nodes: Nodes, stamp: Stamp)
    requires OnlyTasksChanged(written, entries, mutation, nodes, stamp) && !stamp.cleansUp
    ensures RecordsKept(written, nodes, stamp.next)
  {
  }

  method CloseTasksSettled(t: Tree, backend: Backend, next: VersionedTransition, validators: Validators,
                           newTasks: map<nat, seq<NewTask>>, chooses: Time -> bool, ghost image: Records,
                           ghost synced: Cluster)
    returns (ok: bool, mutation: Mutation, ghost visited: seq<Path>, ghost input: CloseInput, ghost dropped: set<Time>)
    requires t.Valid() && !t.isActiveStateDirty && CompareVT(synced.last, next) < 0
    requires ReadyForTasks(t.nodes, t.nodes, t.updatedNodes, t.systemUpdatedNodes, t.deletedNodes, image, false, next)
    requires synced == ClusterOf(t.nodes, backend.timers, backend.emitted, synced.last)
    modifies t`nodes, t`updatedNodes, t`deletedNodes, t`systemUpdatedNodes, t`taskValueCache, backend
    ensures newTasks == map[] && ComponentsEncodable(old(t.nodes)) ==> ok
    ensures ok ==> t.Valid() && Closed(old(t.nodes), image, mutation, t.nodes, next)
    ensures ok ==>
            TasksClosed(old(t.nodes), old(t.updatedNodes) + old(t.systemUpdatedNodes), old(t.deletedNodes), synced,
                        mutation, visited, input, dropped, t.nodes, ClusterOf(t.nodes, backend.timers, backend.emitted,
                                                                              next), next)
  {
    ok, mutation, visited, input, dropped :=
      CloseTasksAndMerge(t, backend, next, validators, newTasks, chooses, t.nodes, image, synced.last);
  }

  /** The task phase, and the end. */
  method CloseReady(t: Tree, backend: Backend, next: VersionedTransition, validators: Validators,
                    newTasks: map<nat, seq<NewTask>>, chooses: Time -> bool, ghost image: Records,
                    ghost synced: Cluster)
    returns (ok: bool, mutation: Mutation, ghost visited: seq<Path>, ghost input: CloseInput, ghost dropped: set<Time>)
    requires t.Valid() && !t.isActiveStateDirty
    requires ReadyForTasks(t.nodes, t.nodes, t.updatedNodes, t.systemUpdatedNodes, t.deletedNodes, image, false, next)
    requires synced == ClusterOf(t.nodes, backend.timers, backend.emitted, synced.last)
    requires CompareVT(ZERO_VT, synced.last) <= 0 && CompareVT(synced.last, next) < 0
    modifies t, backend
    ensures newTasks == map[] && ComponentsEncodable(old(t.nodes)) ==> ok
    ensures ok ==> Persisted(t, mutation.Apply(image))
    ensures ok ==>
            TasksClosed(old(t.nodes), old(t.updatedNodes) + old(t.systemUpdatedNodes), old(t.deletedNodes), synced,
                        mutation, visited, input, dropped, t.nodes, ClusterOf(t.nodes, backend.timers, backend.emitted,
                                                                              next), next)
    ensures ok && Inv(synced) ==> RestsAfter(t, backend, mutation.Apply(image), next, synced.timers)
  {
    ghost var written, entries, deleted := t.nodes, t.updatedNodes + t.systemUpdatedNodes, t.deletedNodes;
    ok, mutation, visited, input, dropped :=
      CloseTasksSettled(t, backend, next, validators, newTasks, chooses, image, synced);
    if ok {
      FinishSettled(t, backend, synced, visited, input, dropped, written, image, mutation, next, entries, deleted);
    }
  }

  /** CloseTransaction on a tree without changed values. */
  method CloseSettled(t: Tree, backend: Backend, next: VersionedTransition, codec: Codec, validators: Validators,
                      newTasks: map<nat, seq<NewTask>>, chooses: Time -> bool, ghost image: Records,
                      ghost synced: Cluster, ghost home: map<nat, Path>)
    returns (ok: bool, mutation: Mutation, ghost visited: seq<Path>, ghost input: CloseInput, ghost dropped: set<Time>)
    requires t.Valid() && !t.isActiveStateDirty && AllAtHome(t.nodes, home)
    requires Settling(t.nodes, t.updatedNodes, t.systemUpdatedNodes, t.deletedNodes, image, next)
    requires synced == ClusterOf(t.nodes, backend.timers, backend.emitted, synced.last)
    requires CompareVT(ZERO_VT, synced.last) <= 0 && CompareVT(synced.last, next) < 0
    modifies t, backend
    ensures newTasks == map[] && ComponentsEncodable(old(t.nodes)) && !old(t.needsPointerResolution) ==> ok
    ensures ok ==> Persisted(t, mutation.Apply(image)) && RecordsKept(old(t.nodes), t.nodes, next)
    ensures ok && Apart(old(t.updatedNodes) + old(t.systemUpdatedNodes), old(t.deletedNodes)) ==>
              mutation.updated.Keys !! mutation.deleted
    ensures ok ==> input.next == next &&
                   CloseStep(synced, visited, input, dropped, ClusterOf(t.nodes, backend.timers, backend.emitted, next))
    ensures ok && Inv(synced) ==> RestsAfter(t, backend, mutation.Apply(image), next, synced.timers)
  {
    mutation, visited, dropped, input := Mutation(map[], {}), [], {}, CloseInput(next, false, map[], validators);
    ok := SettleForTasks(t, next, codec, image, home);
    if ok {
      ghost var written, entries := t.nodes, t.updatedNodes + t.systemUpdatedNodes;
      ok, mutation, visited, input, dropped :=
        CloseReady(t, backend, next, validators, newTasks, chooses, image, synced);
      if ok {
        TasksKeepRecords(written, entries, mutation, t.nodes, input.Mark());
      }
    }
  }
}
