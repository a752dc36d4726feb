/** CloseTransaction (chasm/tree.go) end to end. */
module Execution {
  import opened Basics
  import opened PathEncoder
  import opened PathKeys
  import opened Tasks
  import opened ChasmTree
  import opened SyncApply
  import opened Transaction
  import opened CloseTasks
  import opened CloseTree
  import opened Runs
  import opened NewTasks
  import opened Persistence
  import opened Pointers
  import opened Steps
  import opened Closability
  import SyncFacts
  import Replication

  // ----- CloseTransaction

  /** The input of the task phase: the new tasks of the components that were written. */
  function TaskInput(nodes: Nodes, updated: map<string, Path>, next: VersionedTransition, active: bool,
                     validators: Validators, newTasks: map<nat, seq<NewTask>>): CloseInput
  {
    CloseInput(next, active,
               map p | p in nodes && nodes[p].IsComponent() ::
                 NewsOf(nodes, updated, p, active, next, validators.Existing(p), newTasks),
               validators)
  }

  ghost predicate LastUpdatesUpTo(nodes: Nodes, last: VersionedTransition) {
    forall q | q in nodes && nodes[q].serialized.Some? :: CompareVT(nodes[q].serialized.value.lastUpdate, last) <= 0
  }

  /** What serialization leaves for the task phase. */
  ghost predicate ReadyForTasks(start: Nodes, nodes: Nodes, updated: map<string, Path>, system: map<string, Path>,
                                deleted: set<string>, records: Records, active: bool, next: VersionedTransition)
  {
    && nodes.Keys == start.Keys && CompsOf(nodes) == CompsOf(start)
    && Written(nodes, updated + system, deleted, records)
    && WrittenOrQuiet(nodes, updated, system, next) && (active ==> WrittenNow(nodes, updated, next))
    && LastUpdatesUpTo(nodes, next) && CachedKeysDecode(nodes)
  }

  lemma SerializedIsReady(start: Nodes, deleted: set<string>, records: Records, last: VersionedTransition,
                          next: VersionedTransition, codec: Codec, nodes: Nodes, updated: map<string, Path>,
                          deleted': set<string>)
    requires TxInv(start, deleted, records) && Quiet(start, last) && CompareVT(last, next) < 0
    requires SerializedSoFar(start, start.Keys, next, codec, nodes) && DirtyEntries(start, start.Keys, map[], updated)
    requires deleted' == deleted - DirtyKeys(start, start.Keys)
    ensures ReadyForTasks(start, nodes, updated, map[], deleted', records, true, next) && Apart(updated, deleted')
  {
    AddNothing(updated, map[]);
    SerializeWrites(start, deleted, records, next, codec, nodes, updated, deleted');
    SerializingKeepsKeys(start, start.Keys, next, codec, nodes);
    SerializingKeepsTasks(start, next, codec, nodes);
    SerializedVersions(start, last, next, codec, nodes);
    forall p
      ensures WrittenOrQuietAt(nodes, updated, map[], next, p)
    {
      if p in nodes && nodes[p].IsComponent() && Key(nodes, p) !in updated {
        assert NodePersisted(start, deleted, records, p);
        assert QuietNode(start[p], last);
      }
    }
    WrittenAreDirty(start, next, codec, nodes, updated);
  }

  lemma WrittenAreDirty(start: Nodes, next: VersionedTransition, codec: Codec, nodes: Nodes, updated: map<string, Path>)
    requires SerializedSoFar(start, start.Keys, next, codec, nodes) && DirtyEntries(start, start.Keys, map[], updated)
    requires forall q | q in nodes :: Decoded(Key(nodes, q)) == Ok(q)
    ensures WrittenNow(nodes, updated, next)
  {
    SerializingKeepsKeys(start, start.Keys, next, codec, nodes);
    forall p | p in nodes && Key(nodes, p) in updated
      ensures Dirty(start[p])
    {
      var q :| q in start && Dirty(start[q]) && Key(start, q) == Key(nodes, p);
      assert Decoded(Key(nodes, q)) == Ok(q) && Decoded(Key(nodes, p)) == Ok(p);
    }
  }

  lemma SerializedVersions(start: Nodes, last: VersionedTransition, next: VersionedTransition, codec: Codec,
                           nodes: Nodes)
    requires CachedKeysDecode(start) && Quiet(start, last) && CompareVT(last, next) < 0
    requires SerializedSoFar(start, start.Keys, next, codec, nodes)
    ensures LastUpdatesUpTo(nodes, next) && CachedKeysDecode(nodes)
  {
    forall q | q in nodes
      ensures nodes[q].serialized.Some? ==> CompareVT(nodes[q].serialized.value.lastUpdate, next) <= 0
      ensures nodes[q].encodedPath.Some? ==> Decoded(nodes[q].encodedPath.value) == Ok(q)
    {
      assert start[q].serialized.Some? ==> QuietNode(start[q], last);
    }
  }

  lemma SerializingKeepsTasks(start: Nodes, next: VersionedTransition, codec: Codec, nodes: Nodes)
    requires SerializedSoFar(start, start.Keys, next, codec, nodes)
    ensures CompsOf(nodes) == CompsOf(start)
  {
    forall p | p in start
      ensures nodes[p].IsComponent() == start[p].IsComponent()
      ensures start[p].IsComponent() ==> TasksOf(nodes[p]) == TasksOf(start[p])
    {
    }
  }

  lemma InputMatches(nodes: Nodes, updated: map<string, Path>, system: map<string, Path>, deleted: set<string>,
                     records: Records, next: VersionedTransition, active: bool, validators: Validators,
                     newTasks: map<nat, seq<NewTask>>)
    requires Written(nodes, updated + system, deleted, records) && WrittenOrQuiet(nodes, updated, system, next)
    requires active ==> WrittenNow(nodes, updated, next)
    ensures TraversalInput(nodes, updated, system, TaskInput(nodes, updated, next, active, validators, newTasks),
                           newTasks)
  {
    var input := TaskInput(nodes, updated, next, active, validators, newTasks);
    forall p | p in nodes
      ensures Decoded(Key(nodes, p)) == Ok(p)
    {
      assert WrittenAt(nodes, updated + system, deleted, records, p);
    }
    forall p
      ensures NewsMatchAt(nodes, updated, input, newTasks, p)
    {
    }
  }

  /** What a close leaves, in terms of the tree that it has serialized: the mutation returned
      makes the persisted records those of the tree. */
  ghost predicate Closed(written: Nodes, records: Records, mutation: Mutation, nodes: Nodes,
                         next: VersionedTransition) {
    && FullImage(nodes, mutation.Apply(records))
    && nodes.Keys == written.Keys
    && (forall q | q in nodes :: Clean(nodes[q]) && Decoded(Key(nodes, q)) == Ok(q))
    && LastUpdatesUpTo(nodes, next) && CachedKeysDecode(nodes)
  }

  /** The task phase adds to the mutation, and of a record it changes tasks and version only. */
  ghost predicate OnlyTasksChanged(written: Nodes, updated: map<string, Path>, mutation: Mutation, nodes: Nodes,
                                   stamp: Stamp)
  {
    && nodes.Keys == written.Keys && (forall k | k in updated :: k in mutation.updated)
    && forall q | q in written ::
         && written[q].serialized.Some? && nodes[q].serialized.Some? && ContentKept(written[q], nodes[q], stamp)
         && Key(nodes, q) == Key(written, q)
         && (Key(written, q) !in mutation.updated ==> nodes[q].serialized == written[q].serialized)
  }

  /** What becomes of the record at `q`: a changed node is in the mutation, with its new version
      and what the serializer makes of its value; the record of any other node has its old
      content, and is as it was unless it is in the mutation. */
  ghost predicate ContentAt(start: Nodes, next: VersionedTransition, codec: Codec, mutation: Mutation, nodes: Nodes,
                            q: Path)
    requires q in start
  {
    && q in nodes && start[q].serialized.Some? && nodes[q].serialized.Some? && Key(nodes, q) == Key(start, q)
    && var before, after, key := start[q].serialized.value, nodes[q].serialized.value, Key(start, q);
       if Dirty(start[q]) then
         key in mutation.updated && Serializable(start[q]) && WrittenAs(start[q], q, next, codec, after)
       else
         && SameContent(before, after) && (after.lastUpdate == before.lastUpdate || after.lastUpdate == next)
         && (key in mutation.updated || after == before)
         && (after.lastUpdate != next ==> Replication.Strip(after) == Replication.Strip(before))
  }

  /** The records after a close, in terms of the tree that it has started to serialize. */
  ghost predicate ContentPersisted(start: Nodes, next: VersionedTransition, codec: Codec, mutation: Mutation,
                                   nodes: Nodes) {
    nodes.Keys == start.Keys && forall q | q in start :: ContentAt(start, next, codec, mutation, nodes, q)
  }

  lemma ContentAfterTasks(start: Nodes, next: VersionedTransition, codec: Codec, written: Nodes,
                          updated: map<string, Path>, mutation: Mutation, nodes: Nodes, stamp: Stamp)
    requires SerializedSoFar(start, start.Keys, next, codec, written) && DirtyEntries(start, start.Keys, map[], updated)
    requires OnlyTasksChanged(written, updated, mutation, nodes, stamp) && stamp.next == next
    ensures ContentPersisted(start, next, codec, mutation, nodes)
  {
    forall q | q in start
      ensures ContentAt(start, next, codec, mutation, nodes, q)
    {
      NodeContent(start, next, codec, written, updated, mutation, nodes, stamp, q);
    }
  }

  lemma NodeContent(start: Nodes, next: VersionedTransition, codec: Codec, written: Nodes, updated: map<string, Path>,
                    mutation: Mutation, nodes: Nodes, stamp: Stamp, q: Path)
    requires SerializedSoFar(start, start.Keys, next, codec, written) && DirtyEntries(start, start.Keys, map[], updated)
    requires OnlyTasksChanged(written, updated, mutation, nodes, stamp) && stamp.next == next && q in start
    ensures ContentAt(start, next, codec, mutation, nodes, q)
  {
    SerializingKeepsKeys(start, start.Keys, next, codec, written);
    assert ContentKept(written[q], nodes[q], stamp);
    if Dirty(start[q]) {
      assert Key(start, q) in updated;
      assert WrittenNode(start[q], written[q], q, next, codec);
      WrittenContent(start[q], q, next, codec, written[q], nodes[q], stamp);
    } else {
      UnwrittenContent(start[q], nodes[q], stamp);
    }
  }

  lemma WrittenContent(n: Node, q: Path, next: VersionedTransition, codec: Codec, written: Node, after: Node,
                       stamp: Stamp)
    requires Serializable(n) && WrittenNode(n, written, q, next, codec)
    requires after.serialized.Some? && stamp.next == next && ContentKept(written, after, stamp)
    ensures WrittenAs(n, q, next, codec, after.serialized.value)
  {
  }

  lemma UnwrittenContent(n: Node, after: Node, stamp: Stamp)
    requires n.serialized.Some? && after.serialized.Some? && ContentKept(n, after, stamp)
    ensures SameContent(n.serialized.value, after.serialized.value)
    ensures var b, a := n.serialized.value, after.serialized.value;
            && (a.lastUpdate == b.lastUpdate || a.lastUpdate == stamp.next)
            && (a.lastUpdate != stamp.next ==> Replication.Strip(a) == Replication.Strip(b))
  {
  }

  lemma ClosedAfterTasks(start: Nodes, updated: map<string, Path>, system: map<string, Path>, deleted: set<string>,
                         records: Records, visited: seq<Path>, nodes: Nodes, updated': map<string, Path>,
                         deleted': set<string>, system': map<string, Path>, next: VersionedTransition, stamp: Stamp)
    requires Written(start, updated + system, deleted, records) && LastUpdatesUpTo(start, next) &&
             CachedKeysDecode(start)
    requires MutationCovers(start, updated, deleted, system, visited, nodes, updated', deleted', system', stamp)
    requires stamp.next == next
    ensures Closed(start, records, Mutation(Resolve(nodes, updated' + system'), deleted'), nodes, next)
    ensures Apart(updated + system, deleted) ==> Resolve(nodes, updated' + system').Keys !! deleted'
  {
    MutationCompletes(start, updated, system, deleted, records, visited, nodes, updated', deleted', system', stamp);
    AllNodesClosed(start, updated, system, deleted, records, visited, nodes, updated', deleted', system', next, stamp);
  }

  lemma AllNodesClosed(start: Nodes, updated: map<string, Path>, system: map<string, Path>, deleted: set<string>,
                       records: Records, visited: seq<Path>, nodes: Nodes, updated': map<string, Path>,
                       deleted': set<string>, system': map<string, Path>, next: VersionedTransition, stamp: Stamp)
    requires Written(start, updated + system, deleted, records) && LastUpdatesUpTo(start, next) &&
             CachedKeysDecode(start)
    requires MutationCovers(start, updated, deleted, system, visited, nodes, updated', deleted', system', stamp)
    requires stamp.next == next
    ensures nodes.Keys == start.Keys && (forall q | q in nodes :: Clean(nodes[q]) && Decoded(Key(nodes, q)) == Ok(q))
    ensures LastUpdatesUpTo(nodes, next) && CachedKeysDecode(nodes)
  {
    forall q | q in nodes
      ensures ClosedNode(nodes, next, q)
    {
      NodeClosed(start, updated, system, deleted, records, visited, nodes, updated', deleted', system', next, stamp, q);
    }
  }

  ghost predicate ClosedNode(nodes: Nodes, next: VersionedTransition, q: Path)
    requires q in nodes
  {
    && Clean(nodes[q]) && Decoded(Key(nodes, q)) == Ok(q)
    && (nodes[q].serialized.Some? ==> CompareVT(nodes[q].serialized.value.lastUpdate, next) <= 0)
    && (nodes[q].encodedPath.Some? ==> Decoded(nodes[q].encodedPath.value) == Ok(q))
  }

  lemma NodeClosed(start: Nodes, updated: map<string, Path>, system: map<string, Path>, deleted: set<string>,
                   records: Records, visited: seq<Path>, nodes: Nodes, updated': map<string, Path>,
                   deleted': set<string>, system': map<string, Path>, next: VersionedTransition, stamp: Stamp, q: Path)
    requires Written(start, updated + system, deleted, records) && LastUpdatesUpTo(start, next) &&
             CachedKeysDecode(start)
    requires MutationCovers(start, updated, deleted, system, visited, nodes, updated', deleted', system', stamp)
    requires stamp.next == next && q in nodes
    ensures ClosedNode(nodes, next, q)
  {
    AccountedKeys(start, nodes, system + updated' + system', stamp);
    assert WrittenAt(start, updated + system, deleted, records, q);
    AccountedNode(start, nodes, system + updated' + system', next, stamp, q);
  }

  lemma AccountedNode(start: Nodes, nodes: Nodes, updated: map<string, Path>, next: VersionedTransition, stamp: Stamp,
                      q: Path)
    requires Accounted(start, nodes, updated, stamp) && stamp.next == next && q in start
    requires LastUpdatesUpTo(start, next) && CachedKeysDecode(start)
    ensures nodes[q].state == start[q].state
    ensures nodes[q].serialized.Some? ==> CompareVT(nodes[q].serialized.value.lastUpdate, next) <= 0
    ensures nodes[q].encodedPath.Some? ==> nodes[q].encodedPath.value == Key(start, q) ||
                                           Decoded(nodes[q].encodedPath.value) == Ok(q)
  {
    assert ContentKept(start[q], nodes[q], stamp);
    CompareReflexive(next);
  }

  lemma EntriesPersisted(start: Nodes, updated: map<string, Path>, system: map<string, Path>, deleted: set<string>,
                         records: Records, visited: seq<Path>, nodes: Nodes, updated': map<string, Path>,
                         deleted': set<string>, system': map<string, Path>, stamp: Stamp)
    requires Written(start, updated + system, deleted, records)
    requires MutationCovers(start, updated, deleted, system, visited, nodes, updated', deleted', system', stamp)
    ensures OnlyTasksChanged(start, updated + system, Mutation(Resolve(nodes, updated' + system'), deleted'),
                             nodes, stamp)
  {
    AccountedKeys(start, nodes, system + updated' + system', stamp);
    forall k | k in updated' + system'
      ensures k in Resolve(nodes, updated' + system')
    {
      EntryOfNode(start, updated, system, deleted, records, visited, nodes, updated', deleted', system', stamp, k);
    }
    forall q | q in start
      ensures start[q].serialized.Some? && ContentKept(start[q], nodes[q], stamp)
    {
      assert WrittenAt(start, updated + system, deleted, records, q);
    }
  }

  /** Closing the tasks, and putting the two mutations together. */
  method CloseTasksAndMerge(t: Tree, backend: Backend, next: VersionedTransition, validators: Validators,
                            newTasks: map<nat, seq<NewTask>>, chooses: Time -> bool, ghost start: Nodes,
                            ghost records: Records, ghost last: VersionedTransition)
    returns (ok: bool, mutation: Mutation, ghost visited: seq<Path>, ghost input: CloseInput, ghost dropped: set<Time>)
    requires t.Valid() && CompareVT(last, next) < 0
    requires ReadyForTasks(start, t.nodes, t.updatedNodes, t.systemUpdatedNodes, t.deletedNodes, records,
                           t.isActiveStateDirty, next)
    modifies t`nodes, t`updatedNodes, t`deletedNodes, t`systemUpdatedNodes, t`taskValueCache, backend
    ensures AllAnswer(old(t.nodes), old(t.isActiveStateDirty), next, validators, newTasks) &&
            ComponentsEncodable(old(t.nodes)) ==>
              ok
    ensures ok ==> t.Valid() && Closed(old(t.nodes), records, mutation, t.nodes, next)
    ensures ok && Apart(old(t.updatedNodes) + old(t.systemUpdatedNodes), old(t.deletedNodes)) ==>
            mutation.updated.Keys !! mutation.deleted
    ensures ok ==>
            OnlyTasksChanged(old(t.nodes), old(t.updatedNodes) + old(t.systemUpdatedNodes), mutation, t.nodes,
                             input.Mark()) &&
                   input.active == old(t.isActiveStateDirty) && mutation.deleted <= old(t.deletedNodes)
    ensures ok ==> input.next == next &&
                   CloseStep(ClusterOf(old(t.nodes), old(backend.timers), old(backend.emitted), last), visited, input,
                             dropped, ClusterOf(t.nodes, backend.timers, backend.emitted, next))
    ensures ok ==> TasksUpdated(old(t.nodes), t.nodes, input.active, next, validators, newTasks)
  {
    ghost var written, updated, system, deleted := t.nodes, t.updatedNodes, t.systemUpdatedNodes, t.deletedNodes;
    mutation := Mutation(map[], {});
    InputMatches(written, updated, system, deleted, records, next, t.isActiveStateDirty, validators, newTasks);
    var taskInput := TaskInput(t.nodes, t.updatedNodes, next, t.isActiveStateDirty, validators, newTasks);
    input := taskInput;
    ok, visited, dropped := UpdateComponentTasks(t, backend, taskInput, newTasks, chooses, last);
    if ok {
      ClosedAfterTasks(written, updated, system, deleted, records, visited, t.nodes, t.updatedNodes, t.deletedNodes,
                       t.systemUpdatedNodes, next, taskInput.Mark());
      EntriesPersisted(written, updated, system, deleted, records, visited, t.nodes, t.updatedNodes, t.deletedNodes,
                       t.systemUpdatedNodes, taskInput.Mark());
      mutation := Mutation(Resolve(t.nodes, t.updatedNodes + t.systemUpdatedNodes), t.deletedNodes);
    }
  }

  /** What a successful close guarantees: the mutation it returns makes the persisted records
      exactly those of the tree, nothing is both written and deleted, and the tasks have made
      a close step from those of the tree as synchronised. */
  ghost predicate CloseResult(synced: Components, timers: set<Time>, log: seq<Emission>, last: VersionedTransition,
                              mutation: Mutation, visited: seq<Path>, input: CloseInput, dropped: set<Time>,
                              next: VersionedTransition, after: Cluster)
  {
    && mutation.updated.Keys !! mutation.deleted
    && input.next == next
    && CloseStep(Cluster(synced, timers, log, last), visited, input, dropped, after)
  }

  /** The bookkeeping of one transaction is cleared (cleanupTransaction). */
  method CleanupTransaction(t: Tree)
    modifies t`updatedNodes, t`deletedNodes, t`systemUpdatedNodes, t`isActiveStateDirty, t`needsPointerResolution
    ensures t.updatedNodes == map[] && t.deletedNodes == {} && t.systemUpdatedNodes == map[]
    ensures !t.isActiveStateDirty && !t.needsPointerResolution
  {
    t.updatedNodes, t.deletedNodes, t.systemUpdatedNodes := map[], {}, map[];
    t.isActiveStateDirty, t.needsPointerResolution := false, false;
  }

  lemma AtRestAfterClose(synced: Cluster, visited: seq<Path>, input: CloseInput, dropped: set<Time>, written: Nodes,
                         records: Records, mutation: Mutation, nodes: Nodes, timers: set<Time>, log: seq<Emission>,
                         next: VersionedTransition)
    requires Inv(synced) && CompareVT(ZERO_VT, synced.last) <= 0 && CompareVT(synced.last, next) < 0 &&
             input.next == next
    requires Closed(written, records, mutation, nodes, next)
    requires CloseStep(synced, visited, input, dropped, ClusterOf(nodes, timers, log, next))
    ensures TxInv(nodes, {}, mutation.Apply(records)) && Quiet(nodes, next) && CompareVT(ZERO_VT, next) <= 0
    ensures Inv(ClusterOf(nodes, timers, log, next)) && EarliestCreated(CompsOf(nodes)) && |timers - synced.timers| <= 1
  {
    TasksAfterClose(synced, visited, input, dropped, ClusterOf(nodes, timers, log, next));
    FreshTransaction(nodes, mutation.Apply(records));
    QuietWhenAllCreated(nodes, next);
    assert CompareVT(ZERO_VT, next) <= 0;
  }

  lemma TasksAfterClose(synced: Cluster, visited: seq<Path>, input: CloseInput, dropped: set<Time>, after: Cluster)
    requires Inv(synced) && CloseStep(synced, visited, input, dropped, after)
    ensures Inv(after) && EarliestCreated(after.comps) && |after.timers - synced.timers| <= 1
    ensures forall p | p in after.comps :: AllCreated(after.comps[p].side)
  {
    CloseKeepsInv(synced, Close(visited, input, dropped));
  }

  lemma QuietWhenAllCreated(nodes: Nodes, last: VersionedTransition)
    requires LastUpdatesUpTo(nodes, last) && forall p | p in CompsOf(nodes) :: AllCreated(CompsOf(nodes)[p].side)
    ensures Quiet(nodes, last)
  {
    forall q | q in nodes && nodes[q].serialized.Some?
      ensures QuietNode(nodes[q], last)
    {
      assert nodes[q].IsComponent() ==> CompsOf(nodes)[q] == TasksOf(nodes[q]);
    }
  }

  /** closeTransactionSerializeNodes. */
  method SerializeForTasks(t: Tree, next: VersionedTransition, codec: Codec, ghost records: Records,
                           ghost last: VersionedTransition)
    returns (ok: bool)
    requires t.Valid() && TxInv(t.nodes, t.deletedNodes, records) && t.updatedNodes == map[] &&
             t.systemUpdatedNodes == map[]
    requires Quiet(t.nodes, last) && CompareVT(last, next) < 0
    modifies t`nodes, t`updatedNodes, t`deletedNodes
    ensures ok <==> AllSerializable(old(t.nodes))
    ensures ok ==> t.Valid()
    ensures ok ==> SerializedSoFar(old(t.nodes), old(t.nodes).Keys, next, codec, t.nodes) &&
                   DirtyEntries(old(t.nodes), old(t.nodes).Keys, map[], t.updatedNodes)
    ensures ok ==> Apart(t.updatedNodes + t.systemUpdatedNodes, t.deletedNodes) && t.deletedNodes <= old(t.deletedNodes)
    ensures forall active | ok ::
      ReadyForTasks(old(t.nodes), t.nodes, t.updatedNodes, t.systemUpdatedNodes, t.deletedNodes, records, active, next)
  {
    ghost var start, deleted := t.nodes, t.deletedNodes;
    ok := SerializeNodes(t, next, codec);
    if ok {
      SerializedIsReady(start, deleted, records, last, next, codec, t.nodes, t.updatedNodes, t.deletedNodes);
      AddNothing(t.updatedNodes, t.systemUpdatedNodes);
    }
  }

  /** Every component keeps its tasks that are still valid, gets the valid ones among those added
      to it, each in the list of its kind, and no other. */
  ghost predicate TasksTaken(start: Nodes, nodes: Nodes, active: bool, next: VersionedTransition,
                             validators: Validators, newTasks: map<nat, seq<NewTask>>)
  {
    forall p | p in start && start[p].IsComponent() ::
      && p in nodes && nodes[p].IsComponent()
      && Updated(p, TasksOf(start[p]), TasksOf(nodes[p]), active, validators,
                 AddedIn(p, start[p], active, validators, newTasks), next)
  }

  lemma TasksOfWritten(start: Nodes, last: VersionedTransition, next: VersionedTransition, codec: Codec, written: Nodes,
                       nodes: Nodes, active: bool, validators: Validators, newTasks: map<nat, seq<NewTask>>)
    requires Quiet(start, last) && CompareVT(last, next) < 0
    requires SerializedSoFar(start, start.Keys, next, codec, written)
    requires TasksUpdated(written, nodes, active, next, validators, newTasks)
    ensures TasksTaken(start, nodes, active, next, validators, newTasks)
  {
    forall p | p in start && start[p].IsComponent()
      ensures p in nodes && nodes[p].IsComponent()
      ensures Updated(p, TasksOf(start[p]), TasksOf(nodes[p]), active, validators,
                      AddedIn(p, start[p], active, validators, newTasks), next)
    {
      AddedToWritten(start, last, next, codec, written, p, active, validators, newTasks);
    }
  }

  /** Deferred pointers have been resolved, if there were any. */
  ghost predicate PointersResolved(synced: Nodes, resolved: Nodes) {
    resolved == synced || exists index :: Index(synced, index) && ResolvedSoFar(synced, index, synced.Keys, resolved)
  }

  /** What the phases after the sync have made of the tree. */
  ghost predicate PhasesDone(synced: Nodes, resolved: Nodes, next: VersionedTransition, codec: Codec,
                             mutation: Mutation, nodes: Nodes, deleted: set<string>, input: CloseInput, active: bool,
                             validators: Validators, newTasks: map<nat, seq<NewTask>>)
  {
    && PointersResolved(synced, resolved) && AllSerializable(resolved) && nodes.Keys == synced.Keys
    && ContentPersisted(resolved, next, codec, mutation, nodes) && mutation.deleted <= deleted
    && TasksTaken(resolved, nodes, input.active, next, validators, newTasks) && input.active == active
  }

  lemma PhasesAfterTasks(start: Nodes, last: VersionedTransition, next: VersionedTransition, codec: Codec,
                         written: Nodes, updated: map<string, Path>, mutation: Mutation, nodes: Nodes,
                         deleted: set<string>, input: CloseInput, active: bool, validators: Validators,
                         newTasks: map<nat, seq<NewTask>>)
    requires Quiet(start, last) && CompareVT(last, next) < 0 && AllSerializable(start)
    requires SerializedSoFar(start, start.Keys, next, codec, written) && DirtyEntries(start, start.Keys, map[], updated)
    requires OnlyTasksChanged(written, updated, mutation, nodes, input.Mark()) && input.next == next
    requires TasksUpdated(written, nodes, input.active, next, validators, newTasks) && input.active == active
    requires mutation.deleted <= deleted
    ensures PhasesDone(start, start, next, codec, mutation, nodes, deleted, input, active, validators, newTasks)
  {
    ContentAfterTasks(start, next, codec, written, updated, mutation, nodes, input.Mark());
    TasksOfWritten(start, last, next, codec, written, nodes, input.active, validators, newTasks);
  }

  /** Serialization, and then the tasks. */
  method SerializeAndCloseTasks(t: Tree, backend: Backend, next: VersionedTransition, codec: Codec,
                                validators: Validators, newTasks: map<nat, seq<NewTask>>, chooses: Time -> bool,
                                ghost records: Records, ghost last: VersionedTransition)
    returns (ok: bool, mutation: Mutation, ghost written: Nodes, ghost visited: seq<Path>, ghost input: CloseInput,
             ghost dropped: set<Time>)
    requires Underway(t, backend, records, last) && CompareVT(last, next) < 0
    modifies t`nodes, t`updatedNodes, t`deletedNodes, t`systemUpdatedNodes, t`taskValueCache, backend
    ensures AllSerializable(old(t.nodes)) && NodesEncodable(old(t.nodes)) &&
            Answers(old(t.nodes), true, validators, newTasks) ==>
              ok
    ensures ok ==> t.Valid() && Closed(written, records, mutation, t.nodes, next)
    ensures ok ==> mutation.updated.Keys !! mutation.deleted
    ensures ok ==> PhasesDone(old(t.nodes), old(t.nodes), next, codec, mutation, t.nodes, old(t.deletedNodes), input,
                              old(t.isActiveStateDirty), validators, newTasks)
    ensures ok ==> input.next == next &&
                   CloseStep(ClusterOf(old(t.nodes), old(backend.timers), old(backend.emitted), last), visited, input,
                             dropped, ClusterOf(t.nodes, backend.timers, backend.emitted, next))
  {
    mutation, visited, dropped, input := Mutation(map[], {}), [], {}, CloseInput(next, false, map[], validators);
    ghost var start, deleted := t.nodes, t.deletedNodes;
    written := start;
    ok := SerializeForTasks(t, next, codec, records, last);
    if !ok {
      return;
    }
    written := t.nodes;
    ghost var updated, active := t.updatedNodes, t.isActiveStateDirty;
    if Answers(start, true, validators, newTasks) {
      AnswersOfWritten(start, last, next, codec, written, active, validators, newTasks);
    }
    WrittenEncodable(start, next, codec, written);
    AddNothing(updated, t.systemUpdatedNodes);
    ok, mutation, visited, input, dropped :=
      CloseTasksAndMerge(t, backend, next, validators, newTasks, chooses, start, records, last);
    if ok {
      PhasesAfterTasks(start, last, next, codec, written, updated, mutation, t.nodes, deleted, input, active,
                       validators, newTasks);
    }
  }

  /** The tree at rest when `image` is persisted. */
  ghost predicate Resting(t: Tree, backend: Backend, image: Records, last: VersionedTransition)
    reads t, backend
  {
    && Underway(t, backend, image, last)
    && t.deletedNodes == {} && !t.isActiveStateDirty && !t.needsPointerResolution
    && FullImage(t.nodes, image)
    && forall q | q in t.nodes :: Clean(t.nodes[q])
  }

  /** What a close leaves behind. */
  ghost predicate LeftAtRest(t: Tree, backend: Backend, image: Records, last: VersionedTransition, mutation: Mutation,
                             visited: seq<Path>, input: CloseInput, dropped: set<Time>, next: VersionedTransition,
                             synced: Nodes, timers: set<Time>, log: seq<Emission>)
    reads t, backend
  {
    && Resting(t, backend, mutation.Apply(image), next)
    && t.nodes.Keys == synced.Keys
    && EarliestCreated(CompsOf(t.nodes)) && |backend.timers - timers| <= 1
    && CloseResult(CompsOf(synced), timers, log, last, mutation, visited, input, dropped, next,
                   ClusterOf(t.nodes, backend.timers, backend.emitted, next))
  }

  method FinishTransaction(t: Tree, backend: Backend, ghost before: Nodes, ghost synced: Cluster,
                           ghost visited: seq<Path>, ghost input: CloseInput, ghost dropped: set<Time>,
                           ghost written: Nodes, ghost records: Records, ghost mutation: Mutation,
                           ghost next: VersionedTransition)
    requires t.Valid() && Inv(synced) && CompareVT(ZERO_VT, synced.last) <= 0 && CompareVT(synced.last, next) < 0 &&
             input.next == next
    requires synced.comps == CompsOf(before) && t.nodes.Keys == before.Keys
    requires Closed(written, records, mutation, t.nodes, next) && mutation.updated.Keys !! mutation.deleted
    requires CloseStep(synced, visited, input, dropped, ClusterOf(t.nodes, backend.timers, backend.emitted, next))
    modifies t`updatedNodes, t`deletedNodes, t`systemUpdatedNodes, t`isActiveStateDirty, t`needsPointerResolution
    ensures t.nodes == old(t.nodes)
    ensures LeftAtRest(t, backend, records, synced.last, mutation, visited, input, dropped, next, before, synced.timers,
                       synced.log)
  {
    AtRestAfterClose(synced, visited, input, dropped, written, records, mutation, t.nodes, backend.timers,
                     backend.emitted, next);
    CleanupTransaction(t);
  }

  lemma ResolvedStates(synced: Nodes, resolved: Nodes)
    requires PointersResolved(synced, resolved)
    ensures resolved.Keys == synced.Keys
    ensures forall q | q in synced ::
              resolved[q].state == synced[q].state && resolved[q].serialized == synced[q].serialized
    ensures AllSerializable(resolved) ==> SyncFacts.NothingToSync(synced)
  {
    if resolved != synced {
      var index :| Index(synced, index) && ResolvedSoFar(synced, index, synced.Keys, resolved);
      ResolvedKinds(synced, index, synced.Keys, resolved);
    }
  }

  lemma PhasesFromSynced(synced: Nodes, resolved: Nodes, next: VersionedTransition, codec: Codec, mutation: Mutation,
                         nodes: Nodes, deleted: set<string>, input: CloseInput, active: bool, validators: Validators,
                         newTasks: map<nat, seq<NewTask>>)
    requires PointersResolved(synced, resolved)
    requires PhasesDone(resolved, resolved, next, codec, mutation, nodes, deleted, input, active, validators, newTasks)
    ensures PhasesDone(synced, resolved, next, codec, mutation, nodes, deleted, input, active, validators, newTasks)
  {
    ResolvedStates(synced, resolved);
  }

  /** Resolving pointers, serializing, and closing the tasks. */
  method ResolveAndClose(t: Tree, backend: Backend, next: VersionedTransition, codec: Codec, validators: Validators,
                         newTasks: map<nat, seq<NewTask>>, chooses: Time -> bool, ghost image: Records,
                         ghost last: VersionedTransition)
    returns (ok: bool, mutation: Mutation, ghost resolved: Nodes, ghost written: Nodes, ghost visited: seq<Path>,
             ghost input: CloseInput, ghost dropped: set<Time>)
    requires Underway(t, backend, image, last) && CompareVT(last, next) < 0
    modifies t`nodes, t`updatedNodes, t`deletedNodes, t`systemUpdatedNodes, t`taskValueCache, backend
    ensures Closable(old(t.nodes), old(t.needsPointerResolution), validators, newTasks) ==> ok
    ensures ok ==> t.Valid() && Closed(written, image, mutation, t.nodes, next)
    ensures ok ==> mutation.updated.Keys !! mutation.deleted
    ensures ok ==> PhasesDone(old(t.nodes), resolved, next, codec, mutation, t.nodes, old(t.deletedNodes), input,
                              old(t.isActiveStateDirty), validators, newTasks)
    ensures ok ==> input.next == next &&
                   CloseStep(ClusterOf(old(t.nodes), old(backend.timers), old(backend.emitted), last), visited, input,
                             dropped, ClusterOf(t.nodes, backend.timers, backend.emitted, next))
  {
    mutation, visited, dropped, input := Mutation(map[], {}), [], {}, CloseInput(next, false, map[], validators);
    ghost var synced, index, deleted, active := t.nodes, t.valueToNode, t.deletedNodes, t.isActiveStateDirty;
    resolved, written := synced, synced;
    ok := ResolvePointers(t, backend, image, last);
    if !ok {
      return;
    }
    resolved := t.nodes;
    assert PointersResolved(synced, resolved);
    if Closable(synced, t.needsPointerResolution, validators, newTasks) {
      if t.needsPointerResolution {
        ClosableResolved(synced, index, resolved, validators, newTasks);
      } else {
        ClosableAsIs(synced, validators, newTasks);
      }
    }
    ok, mutation, written, visited, input, dropped :=
      SerializeAndCloseTasks(t, backend, next, codec, validators, newTasks, chooses, image, last);
    if ok {
      PhasesFromSynced(synced, resolved, next, codec, mutation, t.nodes, deleted, input, active, validators, newTasks);
    }
  }

  /** What CloseTransaction does after the structure has been synchronised. */
  method CloseSynced(t: Tree, backend: Backend, next: VersionedTransition, codec: Codec, validators: Validators,
                     newTasks: map<nat, seq<NewTask>>, chooses: Time -> bool, ghost image: Records,
                     ghost last: VersionedTransition)
    returns (ok: bool, mutation: Mutation, ghost resolved: Nodes, ghost visited: seq<Path>, ghost input: CloseInput,
             ghost dropped: set<Time>)
    requires Underway(t, backend, image, last) && CompareVT(last, next) < 0
    modifies t, backend
    ensures Closable(old(t.nodes), old(t.needsPointerResolution), validators, newTasks) ==> ok
    ensures ok ==> LeftAtRest(t, backend, image, last, mutation, visited, input, dropped, next, old(t.nodes),
                              old(backend.timers), old(backend.emitted))
    ensures ok ==> PhasesDone(old(t.nodes), resolved, next, codec, mutation, t.nodes, old(t.deletedNodes), input,
                              old(t.isActiveStateDirty), validators, newTasks)
  {
    ghost var synced, start := t.nodes, ClusterOf(t.nodes, backend.timers, backend.emitted, last);
    ghost var written;
    ok, mutation, resolved, written, visited, input, dropped :=
      ResolveAndClose(t, backend, next, codec, validators, newTasks, chooses, image, last);
    if !ok {
      return;
    }
    FinishTransaction(t, backend, synced, start, visited, input, dropped, written, image, mutation, next);
  }

  /** The mutation of an empty tree is that of one with its root persisted. */
  lemma ImageAfterClose(before: Nodes, records: Records, mutation: Mutation, nodes: Nodes)
    requires [] in before && (Clean(before[[]]) ==> Decoded(Key(before, [])) == Ok([])) && [] in nodes &&
             Decoded(Key(nodes, [])) == Ok([])
    requires FullImage(nodes, mutation.Apply(Image(before, records)))
    requires Unwritten(before, records) && nodes[[]].serialized.Some? &&
             nodes[[]].serialized.value.lastUpdate == ZERO_VT ==>
               nodes.Keys == {[]} && Clean(nodes[[]])
    ensures Image(nodes, mutation.Apply(records)) == mutation.Apply(Image(before, records))
  {
    var image := mutation.Apply(Image(before, records));
    OnlyRootDecodesToRoot(Key(nodes, []));
    assert "" in image;
    if Unwritten(before, records) {
      OnlyRootDecodesToRoot(Key(before, []));
      if "" in mutation.updated {
        assert mutation.Apply(records) == image;
      } else {
        assert image[""].lastUpdate == ZERO_VT;
        OnlyRootPersisted(nodes, image);
        assert mutation.updated.Keys <= image.Keys;
        assert mutation.Apply(records) == map[];
      }
    }
  }

  lemma OnlyRootPersisted(nodes: Nodes, image: Records)
    requires FullImage(nodes, image) && nodes.Keys == {[]} && Key(nodes, []) == ""
    ensures image == map["" := nodes[[]].serialized.value]
  {
    assert "" in image;
    forall k | k in image
      ensures k == ""
    {
      assert KeyOfNode(nodes, k);
    }
    SameMap(image, map["" := nodes[[]].serialized.value]);
  }

  /** The content of the persisted records after a close, and that nothing was missed. */
  ghost predicate NothingLost(before: Nodes, synced: Nodes, resolved: Nodes, next: VersionedTransition, codec: Codec,
                              mutation: Mutation, nodes: Nodes)
    requires [] in before
  {
    && WholeSync(before, synced, next) && SyncFacts.NothingBlocked(before)
    && PointersResolved(synced, resolved) && AllSerializable(resolved)
    && ContentPersisted(resolved, next, codec, mutation, nodes)
  }

  /** What was changed before the close is persisted, under its key, as the value of the node:
      for a component or a data node encoded, for a pointer as its path, once resolved. */
  ghost predicate ChangesPersisted(synced: Nodes, resolved: Nodes, next: VersionedTransition, codec: Codec,
                                   nodes: Nodes, records: Records)
  {
    forall q | q in synced && Dirty(synced[q]) ::
      && q in resolved && resolved[q].serialized == synced[q].serialized && synced[q].serialized.Some?
      && q in nodes && Key(nodes, q) in records && WrittenAs(resolved[q], q, next, codec, records[Key(nodes, q)])
  }

  lemma ChangesArePersisted(synced: Nodes, resolved: Nodes, next: VersionedTransition, codec: Codec, mutation: Mutation,
                            nodes: Nodes, image: Records, records: Records)
    requires PointersResolved(synced, resolved) && ContentPersisted(resolved, next, codec, mutation, nodes)
    requires FullImage(nodes, mutation.Apply(image))
    ensures ChangesPersisted(synced, resolved, next, codec, nodes, mutation.Apply(records))
  {
    ResolvedStates(synced, resolved);
    forall q | q in synced && Dirty(synced[q])
      ensures q in nodes && Key(nodes, q) in mutation.updated && nodes[q].serialized.Some?
      ensures mutation.updated[Key(nodes, q)] == nodes[q].serialized.value
      ensures WrittenAs(resolved[q], q, next, codec, nodes[q].serialized.value)
    {
      assert ContentAt(resolved, next, codec, mutation, nodes, q);
      assert mutation.Apply(image)[Key(nodes, q)] == mutation.updated[Key(nodes, q)];
    }
  }

  /** CloseTransaction, when `image` is persisted. */
  method CloseOnImage(t: Tree, backend: Backend, next: VersionedTransition, codec: Codec, validators: Validators,
                      newTasks: map<nat, seq<NewTask>>, chooses: Time -> bool, ghost image: Records,
                      ghost last: VersionedTransition, ghost rank: nat, ghost home: map<nat, Path>)
    returns (ok: bool, mutation: Mutation, ghost synced: Nodes, ghost gone: set<string>, ghost resolved: Nodes,
             ghost visited: seq<Path>, ghost input: CloseInput, ghost dropped: set<Time>)
    requires Underway(t, backend, image, last) && SyncReady(t.nodes, home, rank) && CompareVT(last, next) < 0
    modifies t, backend
    ensures WillClose(old(t.nodes), old(t.needsPointerResolution), next, validators, newTasks) ==> ok
    ensures ok ==> Resting(t, backend, mutation.Apply(image), next) && t.nodes.Keys == synced.Keys &&
                   PrefixClosed(synced)
    ensures ok ==> NothingLost(old(t.nodes), synced, resolved, next, codec, mutation, t.nodes)
    ensures ok ==> TasksTaken(resolved, t.nodes, input.active, next, validators, newTasks) &&
                   (old(t.isActiveStateDirty) ==> input.active)
    ensures ok ==> DeletionsRecorded(old(t.nodes), synced, [], old(t.deletedNodes), gone) && mutation.deleted <= gone
    ensures ok ==> EarliestCreated(CompsOf(t.nodes)) && |backend.timers - old(backend.timers)| <= 1
    ensures ok ==>
            CloseResult(CompsOf(synced), old(backend.timers), old(backend.emitted), last, mutation, visited, input,
                        dropped, next, ClusterOf(t.nodes, backend.timers, backend.emitted, next))
  {
    mutation, visited, dropped, input := Mutation(map[], {}), [], {}, CloseInput(next, false, map[], validators);
    ghost var before := t.nodes;
    synced, gone, resolved := before, t.deletedNodes, before;
    ok := SyncRoot(t, backend, next, image, last, rank, home);
    if !ok {
      return;
    }
    synced, gone := t.nodes, t.deletedNodes;
    WillCloseSynced(before, old(t.needsPointerResolution), synced, t.needsPointerResolution, next,
                    validators, newTasks);
    SyncFacts.NothingLeftToSync(before, synced, next);
    ok, mutation, resolved, visited, input, dropped :=
      CloseSynced(t, backend, next, codec, validators, newTasks, chooses, image, last);
    if ok {
      ResolvedStates(synced, resolved);
    }
  }

  /** CloseTransaction: from a tree in the middle of a transaction to one at rest. */
  method CloseTransaction(t: Tree, backend: Backend, next: VersionedTransition, codec: Codec, validators: Validators,
                          newTasks: map<nat, seq<NewTask>>, chooses: Time -> bool, ghost records: Records,
                          ghost last: VersionedTransition, ghost rank: nat, ghost home: map<nat, Path>)
    returns (ok: bool, mutation: Mutation, ghost synced: Nodes, ghost gone: set<string>, ghost resolved: Nodes,
             ghost visited: seq<Path>, ghost input: CloseInput, ghost dropped: set<Time>)
    requires InTransaction(t, backend, records, last) && SyncReady(t.nodes, home, rank) && CompareVT(last, next) < 0
    modifies t, backend
    ensures WillClose(old(t.nodes), old(t.needsPointerResolution), next, validators, newTasks) ==> ok
    ensures ok ==> AtRest(t, backend, mutation.Apply(records), next) && PrefixClosed(synced)
    ensures ok ==> ChangesPersisted(synced, resolved, next, codec, t.nodes, mutation.Apply(records))
    ensures ok ==> Image(t.nodes, mutation.Apply(records)) == mutation.Apply(Image(old(t.nodes), records))
    ensures ok ==> NothingLost(old(t.nodes), synced, resolved, next, codec, mutation, t.nodes)
    ensures ok ==> TasksTaken(resolved, t.nodes, input.active, next, validators, newTasks) &&
                   (old(t.isActiveStateDirty) ==> input.active)
    ensures ok ==> DeletionsRecorded(old(t.nodes), synced, [], old(t.deletedNodes), gone) && mutation.deleted <= gone
    ensures ok ==> EarliestCreated(CompsOf(t.nodes)) && |backend.timers - old(backend.timers)| <= 1
    ensures ok ==>
            CloseResult(CompsOf(synced), old(backend.timers), old(backend.emitted), last, mutation, visited, input,
                        dropped, next, ClusterOf(t.nodes, backend.timers, backend.emitted, next))
  {
    ghost var before, deleted := t.nodes, t.deletedNodes;
    ok, mutation, synced, gone, resolved, visited, input, dropped :=
      CloseOnImage(t, backend, next, codec, validators, newTasks, chooses, Image(before, records), last, rank, home);
    if ok {
      ChangesArePersisted(synced, resolved, next, codec, mutation, t.nodes, Image(before, records), records);
      ClosedImage(before, deleted, records, synced, mutation, t.nodes, next);
    }
  }

  lemma ClosedImage(before: Nodes, deleted: set<string>, records: Records, synced: Nodes, mutation: Mutation,
                    nodes: Nodes, next: VersionedTransition)
    requires PrefixClosed(before) && NodesOk(before, []) && TxInv(before, deleted, Image(before, records))
    requires PrefixClosed(synced) && WholeSync(before, synced, next) && nodes.Keys == synced.Keys
    requires var image := mutation.Apply(Image(before, records));
             FullImage(nodes, image) && TxInv(nodes, {}, image) && forall q | q in nodes :: Clean(nodes[q])
    ensures Image(nodes, mutation.Apply(records)) == mutation.Apply(Image(before, records))
  {
    ImageAfterSync(before, synced, next, records, deleted);
    RootDecodes(before, deleted, Image(before, records));
    RootDecodes(nodes, {}, mutation.Apply(Image(before, records)));
    ImageAfterClose(before, records, mutation, nodes);
  }

  lemma RootDecodes(nodes: Nodes, deleted: set<string>, image: Records)
    requires [] in nodes && TxInv(nodes, deleted, image)
    ensures nodes[[]].serialized.Some?
    ensures Clean(nodes[[]]) ==> Decoded(Key(nodes, [])) == Ok([])
  {
    assert NodePersisted(nodes, deleted, image, []);
  }
}
