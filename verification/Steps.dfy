/** What holds of an execution between and during its transactions, and the steps of a
    transaction up to its close (chasm/tree.go). */
module Steps {
  import opened Basics
  import opened PathEncoder
  import opened Tasks
  import opened ChasmTree
  import opened Sync
  import opened SyncApply
  import opened Transaction
  import opened CloseTasks
  import opened CloseTree
  import opened Runs
  import opened Persistence
  import opened Pointers
  import SyncFacts

  /** All side-effect tasks have their physical task, and no record is newer than `last`. */
  ghost predicate Quiet(nodes: Nodes, last: VersionedTransition) {
    forall q | q in nodes && nodes[q].serialized.Some? :: QuietNode(nodes[q], last)
  }

  predicate QuietNode(n: Node, last: VersionedTransition)
    requires n.serialized.Some?
  {
    && CompareVT(n.serialized.value.lastUpdate, last) <= 0
    && (n.IsComponent() ==> forall t | t in TasksOf(n).side :: t.status == Created)
  }

  lemma CompareReflexive(v: VersionedTransition)
    ensures CompareVT(v, v) == 0
  {
  }

  // ----- What is persisted

  /** An empty tree: a root that no transaction has written yet, and for which nothing is
      persisted. */
  ghost predicate Unwritten(nodes: Nodes, records: Records) {
    && records == map[] && nodes.Keys == {[]} && Clean(nodes[[]])
    && nodes[[]].IsComponent() && TasksOf(nodes[[]]) == TaskLists([], []) &&
       nodes[[]].serialized.value.lastUpdate == ZERO_VT
  }

  /** What the tree may take to be persisted: the records, or the unwritten root. */
  ghost function Image(nodes: Nodes, records: Records): Records {
    if Unwritten(nodes, records) then map[Key(nodes, []) := nodes[[]].serialized.value] else records
  }

  /** During a transaction, when `image` is persisted. */
  ghost predicate Underway(t: Tree, backend: Backend, image: Records, last: VersionedTransition)
    reads t, backend
  {
    && t.Valid() && TxInv(t.nodes, t.deletedNodes, image)
    && t.updatedNodes == map[] && t.systemUpdatedNodes == map[]
    && Quiet(t.nodes, last) && CompareVT(ZERO_VT, last) <= 0
    && Inv(ClusterOf(t.nodes, backend.timers, backend.emitted, last))
  }

  /** During a transaction of the active cluster. */
  ghost predicate InTransaction(t: Tree, backend: Backend, records: Records, last: VersionedTransition)
    reads t, backend
  {
    Underway(t, backend, Image(t.nodes, records), last)
  }

  /** Between transactions: in addition, the tree is persisted as it is. */
  ghost predicate AtRest(t: Tree, backend: Backend, records: Records, last: VersionedTransition)
    reads t, backend
  {
    && InTransaction(t, backend, records, last)
    && t.deletedNodes == {} && !t.isActiveStateDirty && !t.needsPointerResolution
    && FullImage(t.nodes, Image(t.nodes, records))
    && forall q | q in t.nodes :: Clean(t.nodes[q])
  }

  /** A tree for which something is persisted has been written. */
  lemma WrittenImage(nodes: Nodes, records: Records)
    requires records != map[] || (exists q :: q in nodes && (!Clean(nodes[q]) || q != []))
    ensures Image(nodes, records) == records
  {
  }

  /** Once its root is dirty, an empty tree has been written. */
  lemma ImageAfterWrite(nodes: Nodes, records: Records, p: Path, n: Node, deleted: set<string>)
    requires p in nodes && Dirty(n)
    requires TxInv(nodes[p := n], deleted, Image(nodes, records))
    ensures TxInv(nodes[p := n], deleted, Image(nodes[p := n], records))
  {
    var nodes' := nodes[p := n];
    assert Image(nodes', records) == records by {
      assert !Clean(nodes'[p]);
      WrittenImage(nodes', records);
    }
    if Unwritten(nodes, records) {
      forall q | q in nodes'
        ensures NodePersisted(nodes', deleted, records, q)
      {
        assert NodePersisted(nodes', deleted, Image(nodes, records), q);
      }
    }
  }

  lemma ImageAfterRead(nodes: Nodes, records: Records, p: Path, n: Node)
    requires p in nodes && n.serialized == nodes[p].serialized && n.encodedPath == nodes[p].encodedPath && Clean(n) &&
             Clean(nodes[p])
    ensures Image(nodes[p := n], records) == Image(nodes, records)
  {
    assert nodes[p := n].Keys == nodes.Keys;
  }

  // ----- Reading and writing values

  /** A change of value and state touches neither records nor tasks. */
  lemma ValuesAreNotPersisted(nodes: Nodes, p: Path, n: Node, last: VersionedTransition)
    requires p in nodes && n.serialized == nodes[p].serialized
    ensures CompsOf(nodes[p := n]) == CompsOf(nodes)
    ensures Quiet(nodes, last) ==> Quiet(nodes[p := n], last)
  {
    var nodes' := nodes[p := n];
    if Quiet(nodes, last) {
      forall q | q in nodes' && nodes'[q].serialized.Some?
        ensures QuietNode(nodes'[q], last)
      {
        assert QuietNode(nodes[q], last);
      }
    }
  }

  /** A transition writes to a component. */
  method Write(t: Tree, backend: Backend, p: Path, value: Value, ghost records: Records,
               ghost last: VersionedTransition)
    requires InTransaction(t, backend, records, last) && p in t.nodes && t.nodes[p].IsComponent() && value.Object?
    requires value.id in t.valueToNode ==> t.valueToNode[value.id] == p
    modifies t`nodes, t`valueToNode, t`isActiveStateDirty
    ensures InTransaction(t, backend, records, last) && t.isActiveStateDirty
    ensures t.nodes == old(t.nodes)[p := old(t.nodes)[p].(value := Some(value), state := NeedSyncStructure)]
  {
    ghost var before, n := t.nodes, t.nodes[p].(value := Some(value), state := NeedSyncStructure);
    ValuesAreNotPersisted(before, p, n, last);
    WriteComponent(t, p, value, Image(before, records));
    ImageAfterWrite(before, records, p, n, t.deletedNodes);
  }

  /** A transition writes to a data node. */
  method WriteData(t: Tree, backend: Backend, p: Path, value: Value, ghost records: Records,
                   ghost last: VersionedTransition)
    requires InTransaction(t, backend, records, last) && p in t.nodes && t.nodes[p].IsData() && value.Object?
    requires value.id in t.valueToNode ==> t.valueToNode[value.id] == p
    modifies t`nodes, t`valueToNode, t`isActiveStateDirty
    ensures InTransaction(t, backend, records, last) && t.isActiveStateDirty
    ensures t.nodes == old(t.nodes)[p := old(t.nodes)[p].(value := Some(value), state := NeedSerialize)]
  {
    ghost var before, n := t.nodes, t.nodes[p].(value := Some(value), state := NeedSerialize);
    ValuesAreNotPersisted(before, p, n, last);
    WriteDataNode(t, p, value, Image(before, records));
    ImageAfterWrite(before, records, p, n, t.deletedNodes);
  }

  /** A value is read for the first time. */
  method Read(t: Tree, backend: Backend, p: Path, value: Value, ghost records: Records, ghost last: VersionedTransition)
    requires InTransaction(t, backend, records, last) && p in t.nodes && t.nodes[p].state == NeedDeserialize
    requires ValueRead(t.nodes[p], value, t.valueToNode)
    modifies t`nodes, t`valueToNode, t`isActiveStateDirty
    ensures InTransaction(t, backend, records, last) && t.isActiveStateDirty == old(t.isActiveStateDirty)
    ensures t.nodes == old(t.nodes)[p := old(t.nodes)[p].(value := Some(value), state := Synced)]
  {
    ghost var before, n := t.nodes, t.nodes[p].(value := Some(value), state := Synced);
    ValuesAreNotPersisted(before, p, n, last);
    ImageAfterRead(before, records, p, n);
    Hydrate(t, p, value, Image(before, records));
  }

  // ----- Sync and the cluster

  /** Sync removes components and creates ones without tasks. */
  lemma SyncedComponents(before: Nodes, after: Nodes, next: VersionedTransition)
    requires PrefixClosed(before) && NodesOk(before, []) && WholeSync(before, after, next)
    ensures forall p | p in CompsOf(after) ::
              if p in CompsOf(before) then CompsOf(after)[p] == CompsOf(before)[p]
              else CompsOf(after)[p] == TaskLists([], [])
    ensures forall last | Quiet(before, last) && CompareVT(ZERO_VT, last) <= 0 :: Quiet(after, last)
  {
    forall q | q in after
      ensures if q in before then after[q].serialized == before[q].serialized else NewlyMade(after[q], next)
    {
      SyncOrigin(before, after, next, q);
    }
  }

  lemma InvAfterSync(s: Cluster, s': Cluster)
    requires Inv(s) && s'.timers == s.timers && s'.log == s.log && s'.last == s.last
    requires forall p | p in s'.comps :: if p in s.comps then s'.comps[p] == s.comps[p]
                                         else s'.comps[p] == TaskLists([], [])
    ensures Inv(s')
  {
    assert KeysOf(TaskLists([], [])) == {};
    forall p | p in s'.comps
      ensures KeysOf(s'.comps[p]) == if p in s.comps then KeysOf(s.comps[p]) else {}
    {
    }
  }

  /** What sync needs to know of the values; `rank` bounds how deep they go. */
  ghost predicate SyncReady(nodes: Nodes, home: map<nat, Path>, rank: nat) {
    AllAtHome(nodes, home) && NodesOk(nodes, []) && RankOk(nodes, [], rank)
  }

  /** syncSubComponents on the root. */
  method SyncRoot(t: Tree, backend: Backend, next: VersionedTransition, ghost image: Records,
                  ghost last: VersionedTransition, ghost rank: nat, ghost home: map<nat, Path>) returns (ok: bool)
    requires Underway(t, backend, image, last) && SyncReady(t.nodes, home, rank)
    modifies t`nodes, t`valueToNode, t`deletedNodes, t`taskValueCache, t`isActiveStateDirty, t`needsPointerResolution
    ensures ok ==> Underway(t, backend, image, last) && WholeSync(old(t.nodes), t.nodes, next) &&
                   AllAtHome(t.nodes, home)
    ensures ok ==> DeletionsRecorded(old(t.nodes), t.nodes, [], old(t.deletedNodes), t.deletedNodes)
    ensures ok ==> FlagKept(old(t.nodes), old(t.needsPointerResolution), t.nodes, t.needsPointerResolution)
    ensures AllNamed(old(t.nodes), []) || Idle(old(t.nodes), []) ==> ok
    ensures old(t.isActiveStateDirty) ==> t.isActiveStateDirty
  {
    ghost var before, deleted := t.nodes, t.deletedNodes;
    ok := SyncSubComponents(t, [], next, rank, home);
    if ok {
      SyncKeepsTx(before, t.nodes, next, deleted, t.deletedNodes, image);
      SyncedComponents(before, t.nodes, next);
      InvAfterSync(ClusterOf(before, backend.timers, backend.emitted, last),
                   ClusterOf(t.nodes, backend.timers, backend.emitted, last));
    }
  }

  /** An empty tree stays as it is, and a tree that has been written stays one. */
  lemma ImageAfterSync(before: Nodes, after: Nodes, next: VersionedTransition, records: Records, deleted: set<string>)
    requires PrefixClosed(before) && PrefixClosed(after) && NodesOk(before, []) && WholeSync(before, after, next)
    requires TxInv(before, deleted, Image(before, records))
    ensures Image(after, records) == Image(before, records)
    ensures Unwritten(before, records) ==> after == before
  {
    if Unwritten(before, records) {
      SyncFacts.IdleSync(before, after, next);
    } else if records == map[] {
      SyncOrigin(before, after, next, []);
      assert NodePersisted(before, deleted, records, []);
      WrittenImage(after, records);
    }
  }

  /** Sync any number of times in a transaction. */
  method SyncTree(t: Tree, backend: Backend, next: VersionedTransition, ghost records: Records,
                  ghost last: VersionedTransition, ghost rank: nat, ghost home: map<nat, Path>) returns (ok: bool)
    requires InTransaction(t, backend, records, last) && SyncReady(t.nodes, home, rank)
    modifies t`nodes, t`valueToNode, t`deletedNodes, t`taskValueCache, t`isActiveStateDirty, t`needsPointerResolution
    ensures ok ==> InTransaction(t, backend, records, last) && WholeSync(old(t.nodes), t.nodes, next) &&
                   AllAtHome(t.nodes, home)
    ensures ok ==> Image(t.nodes, records) == Image(old(t.nodes), records)
    ensures ok ==> DeletionsRecorded(old(t.nodes), t.nodes, [], old(t.deletedNodes), t.deletedNodes)
    ensures ok ==> FlagKept(old(t.nodes), old(t.needsPointerResolution), t.nodes, t.needsPointerResolution)
    ensures AllNamed(old(t.nodes), []) || Idle(old(t.nodes), []) ==> ok
    ensures old(t.isActiveStateDirty) ==> t.isActiveStateDirty
  {
    ghost var before, deleted := t.nodes, t.deletedNodes;
    ok := SyncRoot(t, backend, next, Image(before, records), last, rank, home);
    if ok {
      ImageAfterSync(before, t.nodes, next, records, deleted);
    }
  }

  // ----- Pointers and the transaction

  lemma ResolvingKeepsTransaction(start: Nodes, index: map<nat, Path>, done: set<Path>, nodes: Nodes,
                                  deleted: set<string>, records: Records, last: VersionedTransition)
    requires ResolvedSoFar(start, index, done, nodes) && TxInv(start, deleted, records) && Quiet(start, last)
    ensures TxInv(nodes, deleted, records) && Quiet(nodes, last) && CompsOf(nodes) == CompsOf(start)
  {
    ResolvedKinds(start, index, done, nodes);
    ResolvingKeepsKeys(start, index, done, nodes);
    SameRecordsSameTransaction(start, nodes, deleted, records);
    SameRecordsSameTasks(start, nodes, last);
  }

  /** The trees differ in values only. */
  ghost predicate SameRecords(before: Nodes, after: Nodes) {
    && after.Keys == before.Keys
    && forall q | q in before :: after[q].serialized == before[q].serialized && after[q].state == before[q].state &&
                                 after[q].encodedPath == before[q].encodedPath && Key(after, q) == Key(before, q)
  }

  lemma SameRecordsSameTransaction(before: Nodes, after: Nodes, deleted: set<string>, records: Records)
    requires SameRecords(before, after) && TxInv(before, deleted, records)
    ensures TxInv(after, deleted, records)
  {
    forall q | q in after
      ensures NodePersisted(after, deleted, records, q)
    {
      assert NodePersisted(before, deleted, records, q);
    }
  }

  lemma SameRecordsSameTasks(before: Nodes, after: Nodes, last: VersionedTransition)
    requires SameRecords(before, after)
    ensures CompsOf(after) == CompsOf(before)
    ensures Quiet(before, last) ==> Quiet(after, last)
  {
    if Quiet(before, last) {
      forall q | q in after && after[q].serialized.Some?
        ensures QuietNode(after[q], last)
      {
        assert QuietNode(before[q], last);
      }
    }
  }

  /** resolveDeferredPointers, when a deferred pointer has been seen. */
  method ResolvePointers(t: Tree, backend: Backend, ghost image: Records, ghost last: VersionedTransition)
    returns (ok: bool)
    requires Underway(t, backend, image, last)
    modifies t`nodes
    ensures ok ==> Underway(t, backend, image, last) && CompsOf(t.nodes) == CompsOf(old(t.nodes))
    ensures ok ==> if t.needsPointerResolution then
            ResolvedSoFar(old(t.nodes), t.valueToNode, old(t.nodes).Keys, t.nodes)
                   else t.nodes == old(t.nodes)
    ensures ok <==> (t.needsPointerResolution ==> AllResolvable(old(t.nodes), t.valueToNode, old(t.nodes).Keys))
  {
    ok := true;
    if t.needsPointerResolution {
      ghost var start := t.nodes;
      ok := ResolveDeferredPointers(t);
      if ok {
        ResolvingKeepsTransaction(start, t.valueToNode, start.Keys, t.nodes, t.deletedNodes, image, last);
      }
    }
  }
}
