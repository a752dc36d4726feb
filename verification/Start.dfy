/** How an execution starts (chasm/tree.go): an empty tree, and its root component. */
module Start {
  import opened Basics
  import opened PathEncoder
  import opened Tasks
  import opened ChasmTree
  import opened Sync
  import opened SyncApply
  import SyncFacts
  import opened Transaction
  import opened CloseTasks
  import opened CloseTree
  import opened Runs
  import opened Persistence
  import opened Steps
  import opened Closability
  import opened Execution
  import opened Load

  /** A new execution is at rest, with nothing persisted. */
  method NewExecution(workflowArchetype: int, next: VersionedTransition) returns (t: Tree, backend: Backend)
    ensures fresh(t) && fresh(backend) && t.nodes == EmptyTree(workflowArchetype, next) && t.valueToNode == map[]
    ensures AtRest(t, backend, map[], ZERO_VT) && Unwritten(t.nodes, map[])
  {
    t := NewEmptyTree(workflowArchetype, next);
    backend := new Backend();
    ghost var start := Cluster(map[], {}, [], ZERO_VT);
    assert Inv(start);
    EmptyTreeAtRest(workflowArchetype, next, t.nodes, start);
  }

  /** The root with its new component, before it is synchronised. */
  function RootWith(root: Node, value: Value, typeId: Option<int>): (n: Node)
    requires root.IsComponent()
    ensures n.value == Some(value) && n.state == NeedSyncStructure && n.encodedPath == root.encodedPath
    ensures n.IsComponent() && (typeId.Some? ==> n.serialized.value.attributes.typeId == typeId.value)
    ensures var before := root.serialized.value;
            n.serialized.value == if typeId.None? then before
                                  else before.(attributes := before.attributes.(typeId := typeId.value))
  {
    var n := root.(value := Some(value), state := NeedSyncStructure);
    if typeId.None? then n
    else n.(serialized :=
            Some(n.serialized.value.(attributes := n.serialized.value.attributes.(typeId := typeId.value))))
  }

  /** The first half of SetRootComponent. */
  method PutRootComponent(t: Tree, backend: Backend, value: Value, typeId: Option<int>, ghost last: VersionedTransition)
    requires InTransaction(t, backend, map[], last) && Unwritten(t.nodes, map[]) && value.Object? &&
             value.id !in t.valueToNode
    modifies t`nodes, t`valueToNode, t`isActiveStateDirty
    ensures InTransaction(t, backend, map[], last) && t.isActiveStateDirty
    ensures t.nodes == map[[] := RootWith(old(t.nodes)[[]], value, typeId)]
  {
    ghost var root := t.nodes[[]];
    Write(t, backend, [], value, map[], last);
    if typeId.Some? {
      SetRootType(t, backend, typeId.value, last);
    }
    assert t.nodes == map[[] := RootWith(root, value, typeId)];
  }

  /** SetRootComponent on an empty tree: the transaction that creates the execution is under
      way, and the tree is that of the component. */
  method SetRootComponent(t: Tree, backend: Backend, value: Value, typeId: Option<int>, next: VersionedTransition,
                          ghost last: VersionedTransition, ghost home: map<nat, Path>) returns (ok: bool)
    requires InTransaction(t, backend, map[], last) && Unwritten(t.nodes, map[])
    requires FreshValue(ComponentField, value) && ValueAtHome(value, [], home) && value.id !in t.valueToNode
    modifies t
    ensures ok ==> InTransaction(t, backend, map[], last) && AllAtHome(t.nodes, home) &&
                   SyncFacts.NothingToSync(t.nodes)
    ensures ok ==> WholeSync(map[[] := RootWith(old(t.nodes)[[]], value, typeId)], t.nodes, next)
    ensures ok ==>
            DeletionsRecorded(map[[] := RootWith(old(t.nodes)[[]], value, typeId)], t.nodes, [], old(t.deletedNodes),
                              t.deletedNodes)
    ensures ValueNamed(value, []) ==> ok
    ensures ok ==> FlagOk(t.nodes, t.needsPointerResolution)
    ensures t.isActiveStateDirty
  {
    PutRootComponent(t, backend, value, typeId, last);
    ghost var before := t.nodes;
    NewRootReady(before, value, home);
    ghost var rank := SyncFacts.RankExists(t.nodes);
    ok := SyncTree(t, backend, next, map[], last, rank, home);
    if ok {
      SyncFacts.NothingLeftToSync(before, t.nodes, next);
    }
  }

  lemma NewRootReady(nodes: Nodes, value: Value, home: map<nat, Path>)
    requires nodes.Keys == {[]} && nodes[[]].IsComponent() && nodes[[]].state == NeedSyncStructure &&
             nodes[[]].value == Some(value)
    requires FreshValue(ComponentField, value) && ValueAtHome(value, [], home)
    ensures NodesOk(nodes, []) && AllAtHome(nodes, home) && SyncFacts.NothingBlocked(nodes)
    ensures (ValueNamed(value, []) ==> AllNamed(nodes, [])) && FlagOk(nodes, false)
  {
    FreshFieldsOk(nodes, value, []);
  }

  method SetRootType(t: Tree, backend: Backend, typeId: int, ghost last: VersionedTransition)
    requires InTransaction(t, backend, map[], last) && t.nodes.Keys == {[]} && t.nodes[[]].IsComponent() &&
             Dirty(t.nodes[[]])
    modifies t`nodes
    ensures InTransaction(t, backend, map[], last)
    ensures var root := old(t.nodes)[[]];
            t.nodes ==
              map[[] :=
                  root.(serialized :=
                        Some(root.serialized.value.(attributes :=
                                                    root.serialized.value.attributes.(typeId := typeId))))]
  {
    ghost var before := t.nodes;
    var root := t.nodes[[]];
    var n :=
      root.(serialized :=
            Some(root.serialized.value.(attributes := root.serialized.value.attributes.(typeId := typeId))));
    ReplaceRecord(t, [], n);
    assert t.nodes == map[[] := n];
    RetypedRoot(before, n, t.deletedNodes, last);
  }

  lemma RetypedRoot(before: Nodes, n: Node, deleted: set<string>, last: VersionedTransition)
    requires before.Keys == {[]} && before[[]].IsComponent() && Dirty(before[[]]) && TxInv(before, deleted, map[]) &&
             Quiet(before, last)
    requires n.IsComponent() && n.state == before[[]].state && n.encodedPath == before[[]].encodedPath
    requires TasksOf(n) == TasksOf(before[[]]) &&
             n.serialized.value.lastUpdate == before[[]].serialized.value.lastUpdate
    ensures TxInv(map[[] := n], deleted, map[]) && Quiet(map[[] := n], last) && CompsOf(map[[] := n]) == CompsOf(before)
  {
    var nodes: Nodes := map[[] := n];
    assert NodePersisted(before, deleted, map[], []);
    assert QuietNode(before[[]], last);
    SameMap(CompsOf(nodes), CompsOf(before));
  }

  lemma RootIsWritten(before: Nodes, synced: Nodes, resolved: Nodes, next: VersionedTransition, codec: Codec,
                      mutation: Mutation, nodes: Nodes)
    requires [] in before && before[[]].state == NeedSerialize &&
             NothingLost(before, synced, resolved, next, codec, mutation, nodes)
    ensures mutation.updated != map[]
  {
    assert Same(synced, []) == SyncedNode(before, [], [], next);
    ResolvedStates(synced, resolved);
    assert ContentAt(resolved, next, codec, mutation, nodes, []);
  }

  /** An execution can be created with this root component: the tree that sync makes of it can
      be closed. */
  ghost predicate CanCreate(workflowArchetype: int, value: Value, typeId: Option<int>, next: VersionedTransition,
                            validators: Validators, newTasks: map<nat, seq<NewTask>>)
  {
    var root := RootWith(EmptyTree(workflowArchetype, next)[[]], value, typeId);
    && ValueNamed(value, [])
    && forall synced | WholeSync(map[[] := root], synced, next) :: Closable(synced, true, validators, newTasks)
  }

  lemma NothingBelowRoot(nodes: Nodes, q: Path, next: VersionedTransition)
    requires [] in nodes && Unsynced(nodes[[]]) && nodes[[]].value.value.fields == map[] && q != []
    ensures SyncedNode(nodes, [], q, next) == None
  {
    assert FieldNode(nodes, map[], [], q, next) == None;
  }

  /** It can be with a component without fields and tasks. */
  lemma SmallestExecution(workflowArchetype: int, id: nat, typeId: Option<int>, next: VersionedTransition,
                          validators: Validators)
    ensures CanCreate(workflowArchetype, Object(id, map[]), typeId, next, validators, map[])
  {
    var root := RootWith(EmptyTree(workflowArchetype, next)[[]], Object(id, map[]), typeId);
    var nodes: Nodes := map[[] := root];
    forall synced | WholeSync(nodes, synced, next)
      ensures Closable(synced, true, validators, map[])
    {
      assert Same(synced, []) == SyncedNode(nodes, [], [], next);
      forall q | q != []
        ensures q !in synced
      {
        NothingBelowRoot(nodes, q, next);
        assert Same(synced, q) == SyncedNode(nodes, [], q, next);
      }
    }
  }

  /** From nothing to the first persisted tree. */
  method CreateExecution(workflowArchetype: int, value: Value, typeId: Option<int>, next: VersionedTransition,
                         codec: Codec, validators: Validators, newTasks: map<nat, seq<NewTask>>, chooses: Time -> bool,
                         ghost home: map<nat, Path>)
    returns (ok: bool, t: Tree, backend: Backend, mutation: Mutation)
    requires FreshValue(ComponentField, value) && ValueAtHome(value, [], home) && CompareVT(ZERO_VT, next) < 0
    ensures CanCreate(workflowArchetype, value, typeId, next, validators, newTasks) ==> ok
    ensures ok ==> AtRest(t, backend, mutation.updated, next) && FullImage(t.nodes, mutation.updated)
  {
    t, backend := NewExecution(workflowArchetype, next);
    mutation := Mutation(map[], {});
    ghost var root := RootWith(t.nodes[[]], value, typeId);
    ok := SetRootComponent(t, backend, value, typeId, next, ZERO_VT, home);
    if ok {
      assert Same(t.nodes, []) == SyncedNode(map[[] := root], [], [], next);
      ok, mutation := CloseFirst(t, backend, next, codec, validators, newTasks, chooses, home);
    }
  }

  lemma AppliedToNothing(mutation: Mutation)
    ensures mutation.Apply(map[]) == mutation.updated
  {
  }

  method CloseFirst(t: Tree, backend: Backend, next: VersionedTransition, codec: Codec, validators: Validators,
                    newTasks: map<nat, seq<NewTask>>, chooses: Time -> bool, ghost home: map<nat, Path>)
    returns (ok: bool, mutation: Mutation)
    requires InTransaction(t, backend, map[], ZERO_VT) && AllAtHome(t.nodes, home) && SyncFacts.NothingToSync(t.nodes)
    requires t.nodes[[]].state == NeedSerialize && CompareVT(ZERO_VT, next) < 0
    modifies t, backend
    ensures FlagOk(old(t.nodes), old(t.needsPointerResolution)) &&
            Closable(old(t.nodes), true, validators, newTasks) ==>
              ok
    ensures ok ==> AtRest(t, backend, mutation.updated, next) && FullImage(t.nodes, mutation.updated)
  {
    ghost var before := t.nodes;
    ghost var rank := SyncFacts.RankExists(before);
    if FlagOk(before, t.needsPointerResolution) {
      SettledWillClose(before, t.needsPointerResolution, next, validators, newTasks);
    }
    ghost var synced, gone, resolved, visited, input, dropped;
    ok, mutation, synced, gone, resolved, visited, input, dropped :=
      CloseTransaction(t, backend, next, codec, validators, newTasks, chooses, map[], ZERO_VT, rank, home);
    if ok {
      RootIsWritten(before, synced, resolved, next, codec, mutation, t.nodes);
      AppliedToNothing(mutation);
      WrittenImage(t.nodes, mutation.updated);
    }
  }
}
