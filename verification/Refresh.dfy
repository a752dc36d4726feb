/** RefreshTasks on the tree (chasm/tree.go): every task loses its physical task, and what
    changes is persisted without being replicated. */
module Refresh {
  import opened Basics
  import opened PathEncoder
  import opened Tasks
  import opened ChasmTree
  import opened Transaction
  import opened CloseTree
  import opened Runs

  /** Resetting changes something. */
  predicate HasPhysicalTask(n: Node) {
    n.IsComponent() && ResetLists(TasksOf(n)) != TasksOf(n)
  }

  /** What RefreshTasks makes of a node. */
  ghost predicate RefreshedNode(before: Node, after: Node, key: string) {
    if HasPhysicalTask(before) then SameButCache(WithTasks(before, ResetLists(TasksOf(before))), after, key)
    else after == before
  }

  ghost predicate RefreshedSoFar(start: Nodes, done: set<Path>, nodes: Nodes) {
    && nodes.Keys == start.Keys
    && (forall q | q in start && q in done :: RefreshedNode(start[q], nodes[q], Key(start, q)))
    && (forall q | q in start && q !in done :: nodes[q] == start[q])
  }

  /** The system mutation names exactly the nodes that have changed, besides what it had. */
  ghost predicate EntriesSoFar(start: Nodes, done: set<Path>, system: map<string, Path>, system': map<string, Path>) {
    && (forall q | q in start && q in done && HasPhysicalTask(start[q]) ::
          Key(start, q) in system' && system'[Key(start, q)] == q)
    && (forall k | k in system' ::
          (k in system && system'[k] == system[k]) ||
          (system'[k] in start && system'[k] in done && HasPhysicalTask(start[system'[k]]) &&
           Key(start, system'[k]) == k))
  }

  lemma RefreshedKeys(start: Nodes, done: set<Path>, nodes: Nodes)
    requires RefreshedSoFar(start, done, nodes)
    ensures forall q | q in start :: Key(nodes, q) == Key(start, q)
  {
    forall q | q in start
      ensures nodes[q].IsMap() == start[q].IsMap()
      ensures nodes[q].encodedPath == start[q].encodedPath || nodes[q].encodedPath == Some(Key(start, q))
    {
      if q in done {
        assert RefreshedNode(start[q], nodes[q], Key(start, q));
      }
    }
    forall q | q in start
      ensures Key(nodes, q) == Key(start, q)
    {
      assert nodes[q].encodedPath == start[q].encodedPath || nodes[q].encodedPath == Some(Key(start, q));
    }
  }

  lemma RefreshedOneMore(start: Nodes, done: set<Path>, nodes: Nodes, q: Path, nodes': Nodes)
    requires RefreshedSoFar(start, done, nodes) && q in start && q !in done && nodes'.Keys == nodes.Keys
    requires forall r | r in nodes && r != q :: nodes'[r] == nodes[r]
    requires RefreshedNode(start[q], nodes'[q], Key(start, q))
    ensures RefreshedSoFar(start, done + {q}, nodes')
  {
  }

  lemma KeysDiffer(nodes: Nodes, q: Path)
    requires AllKeysDecode(nodes) && q in nodes
    ensures forall r | r in nodes && r != q :: Key(nodes, r) != Key(nodes, q)
  {
  }

  lemma EntriesOneMore(start: Nodes, done: set<Path>, q: Path, system: map<string, Path>, system': map<string, Path>)
    requires AllKeysDecode(start) && q in start && q !in done && EntriesSoFar(start, done, system, system')
    ensures EntriesSoFar(start, done + {q}, system, if HasPhysicalTask(start[q]) then system'[Key(start, q) := q]
                         else system')
  {
    KeysDiffer(start, q);
    if HasPhysicalTask(start[q]) {
      AddEntry(start, done, q, system, system');
    }
  }

  lemma AddEntry(start: Nodes, done: set<Path>, q: Path, system: map<string, Path>, system': map<string, Path>)
    requires q in start && q !in done && EntriesSoFar(start, done, system, system') && HasPhysicalTask(start[q])
    requires forall r | r in start && r != q :: Key(start, r) != Key(start, q)
    ensures EntriesSoFar(start, done + {q}, system, system'[Key(start, q) := q])
  {
    var after := system'[Key(start, q) := q];
    forall r | r in start && r in done + {q} && HasPhysicalTask(start[r])
      ensures Key(start, r) in after && after[Key(start, r)] == r
    {
    }
  }

  /** resetTaskStatus, and the entry for a node that it changes. */
  method ResetNode(t: Tree, q: Path) returns (ok: bool)
    requires t.Valid() && q in t.nodes
    modifies t`nodes, t`systemUpdatedNodes
    ensures ok ==> t.Valid() && t.nodes.Keys == old(t.nodes).Keys
    ensures ok ==> forall r | r in t.nodes && r != q :: t.nodes[r] == old(t.nodes)[r]
    ensures ok ==> RefreshedNode(old(t.nodes)[q], t.nodes[q], Key(old(t.nodes), q))
    ensures ok ==> t.systemUpdatedNodes == if HasPhysicalTask(old(t.nodes)[q]) then
            old(t.systemUpdatedNodes)[Key(old(t.nodes), q) := q]
                                           else old(t.systemUpdatedNodes)
    ensures ok <==> (HasPhysicalTask(old(t.nodes)[q]) ==> Encodable(old(t.nodes), q))
  {
    if !t.nodes[q].IsComponent() {
      return true;
    }
    var lists, reset := ResetTaskStatus(TasksOf(t.nodes[q]));
    if !reset {
      return true;
    }
    ReplaceRecord(t, q, WithTasks(t.nodes[q], lists));
    var key := t.GetEncodedPath(q);
    ok := key.Ok?;
    if ok {
      t.systemUpdatedNodes := t.systemUpdatedNodes[key.value := q];
    }
  }

  method RefreshNode(t: Tree, q: Path, ghost start: Nodes, ghost done: set<Path>, ghost system: map<string, Path>)
    returns (ok: bool)
    requires t.Valid() && q in start && q !in done && AllKeysDecode(start)
    requires RefreshedSoFar(start, done, t.nodes) && EntriesSoFar(start, done, system, t.systemUpdatedNodes)
    modifies t`nodes, t`systemUpdatedNodes
    ensures ok ==> t.Valid()
    ensures ok ==> RefreshedSoFar(start, done + {q}, t.nodes) &&
                   EntriesSoFar(start, done + {q}, system, t.systemUpdatedNodes)
    ensures ok <==> (HasPhysicalTask(start[q]) ==> Encodable(start, q))
  {
    ghost var nodes := t.nodes;
    RefreshedKeys(start, done, nodes);
    EntriesOneMore(start, done, q, system, t.systemUpdatedNodes);
    ok := ResetNode(t, q);
    if ok {
      RefreshedOneMore(start, done, nodes, q, t.nodes);
    }
  }

  method RefreshTasks(t: Tree) returns (ok: bool)
    requires t.Valid() && AllKeysDecode(t.nodes)
    modifies t`nodes, t`systemUpdatedNodes
    ensures ok ==> t.Valid() && RefreshedSoFar(old(t.nodes), old(t.nodes).Keys, t.nodes)
    ensures ok ==> EntriesSoFar(old(t.nodes), old(t.nodes).Keys, old(t.systemUpdatedNodes), t.systemUpdatedNodes)
    ensures (forall q | q in old(t.nodes) :: Encodable(old(t.nodes), q)) ==> ok
  {
    ghost var start, system := t.nodes, t.systemUpdatedNodes;
    var order := WholePreOrder(t);
    FirstOfAll(order, start.Keys);
    ok := true;
    for i := 0 to |order|
      invariant t.Valid() && RefreshedSoFar(start, FirstOf(order, i), t.nodes)
      invariant EntriesSoFar(start, FirstOf(order, i), system, t.systemUpdatedNodes)
    {
      FirstOneMore(order, i);
      ok := RefreshNode(t, order[i], start, FirstOf(order, i), system);
      if !ok {
        return;
      }
    }
  }

  /** A component is reset exactly if one of its tasks, of either kind, has a physical task; all
      of them then lose theirs, and nothing else of the component changes. */
  lemma RefreshedExactly(before: Node, after: Node, key: string)
    requires before.IsComponent() && RefreshedNode(before, after, key)
    ensures var lists := TasksOf(before);
            if exists t :: (t in lists.side || t in lists.pure) && t.status == Created then
              && after.IsComponent()
              && AllReset(lists.side, TasksOf(after).side) && AllReset(lists.pure, TasksOf(after).pure)
              && after == before.(serialized := after.serialized, encodedPath := after.encodedPath)
              && after.serialized.value ==
                 before.serialized.value.(attributes := before.serialized.value.attributes.(tasks := TasksOf(after)))
            else after == before
  {
    var lists := TasksOf(before);
    ResetChanges(lists.side);
    ResetChanges(lists.pure);
  }

  predicate AllReset(before: seq<Task>, after: seq<Task>) {
    |after| == |before| && forall i | 0 <= i < |before| :: after[i] == before[i].(status := NotCreated)
  }

  lemma ResetChanges(tasks: seq<Task>)
    ensures Reset(tasks) != tasks <==> exists t :: t in tasks && t.status == Created
  {
    if t :| t in tasks && t.status == Created {
      var i :| 0 <= i < |tasks| && tasks[i] == t;
      assert Reset(tasks)[i] != tasks[i];
    } else {
      assert forall i | 0 <= i < |tasks| :: tasks[i] in tasks;
      assert Reset(tasks) == tasks;
    }
  }

  /** On the task lists this is the refresh step of the cluster runs. */
  lemma RefreshIsStep(start: Nodes, nodes: Nodes, s: Cluster)
    requires RefreshedSoFar(start, start.Keys, nodes) && s.comps == CompsOf(start)
    ensures CompsOf(nodes) == Exec(s, Event.RefreshTasks).comps
  {
    forall q | q in start
      ensures nodes[q].IsComponent() == start[q].IsComponent()
      ensures start[q].IsComponent() ==> TasksOf(nodes[q]) == ResetLists(TasksOf(start[q]))
    {
      assert RefreshedNode(start[q], nodes[q], Key(start, q));
    }
    SameMap(CompsOf(nodes), Exec(s, Event.RefreshTasks).comps);
  }
}
