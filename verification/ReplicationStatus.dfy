/** The physical task statuses after replication (chasm/tree.go, applyUpdates): they are
    cluster-local, so a record must not bring along those of its source. */
module ReplicationStatus {
  import opened Basics
  import opened PathEncoder
  import opened Tasks
  import opened TaskFacts
  import opened ChasmTree
  import opened Replication
  import opened ReplicationApply
  import Convergence

  // ----- The exact record

  /** The record at a position after applyUpdates has taken an update for it; `gap` says that
      there was an empty node, because an update below came first. */
  function Arriving(local: Option<Node>, incoming: ChasmNode, gap: bool): ChasmNode {
    match local
    case None => if gap then incoming else Sanitized(incoming)
    case Some(n) =>
      if n.serialized.Some? && CompareVT(n.serialized.value.lastUpdate, incoming.lastUpdate) == 0 then
         n.serialized.value
      else CarriedOver(n.serialized, incoming)
  }

  function At(nodes: Nodes, q: Path): Option<Node> {
    if q in nodes then Some(nodes[q]) else None
  }

  function RecordAt(nodes: Nodes, q: Path): Option<ChasmNode> {
    if q in nodes then nodes[q].serialized else None
  }

  lemma NotTouchedYet(order: seq<string>, updates: Records, i: nat)
    requires i < |order| && NoRepeats(order) && OneKeyPerPath(updates)
    requires forall k | k in order :: k in updates && Decoded(k).Ok?
    ensures !Touched(order[..i], Decoded(order[i]).value)
  {
    assert forall k | k in order[..i] :: k in order && k != order[i];
  }

  lemma ArrivesInStep(nodes: Nodes, order: seq<string>, updates: Records)
    requires order != [] && PrefixClosed(nodes) && OneKeyPerPath(updates) && NoRepeats(order)
    requires forall k | k in order :: k in updates && Decoded(k).Ok?
    ensures var n := |order| - 1;
            var q := Decoded(order[n]).value;
            var result := UpdatedAll(nodes, order, updates);
            q in result && result[q].serialized == Some(Arriving(At(nodes, q), updates[order[n]], Above(order[..n], q)))
  {
    var n := |order| - 1;
    var q := Decoded(order[n]).value;
    NoRepeatsInit(order);
    UpdatedAllOutcome(nodes, order[..n], updates);
    NotTouchedYet(order, updates, n);
    var before := UpdatedAll(nodes, order[..n], updates);
    assert q in before ==> before[q] == if q in nodes then nodes[q] else NEW_NODE;
  }

  /** Whatever the order, each update arrives as it does at its turn: an existing component
      keeps its statuses, a new one starts without, unless there is an empty node for it. */
  lemma {:induction false} ExactRecord(nodes: Nodes, order: seq<string>, updates: Records, i: nat)
    requires i < |order| && PrefixClosed(nodes) && OneKeyPerPath(updates) && NoRepeats(order)
    requires forall k | k in order :: k in updates && Decoded(k).Ok?
    ensures var q := Decoded(order[i]).value;
            var result := UpdatedAll(nodes, order, updates);
            q in result && result[q].serialized == Some(Arriving(At(nodes, q), updates[order[i]], Above(order[..i], q)))
  {
    var n := |order| - 1;
    NoRepeatsInit(order);
    if i == n {
      ArrivesInStep(nodes, order, updates);
    } else {
      ExactRecord(nodes, order[..n], updates, i);
      assert order[..n][..i] == order[..i];
      NotTouchedYet(order, updates, n);
      assert order[i] in order[..n] by {
        assert order[..n][i] == order[i];
      }
      assert Decoded(order[i]) != Decoded(order[n]);
      LastUpdateElsewhere(nodes, order, updates, Decoded(order[i]).value);
    }
  }

  lemma LastUpdateElsewhere(nodes: Nodes, order: seq<string>, updates: Records, q: Path)
    requires order != [] && forall k | k in order :: k in updates && Decoded(k).Ok?
    requires q in UpdatedAll(nodes, order[..|order| - 1], updates) && q != Decoded(order[|order| - 1]).value
    ensures q in UpdatedAll(nodes, order, updates)
    ensures UpdatedAll(nodes, order, updates)[q] == UpdatedAll(nodes, order[..|order| - 1], updates)[q]
  {
  }

  /** The update changes the record at its position. */
  predicate Changes(nodes: Nodes, q: Path, incoming: ChasmNode) {
    q in nodes ==> NeedsUpdate(nodes[q], incoming)
  }

  lemma RecordedInStep(nodes: Nodes, order: seq<string>, updates: Records)
    requires order != [] && PrefixClosed(nodes) && OneKeyPerPath(updates) && NoRepeats(order)
    requires forall k | k in order :: k in updates && Decoded(k).Ok?
    ensures var k := order[|order| - 1];
            Applies(UpdatedAll(nodes, order[..|order| - 1], updates), k, updates[k]) <==>
              Changes(nodes, Decoded(k).value, updates[k])
  {
    var n := |order| - 1;
    var q := Decoded(order[n]).value;
    NoRepeatsInit(order);
    UpdatedAllOutcome(nodes, order[..n], updates);
    NotTouchedYet(order, updates, n);
    var before := UpdatedAll(nodes, order[..n], updates);
    assert q in before ==> before[q] == if q in nodes then nodes[q] else NEW_NODE;
  }

  /** The mutation of the standby holds exactly the updates that change something, whatever
      order they are taken in. */
  lemma {:induction false} RecordedExactly(nodes: Nodes, order: seq<string>, updates: Records)
    requires PrefixClosed(nodes) && OneKeyPerPath(updates) && NoRepeats(order)
    requires forall k | k in order :: k in updates && Decoded(k).Ok?
    ensures forall k ::
              k in RecordedAll(nodes, order, updates) <==> k in order && Changes(nodes, Decoded(k).value, updates[k])
    ensures forall k | k in RecordedAll(nodes, order, updates) ::
              RecordedAll(nodes, order, updates)[k] == Decoded(k).value
  {
    if order == [] {
    } else {
      NoRepeatsInit(order);
      RecordedExactly(nodes, order[..|order| - 1], updates);
      RecordedInStep(nodes, order, updates);
    }
  }

  // ----- When statuses leak

  /** The record holds no status of the source that `q` would take over. */
  predicate Clear(incoming: ChasmNode) {
    Sanitized(incoming) == incoming
  }

  /** An update brings statuses of the source along in two ways: to an empty node that stands
      where there was none, because an update below came first (`gap`), and to a node that is
      no component and that it makes one. */
  predicate BringsStatuses(local: Option<Node>, incoming: ChasmNode, gap: bool) {
    && !Clear(incoming)
    && match local
       case None => gap
       case Some(n) => !n.IsComponent() && NeedsUpdate(n, incoming)
  }

  ghost predicate HasUpdateBelow(updates: Records, k: string)
    requires Decoded(k).Ok?
  {
    exists l :: l in updates && l != k && Decoded(l).Ok? && Decoded(k).value <= Decoded(l).value
  }

  /** An update that brings statuses along in some order. */
  ghost predicate Exposed(nodes: Nodes, updates: Records, k: string) {
    && k in updates && Decoded(k).Ok?
    && BringsStatuses(At(nodes, Decoded(k).value), updates[k], HasUpdateBelow(updates, k))
  }

  function ListsOf(n: Option<Node>): TaskLists {
    if n.Some? && n.value.IsComponent() then n.value.serialized.value.attributes.tasks else TaskLists([], [])
  }

  /** Each task with a physical task has had it before, under its key. */
  ghost predicate FromLocal(order: Order, local: seq<Task>, tasks: seq<Task>) {
    forall t | t in tasks && t.status == Created ::
      exists u :: u in local && u.status == Created && Compare(order, u, t) == 0
  }

  /** No task of the record is marked Created unless its local counterpart was. */
  ghost predicate Unleaked(local: Option<Node>, r: ChasmNode) {
    r.attributes.Component? ==>
      && FromLocal(BySideEffectKey, ListsOf(local).side, r.attributes.tasks.side)
      && FromLocal(ByPureKey, ListsOf(local).pure, r.attributes.tasks.pure)
  }

  lemma MergedFromLocal(order: Order, local: seq<Task>, incoming: seq<Task>)
    ensures FromLocal(order, local, Merge(order, local, incoming))
  {
    var out := Merge(order, local, incoming);
    forall t | t in out && t.status == Created
      ensures exists u :: u in local && u.status == Created && Compare(order, u, t) == 0
    {
      var j :| 0 <= j < |out| && out[j] == t;
      MergeKeepsTasks(order, local, incoming, j);
      var i :| 0 <= i < |local| && local[i].status == Created && Compare(order, local[i], incoming[j]) == 0;
      assert local[i] in local && Compare(order, local[i], t) == 0;
    }
  }

  lemma SameFromLocal(order: Order, tasks: seq<Task>)
    ensures FromLocal(order, tasks, tasks)
  {
    forall t | t in tasks
      ensures Compare(order, t, t) == 0
    {
      CompareIsOrder(order, t, t, t);
    }
  }

  lemma ResetClears(tasks: seq<Task>)
    ensures Reset(tasks) == tasks <==> forall t | t in tasks :: t.status == NotCreated
    ensures forall t | t in Reset(tasks) :: t.status == NotCreated
  {
    if forall t | t in tasks :: t.status == NotCreated {
      assert forall i | 0 <= i < |tasks| :: tasks[i] in tasks;
    } else {
      var t :| t in tasks && t.status != NotCreated;
      var i :| 0 <= i < |tasks| && tasks[i] == t;
      assert Reset(tasks)[i] != tasks[i];
    }
  }

  lemma ClearTasks(incoming: ChasmNode)
    requires incoming.attributes.Component?
    ensures Clear(incoming) <==> forall t | t in incoming.attributes.tasks.side + incoming.attributes.tasks.pure ::
                                   t.status == NotCreated
    ensures Unleaked(None, Sanitized(incoming))
    ensures Unleaked(None, incoming) <==> Clear(incoming)
  {
    ResetClears(incoming.attributes.tasks.side);
    ResetClears(incoming.attributes.tasks.pure);
  }

  lemma CarriedUnleaked(n: Node, incoming: ChasmNode)
    requires n.serialized.Some?
    ensures Unleaked(Some(n), n.serialized.value)
    ensures n.IsComponent() ==> Unleaked(Some(n), CarriedOver(n.serialized, incoming))
  {
    if n.IsComponent() {
      var lists := ListsOf(Some(n));
      SameFromLocal(BySideEffectKey, lists.side);
      SameFromLocal(ByPureKey, lists.pure);
      if incoming.attributes.Component? {
        MergedFromLocal(BySideEffectKey, lists.side, incoming.attributes.tasks.side);
        MergedFromLocal(ByPureKey, lists.pure, incoming.attributes.tasks.pure);
      }
    }
  }

  lemma BroughtUnleaked(local: Option<Node>, incoming: ChasmNode)
    requires local.Some? ==> !local.value.IsComponent()
    ensures Unleaked(local, incoming) <==> Clear(incoming)
    ensures Unleaked(local, Sanitized(incoming))
  {
    assert ListsOf(local) == ListsOf(None);
    if incoming.attributes.Component? {
      ClearTasks(incoming);
    }
  }

  /** What arrives holds foreign statuses exactly if it is brought along in one of the two ways. */
  lemma ArrivesUnleaked(local: Option<Node>, incoming: ChasmNode, gap: bool)
    ensures Unleaked(local, Arriving(local, incoming, gap)) <==> !BringsStatuses(local, incoming, gap)
  {
    if local.Some? && local.value.serialized.Some? {
      CarriedUnleaked(local.value, incoming);
    }
    if local.Some? ==> !local.value.IsComponent() {
      BroughtUnleaked(local, incoming);
    }
  }

  /** Every update has arrived without statuses of the source, and a new node is otherwise as
      it was sent. */
  ghost predicate AllReset(nodes: Nodes, updates: Records, result: Nodes)
    requires Decodable(updates)
  {
    forall k | k in updates :: ArrivedReset(nodes, updates, result, k)
  }

  ghost predicate ArrivedReset(nodes: Nodes, updates: Records, result: Nodes, k: string)
    requires k in updates && Decoded(k).Ok?
  {
    var q := Decoded(k).value;
    && q in result && result[q].serialized.Some? && Unleaked(At(nodes, q), result[q].serialized.value)
    && (q !in nodes ==> result[q].serialized == Some(Sanitized(updates[k])))
  }

  lemma EarlierUpdateBelow(order: seq<string>, i: nat, updates: Records)
    requires i < |order| && NoRepeats(order) && Decoded(order[i]).Ok? && Above(order[..i], Decoded(order[i]).value)
    requires forall k | k in order :: k in updates
    ensures exists l :: l in updates && l != order[i] && Decoded(l).Ok? && Decoded(order[i]).value <= Decoded(l).value
  {
    var l :| l in order[..i] && Decoded(l).Ok? && Decoded(order[i]).value <= Decoded(l).value;
    var j :| 0 <= j < i && order[j] == l;
  }

  /** Without an exposed update, all arrive without statuses of the source in every order. */
  lemma ResetWhenNotExposed(nodes: Nodes, order: seq<string>, updates: Records)
    requires PrefixClosed(nodes) && Decodable(updates) && OneKeyPerPath(updates) && Enumerates(order, updates.Keys)
    requires forall k :: !Exposed(nodes, updates, k)
    ensures AllReset(nodes, updates, UpdatedAll(nodes, order, updates))
  {
    forall k | k in updates
      ensures ArrivedReset(nodes, updates, UpdatedAll(nodes, order, updates), k)
    {
      var i :| 0 <= i < |order| && order[i] == k;
      ExactRecord(nodes, order, updates, i);
      var gap := Above(order[..i], Decoded(k).value);
      if gap {
        EarlierUpdateBelow(order, i, updates);
      }
      assert !Exposed(nodes, updates, k);
      ArrivesUnleaked(At(nodes, Decoded(k).value), updates[k], gap);
    }
  }

  lemma {:induction false} SomeOrder<T>(s: set<T>) returns (order: seq<T>)
    ensures Enumerates(order, s)
    decreases |s|
  {
    order := [];
    if s != {} {
      var x :| x in s;
      var rest := SomeOrder(s - {x});
      order := rest + [x];
      EnumeratesOneMore(rest, s - {x}, x);
      assert s == (s - {x}) + {x};
    }
  }

  /** An exposed update does bring its statuses along, in some order. */
  lemma ExposedLeaks(nodes: Nodes, updates: Records, k: string) returns (order: seq<string>)
    requires PrefixClosed(nodes) && Decodable(updates) && OneKeyPerPath(updates) && Exposed(nodes, updates, k)
    ensures Enumerates(order, updates.Keys)
    ensures Decoded(k).value in UpdatedAll(nodes, order, updates)
    ensures UpdatedAll(nodes, order, updates)[Decoded(k).value].serialized == Some(updates[k])
    ensures !AllReset(nodes, updates, UpdatedAll(nodes, order, updates))
  {
    var rest := SomeOrder(updates.Keys - {k});
    order := rest + [k];
    EnumeratesOneMore(rest, updates.Keys - {k}, k);
    assert updates.Keys == (updates.Keys - {k}) + {k};
    assert order[..|rest|] == rest;
    var q := Decoded(k).value;
    ExactRecord(nodes, order, updates, |rest|);
    if q !in nodes {
      var l :| l in updates && l != k && Decoded(l).Ok? && q <= Decoded(l).value;
      assert l in rest;
    }
    ArrivesUnleaked(At(nodes, q), updates[k], Above(rest, q));
    assert !ArrivedReset(nodes, updates, UpdatedAll(nodes, order, updates), k);
  }

  /** No update brings statuses of the source along, in any order in which the map of updates
      may be iterated, exactly if none is exposed. */
  lemma StatusesResetInEveryOrder(nodes: Nodes, updates: Records)
    requires PrefixClosed(nodes) && Decodable(updates) && OneKeyPerPath(updates)
    ensures (forall order | Enumerates(order, updates.Keys) &&
             (forall k | k in order :: k in updates && Decoded(k).Ok?) ::
               AllReset(nodes, updates, UpdatedAll(nodes, order, updates))) <==>
            forall k :: !Exposed(nodes, updates, k)
  {
    if k :| Exposed(nodes, updates, k) {
      var order := ExposedLeaks(nodes, updates, k);
      assert forall k | k in order :: k in updates && Decoded(k).Ok?;
    } else {
      forall order | Enumerates(order, updates.Keys) && (forall k | k in order :: k in updates && Decoded(k).Ok?)
        ensures AllReset(nodes, updates, UpdatedAll(nodes, order, updates))
      {
        ResetWhenNotExposed(nodes, order, updates);
      }
    }
  }

  /** The smallest case: a new component and a new child of it.  Taken child first, the
      component is filled into an empty node, and its task is believed to have a physical
      task in this cluster, which it has not. */
  lemma ChildFirstLeaks(task: Task, child: ChasmNode)
    requires task.status == Created
    ensures var empty := ChasmNode(ZERO_VT, ZERO_VT, 0, Component(0, false, TaskLists([], [])));
            var root := Node(Some(empty), None, NeedDeserialize, None);
            var parent := ChasmNode(ZERO_VT, VT(1, 1), 0, Component(0, false, TaskLists([task], [])));
            var updates := map["a" := parent, "a$b" := child];
            var nodes := map[[] := root];
            && Decodable(updates) && OneKeyPerPath(updates)
            && RecordAt(UpdatedAll(nodes, ["a$b", "a"], updates), ["a"]) == Some(parent)
            && RecordAt(UpdatedAll(nodes, ["a", "a$b"], updates), ["a"]) == Some(Sanitized(parent))
            && Sanitized(parent) != parent
  {
    var root :=
      Node(Some(ChasmNode(ZERO_VT, ZERO_VT, 0, Component(0, false, TaskLists([], [])))), None, NeedDeserialize, None);
    var parent := ChasmNode(ZERO_VT, VT(1, 1), 0, Component(0, false, TaskLists([task], [])));
    var updates := map["a" := parent, "a$b" := child];
    var nodes: Nodes := map[[] := root];
    Convergence.DecodesOfExample();
    ExactRecord(nodes, ["a$b", "a"], updates, 1);
    ExactRecord(nodes, ["a", "a$b"], updates, 0);
    assert ["a$b", "a"][..1] == ["a$b"];
    assert Above(["a$b"], ["a"]) by {
      assert "a$b" in ["a$b"] && ["a"] <= ["a", "b"];
    }
    assert Reset([task])[0].status == NotCreated;
  }
}
