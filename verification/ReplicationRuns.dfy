/** Applying a snapshot (chasm/tree.go) is, on the task lists, the replication step of the
    cluster runs; so what holds in every run holds across replication of the tree. */
module ReplicationRuns {
  import opened Basics
  import opened PathEncoder
  import opened Tasks
  import opened TaskFacts
  import opened ChasmTree
  import opened Replication
  import opened ReplicationApply
  import opened ReplicationStatus
  import Convergence
  import opened CloseTasks
  import opened CloseTree
  import opened Runs

  // ----- Carrying over from a list of the same tasks

  lemma StripSame(a: seq<Task>, b: seq<Task>)
    requires StripTasks(a) == StripTasks(b)
    ensures |a| == |b| && forall i | 0 <= i < |a| :: StripTask(a[i]) == StripTask(b[i])
  {
    forall i | 0 <= i < |a|
      ensures StripTask(a[i]) == StripTask(b[i])
    {
      assert StripTasks(a)[i] == StripTasks(b)[i];
    }
  }

  lemma MergeOfSame(order: Order, local: seq<Task>, incoming: seq<Task>)
    requires Sorted(order, local) && StripTasks(local) == StripTasks(incoming)
    ensures Merge(order, local, incoming) == local
  {
    StripSame(local, incoming);
    forall i | 0 <= i < |local|
      ensures local[i] == incoming[i].(status := local[i].status, data := local[i].data)
    {
      assert StripTask(local[i]) == StripTask(incoming[i]);
    }
    MergeSameTasks(order, local, incoming);
  }

  lemma {:induction false} MergeSameTasks(order: Order, local: seq<Task>, incoming: seq<Task>)
    requires |local| == |incoming|
    requires forall i | 0 <= i < |local| :: local[i] == incoming[i].(status := local[i].status, data := local[i].data)
    ensures Merge(order, local, incoming) == local
  {
    if local == [] {
    } else {
      CompareIsOrder(order, local[0], incoming[0], local[0]);
      MergeSameTasks(order, local[1..], incoming[1..]);
      assert local == [local[0]] + local[1..];
    }
  }

  lemma MergeListsOfSame(local: ChasmNode, incoming: ChasmNode)
    requires Strip(local) == Strip(incoming) && local.attributes.Component? && incoming.attributes.Component?
    requires WellFormed(local.attributes.tasks)
    ensures MergeLists(local.attributes.tasks, incoming.attributes.tasks) == local.attributes.tasks
  {
    MergeOfSame(BySideEffectKey, local.attributes.tasks.side, incoming.attributes.tasks.side);
    MergeOfSame(ByPureKey, local.attributes.tasks.pure, incoming.attributes.tasks.pure);
  }

  // ----- The incoming tree

  ghost function KeyFor(incoming: Records, p: Path): (k: string)
    requires p in Paths(incoming.Keys)
    ensures k in incoming && Decoded(k) == Ok(p)
  {
    var k :| k in incoming && Decoded(k) == Ok(p);
    k
  }

  /** The task lists of the incoming tree. */
  ghost function IncomingComps(incoming: Records): Components {
    map p | p in Paths(incoming.Keys) && incoming[KeyFor(incoming, p)].attributes.Component? ::
      incoming[KeyFor(incoming, p)].attributes.tasks
  }

  /** The nodes that ApplySnapshot does not delete. */
  ghost function KeptNodes(nodes: Nodes, incoming: Records): Nodes {
    RemainingNodes(nodes, Paths(SnapshotDeletions(RecordsAt(nodes, nodes.Keys, ZERO_VT), incoming)))
  }

  /** What a standby cluster may assume of the snapshots that it is sent. */
  ghost predicate Replicable(nodes: Nodes, incoming: Records) {
    && PrefixClosed(nodes) && AllSerialized(nodes) && WellKeyed(nodes) && Convergence.Versioned(nodes)
    && Convergence.WholeTree(incoming) && Convergence.NoOrphans(nodes, incoming)
    && Convergence.VersionsDetermineRecords(nodes, incoming)
    && forall p | p in CompsOf(nodes) :: WellFormed(CompsOf(nodes)[p])
  }

  /** The update taken at turn `i` brings statuses of the source along. */
  ghost predicate LeaksAt(nodes: Nodes, incoming: Records, order: seq<string>, i: nat) {
    && i < |order| && order[i] in incoming && Decoded(order[i]).Ok?
    && var p := Decoded(order[i]).value;
       BringsStatuses(At(KeptNodes(nodes, incoming), p), incoming[order[i]], Above(order[..i], p))
  }

  ghost predicate NothingLeaks(nodes: Nodes, incoming: Records, order: seq<string>) {
    forall i | 0 <= i < |order| :: !LeaksAt(nodes, incoming, order, i)
  }

  /** No update comes before that of a node above its own. */
  ghost predicate ParentsFirst(order: seq<string>) {
    forall i, j | 0 <= j < i < |order| && Decoded(order[i]).Ok? && Decoded(order[j]).Ok? ::
      !(Decoded(order[i]).value <= Decoded(order[j]).value)
  }

  /** The update makes a component of a node that is none. */
  ghost predicate MakesComponent(nodes: Nodes, incoming: Records, k: string) {
    && k in incoming && Decoded(k).Ok? && Decoded(k).value in nodes
    && !nodes[Decoded(k).value].IsComponent() && incoming[k].attributes.Component?
  }

  /** Taken parents first, updates leak nothing if none makes a component of a node that is
      none; nor do they in any order if none is exposed. */
  lemma ParentsFirstLeaksNothing(nodes: Nodes, incoming: Records, order: seq<string>)
    requires NoRepeats(order) && forall k | k in order :: k in incoming
    requires || (ParentsFirst(order) &&
                 forall k | k in order :: !MakesComponent(KeptNodes(nodes, incoming), incoming, k))
             || forall k :: !Exposed(KeptNodes(nodes, incoming), incoming, k)
    ensures NothingLeaks(nodes, incoming, order)
  {
    forall i | 0 <= i < |order|
      ensures !LeaksAt(nodes, incoming, order, i)
    {
      if Decoded(order[i]).Ok? {
        GapMeansUpdateBelow(order, i, incoming);
        assert order[i] in order;
        if ParentsFirst(order) {
          NoGapParentsFirst(order, i);
        }
        assert !Exposed(KeptNodes(nodes, incoming), incoming, order[i]) || ParentsFirst(order);
      }
    }
  }

  lemma NoGapParentsFirst(order: seq<string>, i: nat)
    requires ParentsFirst(order) && i < |order| && Decoded(order[i]).Ok?
    ensures !Above(order[..i], Decoded(order[i]).value)
  {
    forall k | k in order[..i] && Decoded(k).Ok?
      ensures !(Decoded(order[i]).value <= Decoded(k).value)
    {
      var j :| 0 <= j < i && order[j] == k;
    }
  }

  lemma GapMeansUpdateBelow(order: seq<string>, i: nat, updates: Records)
    requires i < |order| && NoRepeats(order) && Decoded(order[i]).Ok? && forall k | k in order :: k in updates
    ensures Above(order[..i], Decoded(order[i]).value) ==> HasUpdateBelow(updates, order[i])
  {
    if Above(order[..i], Decoded(order[i]).value) {
      EarlierUpdateBelow(order, i, updates);
    }
  }

  /** The tasks that one position ends up with. */
  ghost predicate TasksArrived(kept: Nodes, incoming: Records, result: Nodes, k: string)
    requires k in incoming && Decoded(k).Ok?
  {
    var p := Decoded(k).value;
    && p in result && result[p].serialized.Some?
    && result[p].IsComponent() == incoming[k].attributes.Component?
    && (incoming[k].attributes.Component? ==>
          TasksOf(result[p]) == if p in CompsOf(kept) then MergeLists(CompsOf(kept)[p], incoming[k].attributes.tasks)
                                else ResetLists(incoming[k].attributes.tasks))
  }

  /** Caching keys makes no difference to what is kept. */
  lemma KeptThroughCaching(nodes: Nodes, incoming: Records, cached: Nodes)
    requires PrefixClosed(nodes) && SameButCaches(nodes, cached)
    ensures var paths := Paths(SnapshotDeletions(RecordsAt(nodes, nodes.Keys, ZERO_VT), incoming));
            var rest := RemainingNodes(cached, paths);
            var kept := KeptNodes(nodes, incoming);
            && PrefixClosed(rest) && rest.Keys == kept.Keys
            && forall p | p in rest :: p in nodes && rest[p].serialized == kept[p].serialized == nodes[p].serialized
  {
    CachingKeepsKeys(nodes, cached);
    RemainingClosed(cached, Paths(SnapshotDeletions(RecordsAt(nodes, nodes.Keys, ZERO_VT), incoming)));
  }

  /** A record of the same version holds the same tasks, and keeps its statuses. */
  lemma SameVersionArrives(nodes: Nodes, incoming: Records, result: Nodes, k: string)
    requires Replicable(nodes, incoming) && k in incoming && Decoded(k).value in KeptNodes(nodes, incoming)
    requires nodes[Decoded(k).value].serialized.value.lastUpdate == incoming[k].lastUpdate
    requires Decoded(k).value in result && result[Decoded(k).value].serialized == nodes[Decoded(k).value].serialized
    ensures TasksArrived(KeptNodes(nodes, incoming), incoming, result, k)
  {
    var p := Decoded(k).value;
    assert Strip(nodes[p].serialized.value) == Strip(incoming[k]);
    if incoming[k].attributes.Component? {
      assert CompsOf(KeptNodes(nodes, incoming))[p] == CompsOf(nodes)[p] == TasksOf(nodes[p]);
      MergeListsOfSame(nodes[p].serialized.value, incoming[k]);
    }
  }

  /** What an update makes of the tasks, if it brings no statuses along. */
  lemma ArrivingTasks(local: Option<Node>, incoming: ChasmNode, gap: bool)
    requires incoming.attributes.Component? && !BringsStatuses(local, incoming, gap)
    requires local.Some? ==> NeedsUpdate(local.value, incoming)
    ensures var r := Arriving(local, incoming, gap);
            && r.attributes.Component?
            && r.attributes.tasks == if local.Some? && local.value.IsComponent() then
               MergeLists(TasksOf(local.value), incoming.attributes.tasks)
                                     else ResetLists(incoming.attributes.tasks)
  {
    assert Clear(incoming) ==> incoming.attributes.tasks == ResetLists(incoming.attributes.tasks);
  }

  /** The record that an update leaves. */
  lemma UpdateArrives(nodes: Nodes, incoming: Records, order: seq<string>, cached: Nodes, result: Nodes, i: nat)
    requires PrefixClosed(nodes) && Convergence.WholeTree(incoming)
    requires SnapshotEffect(nodes, incoming, order, cached, result) && i < |order|
    ensures order[i] in incoming
    ensures var p := Decoded(order[i]).value;
            && p in result
            && result[p].serialized ==
               Some(Arriving(At(KeptNodes(nodes, incoming), p), incoming[order[i]], Above(order[..i], p)))
  {
    var current := RecordsAt(nodes, nodes.Keys, ZERO_VT);
    assert order[i] in order;
    KeptThroughCaching(nodes, incoming, cached);
    ExactRecord(RemainingNodes(cached, Paths(SnapshotDeletions(current, incoming))), order,
                SnapshotUpdates(current, incoming), i);
  }

  lemma UpdateArrivesWithTasks(nodes: Nodes, incoming: Records, order: seq<string>, cached: Nodes, result: Nodes,
                               k: string)
    requires Replicable(nodes, incoming) && SnapshotEffect(nodes, incoming, order, cached, result) && k in incoming
    requires k in order && NothingLeaks(nodes, incoming, order)
    ensures TasksArrived(KeptNodes(nodes, incoming), incoming, result, k)
  {
    var kept := KeptNodes(nodes, incoming);
    var p := Decoded(k).value;
    var i :| 0 <= i < |order| && order[i] == k;
    var gap := Above(order[..i], p);
    UpdateArrives(nodes, incoming, order, cached, result, i);
    KeptThroughCaching(nodes, incoming, cached);
    assert !LeaksAt(nodes, incoming, order, i);
    if p in kept && !NeedsUpdate(kept[p], incoming[k]) {
      Convergence.SameVersion(nodes[p].serialized.value.lastUpdate, incoming[k].lastUpdate);
      SameVersionArrives(nodes, incoming, result, k);
    } else if incoming[k].attributes.Component? {
      ArrivingTasks(At(kept, p), incoming[k], gap);
    }
  }

  lemma UnchangedArrives(nodes: Nodes, incoming: Records, order: seq<string>, cached: Nodes, result: Nodes, k: string)
    requires Replicable(nodes, incoming) && k in incoming && Convergence.Setting(nodes, incoming, order, cached, result)
    requires k !in SnapshotUpdates(RecordsAt(nodes, nodes.Keys, ZERO_VT), incoming)
    ensures TasksArrived(KeptNodes(nodes, incoming), incoming, result, k)
  {
    var current := RecordsAt(nodes, nodes.Keys, ZERO_VT);
    var p := Decoded(k).value;
    Convergence.SameVersion(current[k].lastUpdate, incoming[k].lastUpdate);
    KeptThroughCaching(nodes, incoming, cached);
    assert !Convergence.Orphan(current, incoming, k);
    assert p in KeptNodes(nodes, incoming);
    assert !Touched(order, p) by {
      assert forall l | l in order :: l in incoming && l != k;
    }
    SameVersionArrives(nodes, incoming, result, k);
  }

  lemma AllTasksArrive(nodes: Nodes, incoming: Records, order: seq<string>, result: Nodes, k: string)
    requires Replicable(nodes, incoming) && AppliedSnapshot(nodes, incoming, order, result) && k in incoming
    requires NothingLeaks(nodes, incoming, order)
    ensures TasksArrived(KeptNodes(nodes, incoming), incoming, result, k)
  {
    var current := RecordsAt(nodes, nodes.Keys, ZERO_VT);
    var updates := SnapshotUpdates(current, incoming);
    var cached :| SnapshotEffect(nodes, incoming, order, cached, result);
    if k in updates {
      UpdateArrivesWithTasks(nodes, incoming, order, cached, result, k);
    } else {
      KeptThroughCaching(nodes, incoming, cached);
      UpdatedAllOutcome(RemainingNodes(cached, Paths(SnapshotDeletions(current, incoming))), order, updates);
      UnchangedArrives(nodes, incoming, order, cached, result, k);
    }
  }

  lemma TasksAt(nodes: Nodes, incoming: Records, order: seq<string>, result: Nodes, p: Path)
    requires Replicable(nodes, incoming) && AppliedSnapshot(nodes, incoming, order, result)
    requires NothingLeaks(nodes, incoming, order) && (p in result <==> p in Paths(incoming.Keys))
    ensures p in CompsOf(result) <==> p in IncomingComps(incoming)
    ensures p in CompsOf(result) ==>
      var kept := CompsOf(KeptNodes(nodes, incoming));
      CompsOf(result)[p] == if p in kept then MergeLists(kept[p], IncomingComps(incoming)[p])
                            else ResetLists(IncomingComps(incoming)[p])
  {
    if p in result {
      AllTasksArrive(nodes, incoming, order, result, KeyFor(incoming, p));
    }
  }

  lemma LeakedRecord(nodes: Nodes, incoming: Records, order: seq<string>, result: Nodes, i: nat)
    requires Replicable(nodes, incoming) && AppliedSnapshot(nodes, incoming, order, result)
    requires LeaksAt(nodes, incoming, order, i)
    ensures var p := Decoded(order[i]).value; p in result && result[p].serialized == Some(incoming[order[i]])
  {
    var cached :| SnapshotEffect(nodes, incoming, order, cached, result);
    UpdateArrives(nodes, incoming, order, cached, result, i);
  }

  /** A component that has taken over foreign statuses does not have the tasks of the
      replication step. */
  lemma LeakedTasks(nodes: Nodes, incoming: Records, order: seq<string>, result: Nodes, i: nat)
    requires Replicable(nodes, incoming) && AppliedSnapshot(nodes, incoming, order, result)
    requires LeaksAt(nodes, incoming, order, i)
    ensures var p := Decoded(order[i]).value;
            var step := Replicated(CompsOf(KeptNodes(nodes, incoming)), IncomingComps(incoming));
            && p in CompsOf(result) && p in step && CompsOf(result)[p] != step[p]
            && CompsOf(result)[p] == incoming[order[i]].attributes.tasks
  {
    var k, p := order[i], Decoded(order[i]).value;
    LeakedRecord(nodes, incoming, order, result, i);
    assert p in Paths(incoming.Keys) && KeyFor(incoming, p) == k;
    assert p !in CompsOf(KeptNodes(nodes, incoming));
    assert incoming[k].attributes.tasks != ResetLists(incoming[k].attributes.tasks);
  }

  /** Applying a snapshot to the tree is, on the task lists of the nodes that it keeps, the
      replication step, exactly if the order in which the updates are taken leaks nothing. */
  lemma SnapshotIsReplicate(nodes: Nodes, incoming: Records, order: seq<string>, result: Nodes)
    requires Replicable(nodes, incoming) && AppliedSnapshot(nodes, incoming, order, result)
    ensures CompsOf(result) == Replicated(CompsOf(KeptNodes(nodes, incoming)), IncomingComps(incoming)) <==>
            NothingLeaks(nodes, incoming, order)
  {
    if NothingLeaks(nodes, incoming, order) {
      TasksReplicated(nodes, incoming, order, result);
    } else {
      var i :| 0 <= i < |order| && LeaksAt(nodes, incoming, order, i);
      LeakedTasks(nodes, incoming, order, result, i);
    }
  }

  lemma TasksReplicated(nodes: Nodes, incoming: Records, order: seq<string>, result: Nodes)
    requires Replicable(nodes, incoming) && AppliedSnapshot(nodes, incoming, order, result)
    requires NothingLeaks(nodes, incoming, order)
    ensures CompsOf(result) == Replicated(CompsOf(KeptNodes(nodes, incoming)), IncomingComps(incoming))
  {
    var step := Replicated(CompsOf(KeptNodes(nodes, incoming)), IncomingComps(incoming));
    Convergence.SnapshotConverges(nodes, incoming, order, result);
    forall p
      ensures p in CompsOf(result) <==> p in IncomingComps(incoming)
      ensures p in CompsOf(result) ==> CompsOf(result)[p] == step[p]
    {
      TasksAt(nodes, incoming, order, result, p);
    }
    SameMap(CompsOf(result), step);
  }

  // ----- The two ways in which statuses leak

  function PointerRecord(target: Path): ChasmNode {
    ChasmNode(ZERO_VT, VT(1, 1), 0, Pointer(target))
  }

  function ComponentRecord(task: Task): ChasmNode {
    ChasmNode(ZERO_VT, VT(1, 2), 0, Component(0, false, TaskLists([task], [])))
  }

  lemma BecomesComponentLeaks(root: ChasmNode, target: Path, task: Task, order: seq<string>)
    requires root.attributes.Component? && root.lastUpdate == VT(1, 1) && task.status == Created
    requires var nodes := Convergence.ExamplePair(root, PointerRecord(target));
             var incoming := map["" := root, "a" := ComponentRecord(task)];
             Enumerates(order, SnapshotUpdates(RecordsAt(nodes, nodes.Keys, ZERO_VT), incoming).Keys)
    ensures order == ["a"]
    ensures LeaksAt(Convergence.ExamplePair(root, PointerRecord(target)), map["" := root, "a" := ComponentRecord(task)],
                    order, 0)
  {
    var nodes, incoming :=
      Convergence.ExamplePair(root, PointerRecord(target)), map["" := root, "a" := ComponentRecord(task)];
    Convergence.ExamplePairDiff(root, PointerRecord(target), ComponentRecord(task));
    OnlyOrderOfOne(order, "a");
    Convergence.DecodesOfExample();
    CreatedIsNotClear(task);
    KeptWhenNothingDeleted(nodes, incoming, ["a"]);
  }

  lemma CreatedIsNotClear(task: Task)
    requires task.status == Created
    ensures !Clear(ComponentRecord(task))
  {
    ClearTasks(ComponentRecord(task));
    assert task in ComponentRecord(task).attributes.tasks.side + ComponentRecord(task).attributes.tasks.pure;
  }

  lemma KeptWhenNothingDeleted(nodes: Nodes, incoming: Records, p: Path)
    requires SnapshotDeletions(RecordsAt(nodes, nodes.Keys, ZERO_VT), incoming) == {} && p in nodes
    ensures p in KeptNodes(nodes, incoming) && KeptNodes(nodes, incoming)[p] == nodes[p]
  {
    assert Paths({}) == {};
  }

  lemma BecomesComponentReplicable(root: ChasmNode, target: Path, task: Task)
    requires root.attributes.Component? && root.lastUpdate == VT(1, 1) && WellFormed(root.attributes.tasks)
    ensures var nodes := Convergence.ExamplePair(root, PointerRecord(target));
            var incoming := map["" := root, "a" := ComponentRecord(task)];
            Replicable(nodes, incoming) && Convergence.EncoderKeys(incoming)
  {
    Convergence.ExamplePairOk(root, PointerRecord(target), ComponentRecord(task));
  }

  /** A pointer that has become a component under the same key: whatever the order, and
      parents first as well, the new component is believed to have its physical tasks. */
  lemma PointerBecomesComponent(root: ChasmNode, target: Path, task: Task, order: seq<string>, result: Nodes)
    requires root.attributes.Component? && root.lastUpdate == VT(1, 1) && WellFormed(root.attributes.tasks) &&
             task.status == Created
    requires AppliedSnapshot(Convergence.ExamplePair(root, PointerRecord(target)),
                             map["" := root, "a" := ComponentRecord(task)], order, result)
    ensures var nodes := Convergence.ExamplePair(root, PointerRecord(target));
            var incoming := map["" := root, "a" := ComponentRecord(task)];
            && Replicable(nodes, incoming) && Convergence.EncoderKeys(incoming) && ParentsFirst(order)
            && ["a"] in CompsOf(result) && CompsOf(result)[["a"]].side == [task] &&
               !NothingLeaks(nodes, incoming, order)
  {
    BecomesComponentReplicable(root, target, task);
    BecomesComponentLeaks(root, target, task, order);
    LeakedTasks(Convergence.ExamplePair(root, PointerRecord(target)), map["" := root, "a" := ComponentRecord(task)],
                order, result, 0);
    Convergence.DecodesOfExample();
  }

  lemma OnlyOrderOfOne<T>(order: seq<T>, x: T)
    requires Enumerates(order, {x})
    ensures order == [x]
  {
    assert x in order;
    assert |order| < 2 || order[0] != order[1];
    forall i | 0 <= i < |order|
      ensures order[i] == x
    {
      assert order[i] in order;
    }
  }

  // ----- In the runs

  lemma KeptComps(nodes: Nodes, incoming: Records)
    ensures CompsOf(KeptNodes(nodes, incoming)) == CompsOf(nodes) - (nodes.Keys - KeptNodes(nodes, incoming).Keys)
  {
    SameMap(CompsOf(KeptNodes(nodes, incoming)), CompsOf(nodes) - (nodes.Keys - KeptNodes(nodes, incoming).Keys));
  }

  /** After ApplySnapshot the standby satisfies the invariant of all runs, if the incoming
      lists continue those it has kept. */
  lemma SnapshotKeepsInv(nodes: Nodes, incoming: Records, order: seq<string>, result: Nodes, s: Cluster,
                         version: VersionedTransition)
    requires Replicable(nodes, incoming) && AppliedSnapshot(nodes, incoming, order, result) &&
             NothingLeaks(nodes, incoming, order)
    requires Inv(s) && s.comps == CompsOf(nodes)
    requires Enabled(s.(comps := CompsOf(KeptNodes(nodes, incoming))), Replicate(IncomingComps(incoming), version))
    ensures Inv(s.(comps := CompsOf(result), last := if CompareVT(s.last, version) < 0 then version else s.last))
  {
    var gone := nodes.Keys - KeptNodes(nodes, incoming).Keys;
    KeptComps(nodes, incoming);
    RemoveKeepsInv(s, RemoveComponents(gone));
    SnapshotIsReplicate(nodes, incoming, order, result);
    ReplicateKeepsInv(s.(comps := CompsOf(KeptNodes(nodes, incoming))), Replicate(IncomingComps(incoming), version));
  }
}
