/** What taking an update does to a record and to the cache of task payloads
    (chasm/tree.go, applyUpdates and carryOverTaskStatus), record by record. */
module CarryingOver {
  import opened Basics
  import opened PathEncoder
  import opened Tasks
  import opened TaskFacts
  import opened ChasmTree
  import opened Replication
  import opened ReplicationApply
  import opened ReplicationStatus
  import Convergence

  /** The tasks have the same key, and pure ones the same time. */
  predicate SameTask(pure: bool, s: Task, t: Task) {
    s.vt == t.vt && s.offset == t.offset && (pure ==> s.AsTime() == t.AsTime())
  }

  /** `u` is the incoming task `t` with the status and the payload of its local counterpart, or
      without physical task if it has none. */
  ghost predicate TaskCarried(pure: bool, local: seq<Task>, t: Task, u: Task) {
    || (exists s | s in local :: SameTask(pure, s, t) && u == t.(status := s.status, data := s.data))
    || ((forall s | s in local :: !SameTask(pure, s, t)) && u == t.(status := NotCreated))
  }

  ghost predicate ListCarried(pure: bool, local: seq<Task>, incoming: seq<Task>, out: seq<Task>) {
    |out| == |incoming| && forall j | 0 <= j < |out| :: TaskCarried(pure, local, incoming[j], out[j])
  }

  lemma MergeCarries(pure: bool, local: seq<Task>, incoming: seq<Task>)
    requires var order := if pure then ByPureKey else BySideEffectKey; Sorted(order, local) && Sorted(order, incoming)
    ensures ListCarried(pure, local, incoming, Merge(if pure then ByPureKey else BySideEffectKey, local, incoming))
  {
    var order := if pure then ByPureKey else BySideEffectKey;
    var out := Merge(order, local, incoming);
    forall j | 0 <= j < |out|
      ensures TaskCarried(pure, local, incoming[j], out[j])
    {
      if i :| 0 <= i < |local| && Compare(order, local[i], incoming[j]) == 0 {
        MergeTakesMatch(order, local, incoming, i, j);
        CompareIsOrder(order, local[i], incoming[j], incoming[j]);
        assert local[i] in local && SameTask(pure, local[i], incoming[j]);
      } else {
        assert !Matched(order, local, incoming[j]);
        MergeResetsUnmatched(order, local, incoming, j);
        forall s | s in local
          ensures !SameTask(pure, s, incoming[j])
        {
          CompareIsOrder(order, s, incoming[j], incoming[j]);
        }
      }
    }
  }

  /** Between components the record has taken over what is local; else it is the incoming one. */
  ghost predicate TakenOver(local: Option<ChasmNode>, incoming: ChasmNode, out: ChasmNode) {
    if local.Some? && local.value.attributes.Component? && incoming.attributes.Component? then
      var mine, its := local.value.attributes.tasks, incoming.attributes.tasks;
      && out.attributes.Component?
      && out == incoming.(attributes := incoming.attributes.(tasks := out.attributes.tasks))
      && ListCarried(false, mine.side, its.side, out.attributes.tasks.side)
      && ListCarried(true, mine.pure, its.pure, out.attributes.tasks.pure)
    else out == incoming
  }

  /** Between components every incoming task takes over what is local of its counterpart, in both
      lists; nothing else of the incoming record changes, and no other record at all. */
  lemma CarriedOverExactly(local: Option<ChasmNode>, incoming: ChasmNode)
    requires local.Some? && local.value.attributes.Component? ==> ListsSorted(local.value.attributes.tasks)
    requires incoming.attributes.Component? ==> ListsSorted(incoming.attributes.tasks)
    ensures TakenOver(local, incoming, CarriedOver(local, incoming))
  {
    if local.Some? && local.value.attributes.Component? && incoming.attributes.Component? {
      MergeCarries(false, local.value.attributes.tasks.side, incoming.attributes.tasks.side);
      MergeCarries(true, local.value.attributes.tasks.pure, incoming.attributes.tasks.pure);
    }
  }

  ghost predicate ListsSorted(lists: TaskLists) {
    Sorted(BySideEffectKey, lists.side) && Sorted(ByPureKey, lists.pure)
  }

  predicate ListReset(before: seq<Task>, after: seq<Task>) {
    |after| == |before| && forall j | 0 <= j < |before| :: after[j] == before[j].(status := NotCreated)
  }

  /** The record has lost all statuses, in both lists, and nothing else. */
  predicate WithoutStatuses(incoming: ChasmNode, out: ChasmNode) {
    if incoming.attributes.Component? then
      && out.attributes.Component?
      && out == incoming.(attributes := incoming.attributes.(tasks := out.attributes.tasks))
      && ListReset(incoming.attributes.tasks.side, out.attributes.tasks.side)
      && ListReset(incoming.attributes.tasks.pure, out.attributes.tasks.pure)
    else out == incoming
  }

  lemma SanitizedExactly(incoming: ChasmNode)
    ensures WithoutStatuses(incoming, Sanitized(incoming))
  {
  }

  /** What applyUpdates makes of a position: it leaves a record of the same version alone, lets
      any other take over what is local, and else takes the statuses from the new record; `gap`
      says that there was an empty node, because an update below came first. */
  ghost predicate Arrived(nodes: Nodes, q: Path, gap: bool, incoming: ChasmNode, record: ChasmNode) {
    if q in nodes then
      var local := nodes[q].serialized;
      if local.Some? && local.value.lastUpdate == incoming.lastUpdate then record == local.value
      else TakenOver(local, incoming, record)
    else if gap then record == incoming
    else WithoutStatuses(incoming, record)
  }

  /** Whatever the order of the updates, that is what each of them comes to. */
  lemma ArrivesExactly(nodes: Nodes, order: seq<string>, updates: Records, i: nat)
    requires i < |order| && PrefixClosed(nodes) && OneKeyPerPath(updates) && NoRepeats(order)
    requires forall k | k in order :: k in updates && Decoded(k).Ok?
    requires forall q | q in nodes && nodes[q].IsComponent() :: ListsSorted(nodes[q].serialized.value.attributes.tasks)
    requires forall k | k in updates && updates[k].attributes.Component? :: ListsSorted(updates[k].attributes.tasks)
    ensures var q, result := Decoded(order[i]).value, UpdatedAll(nodes, order, updates);
            && q in result && result[q].serialized.Some?
            && Arrived(nodes, q, Above(order[..i], q), updates[order[i]], result[q].serialized.value)
  {
    var q, incoming := Decoded(order[i]).value, updates[order[i]];
    assert order[i] in order;
    ExactRecord(nodes, order, updates, i);
    if q in nodes {
      var local := nodes[q].serialized;
      CarriedOverExactly(local, incoming);
      if local.Some? {
        Convergence.SameVersion(local.value.lastUpdate, incoming.lastUpdate);
      }
    } else {
      SanitizedExactly(incoming);
    }
  }

  /** The payload is that of a local task without counterpart in a record that is to replace it. */
  ghost predicate Obsolete(nodes: Nodes, q: Path, incoming: ChasmNode, b: Blob) {
    && q in nodes && nodes[q].IsComponent() && incoming.attributes.Component?
    && nodes[q].serialized.value.lastUpdate != incoming.lastUpdate
    && var mine, its := nodes[q].serialized.value.attributes.tasks, incoming.attributes.tasks;
       ObsoleteIn(false, mine.side, its.side, b) || ObsoleteIn(true, mine.pure, its.pure, b)
  }

  ghost predicate ObsoleteIn(pure: bool, local: seq<Task>, incoming: seq<Task>, b: Blob) {
    exists s | s in local :: s.data == b && forall t | t in incoming :: !SameTask(pure, s, t)
  }

  lemma EvictedIsObsolete(pure: bool, local: seq<Task>, incoming: seq<Task>, b: Blob)
    requires var order := if pure then ByPureKey else BySideEffectKey; Sorted(order, local) && Sorted(order, incoming)
    ensures b in Evicted(if pure then ByPureKey else BySideEffectKey, local, incoming) <==>
            ObsoleteIn(pure, local, incoming, b)
  {
    var order := if pure then ByPureKey else BySideEffectKey;
    EvictedExactly(order, local, incoming);
    forall s | s in local
      ensures Wanted(order, incoming, s) <==> exists t | t in incoming :: SameTask(pure, s, t)
    {
      forall t | t in incoming
        ensures Compare(order, s, t) == 0 <==> SameTask(pure, s, t)
      {
        CompareIsOrder(order, s, t, t);
      }
      if t :| t in incoming && SameTask(pure, s, t) {
        var j :| 0 <= j < |incoming| && incoming[j] == t;
        assert Compare(order, s, incoming[j]) == 0;
      }
    }
  }

  lemma EvictedOneExactly(nodes: Nodes, key: string, incoming: ChasmNode, b: Blob)
    requires Decoded(key).Ok?
    requires var q := Decoded(key).value; q in nodes && nodes[q].IsComponent() ==>
             ListsSorted(nodes[q].serialized.value.attributes.tasks)
    requires incoming.attributes.Component? ==> ListsSorted(incoming.attributes.tasks)
    ensures b in EvictedOne(nodes, key, incoming) <==> Obsolete(nodes, Decoded(key).value, incoming, b)
  {
    var q := Decoded(key).value;
    if q in nodes && nodes[q].IsComponent() && incoming.attributes.Component? {
      var mine, its := nodes[q].serialized.value.attributes.tasks, incoming.attributes.tasks;
      Convergence.SameVersion(nodes[q].serialized.value.lastUpdate, incoming.lastUpdate);
      EvictedIsObsolete(false, mine.side, its.side, b);
      EvictedIsObsolete(true, mine.pure, its.pure, b);
    }
  }

  /** The updates evict exactly the payloads that they make obsolete, in whatever order. */
  lemma {:induction false} EvictedAllExactly(nodes: Nodes, order: seq<string>, updates: Records, b: Blob)
    requires PrefixClosed(nodes) && OneKeyPerPath(updates) && NoRepeats(order)
    requires forall k | k in order :: k in updates && Decoded(k).Ok?
    requires forall q | q in nodes && nodes[q].IsComponent() :: ListsSorted(nodes[q].serialized.value.attributes.tasks)
    requires forall k | k in updates && updates[k].attributes.Component? :: ListsSorted(updates[k].attributes.tasks)
    ensures b in EvictedAll(nodes, order, updates) <==>
            exists k | k in order :: Obsolete(nodes, Decoded(k).value, updates[k], b)
  {
    if order == [] {
    } else {
      var n := |order| - 1;
      assert order == order[..n] + [order[n]];
      NoRepeatsInit(order);
      EvictedAllExactly(nodes, order[..n], updates, b);
      LastEvicts(nodes, order, updates, b);
    }
  }

  lemma LastEvicts(nodes: Nodes, order: seq<string>, updates: Records, b: Blob)
    requires order != [] && PrefixClosed(nodes) && OneKeyPerPath(updates) && NoRepeats(order)
    requires forall k | k in order :: k in updates && Decoded(k).Ok?
    requires forall q | q in nodes && nodes[q].IsComponent() :: ListsSorted(nodes[q].serialized.value.attributes.tasks)
    requires forall k | k in updates && updates[k].attributes.Component? :: ListsSorted(updates[k].attributes.tasks)
    ensures var n := |order| - 1;
            b in EvictedOne(UpdatedAll(nodes, order[..n], updates), order[n], updates[order[n]]) <==>
            Obsolete(nodes, Decoded(order[n]).value, updates[order[n]], b)
  {
    var n := |order| - 1;
    var q := Decoded(order[n]).value;
    NoRepeatsInit(order);
    UpdatedAllOutcome(nodes, order[..n], updates);
    NotTouchedYet(order, updates, n);
    var before := UpdatedAll(nodes, order[..n], updates);
    assert q in before ==> before[q] == if q in nodes then nodes[q] else NEW_NODE;
    EvictedOneExactly(before, order[n], updates[order[n]], b);
  }
}
