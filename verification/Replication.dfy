/** Replication (chasm/tree.go): bringing a standby tree to the state of its source by a
    snapshot or a mutation. */
module Replication {
  import opened Basics
  import opened PathEncoder
  import opened PathKeys
  import opened Tasks
  import opened TaskFacts
  import opened ChasmTree

  // ----- Snapshot

  ghost predicate AllSerialized(nodes: Nodes) {
    forall p | p in nodes :: nodes[p].serialized.Some?
  }

  predicate Newer(n: Node, min: VersionedTransition) {
    n.serialized.Some? && CompareVT(n.serialized.value.lastUpdate, min) > 0
  }

  /** Every key decodes to the position it stands for. */
  ghost predicate Keyed(nodes: Nodes) {
    forall p | p in nodes :: Decoded(Key(nodes, p)) == Ok(p)
  }

  /** Cached keys decode to their positions, and where none is cached one can be computed. */
  ghost predicate WellKeyed(nodes: Nodes) {
    forall p | p in nodes ::
      if nodes[p].encodedPath.Some? then Decoded(nodes[p].encodedPath.value) == Ok(p) else ValidPath(p)
  }

  lemma WellKeyedIsKeyed(nodes: Nodes)
    requires WellKeyed(nodes)
    ensures Keyed(nodes)
    ensures forall p | p in nodes :: Encodable(nodes, p)
  {
    forall p | p in nodes
      ensures Decoded(Key(nodes, p)) == Ok(p)
    {
      if nodes[p].encodedPath.None? {
        RoundTrip(p, p != [] && Parent(p) in nodes && nodes[Parent(p)].IsMap());
      }
    }
  }

  ghost function KeysAt(nodes: Nodes, paths: set<Path>, min: VersionedTransition): set<string> {
    set q | q in paths && q in nodes && Newer(nodes[q], min) && Decoded(Key(nodes, q)) == Ok(q) :: Key(nodes, q)
  }

  /** The records newer than `min` at `paths`, under their keys. */
  ghost function RecordsAt(nodes: Nodes, paths: set<Path>, min: VersionedTransition): Records {
    map k | k in KeysAt(nodes, paths, min) :: nodes[Decoded(k).value].serialized.value
  }

  /** The same tree, with some keys cached that were not before. */
  ghost predicate SameButCaches(before: Nodes, after: Nodes) {
    && after.Keys == before.Keys
    && forall p | p in before ::
         after[p] == before[p] ||
           (before[p].encodedPath == None && after[p] == before[p].(encodedPath := Some(Key(before, p))))
  }

  lemma CachingKeepsKey(before: Nodes, after: Nodes, p: Path)
    requires SameButCaches(before, after) && p in before
    ensures Key(after, p) == Key(before, p) && after[p].IndexedId() == before[p].IndexedId()
    ensures WellKeyed(before) && after[p].encodedPath.Some? ==> Decoded(after[p].encodedPath.value) == Ok(p)
  {
    if WellKeyed(before) {
      WellKeyedIsKeyed(before);
    }
  }

  lemma CachingKeepsKeys(before: Nodes, after: Nodes)
    requires SameButCaches(before, after)
    ensures forall p | p in before :: Key(after, p) == Key(before, p)
    ensures PrefixClosed(before) ==> PrefixClosed(after)
    ensures WellKeyed(before) ==> WellKeyed(after)
    ensures forall v | Index(before, v) :: Index(after, v)
  {
    forall p | p in before
      ensures Key(after, p) == Key(before, p) && after[p].IndexedId() == before[p].IndexedId()
      ensures WellKeyed(before) && after[p].encodedPath.Some? ==> Decoded(after[p].encodedPath.value) == Ok(p)
    {
      CachingKeepsKey(before, after, p);
    }
  }

  // ----- Deletions

  /** The paths that a set of keys stands for. */
  ghost function Paths(keys: set<string>): set<Path> {
    set k | k in keys && Decoded(k).Ok? :: Decoded(k).value
  }

  ghost predicate Covered(paths: set<Path>, q: Path) {
    exists d | d in paths :: d <= q
  }

  /** What is left after deleting `paths`, in any order: the root, and the nodes with no
      deleted path above them or at them. */
  ghost function Remaining(nodes: Nodes, paths: set<Path>): set<Path> {
    set q | q in nodes && (q == [] || !Covered(paths, q))
  }

  // ----- Updates

  function Sanitized(cn: ChasmNode): ChasmNode {
    if cn.attributes.Component? then
      cn.(attributes :=
          cn.attributes.(tasks := TaskLists(Reset(cn.attributes.tasks.side), Reset(cn.attributes.tasks.pure))))
    else cn
  }

  function CarriedOver(local: Option<ChasmNode>, incoming: ChasmNode): ChasmNode {
    if local.Some? && local.value.attributes.Component? && incoming.attributes.Component? then
      var source, target := local.value.attributes.tasks, incoming.attributes.tasks;
      incoming.(attributes := incoming.attributes.(tasks :=
        TaskLists(Merge(BySideEffectKey, source.side, target.side), Merge(ByPureKey, source.pure, target.pure))))
    else incoming
  }

  predicate NeedsUpdate(n: Node, incoming: ChasmNode) {
    n.serialized.None? || CompareVT(n.serialized.value.lastUpdate, incoming.lastUpdate) != 0
  }

  /** One iteration of applyUpdates. */
  function UpdatedOne(nodes: Nodes, key: string, incoming: ChasmNode): Nodes
    requires Decoded(key).Ok?
  {
    var q := Decoded(key).value;
    if q !in nodes then Placed(nodes, q, key, Sanitized(incoming))
    else if NeedsUpdate(nodes[q], incoming) then
      nodes[q := nodes[q].(serialized := Some(CarriedOver(nodes[q].serialized, incoming)), value := None, state :=
                           NeedDeserialize)]
    else nodes
  }

  ghost predicate Decodable(updates: Records) {
    forall k | k in updates :: Decoded(k).Ok?
  }

  /** applyUpdates, taking the updates in the given order. */
  function UpdatedAll(nodes: Nodes, order: seq<string>, updates: Records): Nodes
    requires forall k | k in order :: k in updates && Decoded(k).Ok?
  {
    if order == [] then nodes
    else
      var last := order[|order| - 1];
      UpdatedOne(UpdatedAll(nodes, order[..|order| - 1], updates), last, updates[last])
  }

  // ----- Everything but the cluster-local part

  function StripTask(t: Task): Task {
    t.(status := NotCreated, data := 0)
  }

  function StripTasks(tasks: seq<Task>): (out: seq<Task>)
    ensures |out| == |tasks|
    ensures forall i | 0 <= i < |out| :: out[i] == StripTask(tasks[i])
  {
    if tasks == [] then [] else [StripTask(tasks[0])] + StripTasks(tasks[1..])
  }

  /** A record without the status of its tasks and the identity of their payload buffers. */
  function Strip(cn: ChasmNode): ChasmNode {
    if cn.attributes.Component? then
      cn.(attributes :=
          cn.attributes.(tasks :=
                         TaskLists(StripTasks(cn.attributes.tasks.side), StripTasks(cn.attributes.tasks.pure))))
    else cn
  }

  /** The lists have the same tasks but for statuses and payload buffers. */
  predicate AlikeTasks(a: seq<Task>, b: seq<Task>) {
    |a| == |b| && forall i | 0 <= i < |a| :: a[i].(status := b[i].status, data := b[i].data) == b[i]
  }

  lemma StrippedAlike(a: seq<Task>, b: seq<Task>)
    ensures StripTasks(a) == StripTasks(b) <==> AlikeTasks(a, b)
  {
    if AlikeTasks(a, b) {
      assert forall i | 0 <= i < |a| :: StripTasks(a)[i] == StripTasks(b)[i];
    }
    if StripTasks(a) == StripTasks(b) {
      assert |a| == |b|;
      forall i | 0 <= i < |a|
        ensures a[i].(status := b[i].status, data := b[i].data) == b[i]
      {
        assert StripTasks(a)[i] == StripTasks(b)[i];
      }
    }
  }

  /** Records that agree without what is local have the same versions and data, the same
      attributes, and tasks that differ in nothing else. */
  lemma StripsAlike(a: ChasmNode, b: ChasmNode)
    ensures Strip(a) == Strip(b) <==>
            && a.initial == b.initial && a.lastUpdate == b.lastUpdate && a.data == b.data
            && if a.attributes.Component? && b.attributes.Component? then
                 && a.attributes.typeId == b.attributes.typeId && a.attributes.detached == b.attributes.detached
                 && AlikeTasks(a.attributes.tasks.side, b.attributes.tasks.side)
                 && AlikeTasks(a.attributes.tasks.pure, b.attributes.tasks.pure)
               else a.attributes == b.attributes
  {
    if a.attributes.Component? && b.attributes.Component? {
      StrippedAlike(a.attributes.tasks.side, b.attributes.tasks.side);
      StrippedAlike(a.attributes.tasks.pure, b.attributes.tasks.pure);
    }
  }

  lemma MergeStrips(order: Order, source: seq<Task>, target: seq<Task>)
    ensures StripTasks(Merge(order, source, target)) == StripTasks(target)
  {
    forall j | 0 <= j < |target|
      ensures StripTask(Merge(order, source, target)[j]) == StripTask(target[j])
    {
      MergeKeepsTasks(order, source, target, j);
    }
  }

  lemma UpdateStrips(local: Option<ChasmNode>, incoming: ChasmNode)
    ensures Strip(CarriedOver(local, incoming)) == Strip(incoming)
    ensures Strip(Sanitized(incoming)) == Strip(incoming)
  {
    if incoming.attributes.Component? {
      var target := incoming.attributes.tasks;
      assert StripTasks(Reset(target.side)) == StripTasks(target.side);
      assert StripTasks(Reset(target.pure)) == StripTasks(target.pure);
      if local.Some? && local.value.attributes.Component? {
        MergeStrips(BySideEffectKey, local.value.attributes.tasks.side, target.side);
        MergeStrips(ByPureKey, local.value.attributes.tasks.pure, target.pure);
      }
    }
  }

  ghost function Stripped(n: Node): Option<ChasmNode> {
    if n.serialized.Some? then Some(Strip(n.serialized.value)) else None
  }

  // ----- The result of applyUpdates does not depend on the order

  /** Different keys of the updates stand for different positions. */
  ghost predicate OneKeyPerPath(updates: Records) {
    forall k, l | k in updates && l in updates && Decoded(k) == Decoded(l) :: k == l
  }

  ghost predicate Above(keys: seq<string>, p: Path) {
    exists k | k in keys :: Decoded(k).Ok? && p <= Decoded(k).value
  }

  /** What applyUpdates makes of the node at `p`, by the update under `key` for it. */
  ghost predicate UpdateResult(nodes: Nodes, p: Path, key: string, incoming: ChasmNode, result: Node) {
    && (if p in nodes && !NeedsUpdate(nodes[p], incoming) then result == nodes[p]
        else result.serialized.Some? && Strip(result.serialized.value) == Strip(incoming) && result.value == None &&
             result.state == NeedDeserialize)
    && (if p in nodes then result.encodedPath == nodes[p].encodedPath
        else result.encodedPath == None || result.encodedPath == Some(key))
  }

  ghost predicate Touched(keys: seq<string>, p: Path) {
    exists k | k in keys :: Decoded(k) == Ok(p)
  }

  /** The outcome of applying the updates `keys` to `nodes`, described without their order. */
  ghost predicate Outcome(nodes: Nodes, keys: seq<string>, updates: Records, result: Nodes)
    requires forall k | k in keys :: k in updates
  {
    && (forall p :: p in result <==> p in nodes || Above(keys, p))
    && (forall k | k in keys && Decoded(k).Ok? && Decoded(k).value in result ::
          UpdateResult(nodes, Decoded(k).value, k, updates[k], result[Decoded(k).value]))
    && (forall p | p in result && !Touched(keys, p) :: result[p] == if p in nodes then nodes[p] else NEW_NODE)
  }

  /** One more update changes the node at its position, and puts empty nodes above it. */
  lemma OutcomePosition(nodes: Nodes, keys: seq<string>, last: string, updates: Records, before: Nodes, p: Path)
    requires last in updates && Decoded(last).Ok? && PrefixClosed(nodes)
    requires forall k | k in keys :: k in updates
    requires Outcome(nodes, keys, updates, before)
    ensures var after, q := UpdatedOne(before, last, updates[last]), Decoded(last).value;
            && (p in after <==> p in nodes || Above(keys + [last], p))
            && (p != q && p in after ==> after[p] == if p in before then before[p] else NEW_NODE)
  {
    var q := Decoded(last).value;
    AboveOneMore(keys, last, p);
    if q in before && p <= q {
      OutcomePrefixClosed(nodes, keys, updates, before, p, q);
    } else if p <= q {
      assert p == q[..|p|];
    }
  }

  lemma OutcomeStep(nodes: Nodes, keys: seq<string>, last: string, updates: Records, before: Nodes)
    requires last in updates && Decoded(last).Ok? && OneKeyPerPath(updates) && last !in keys
    requires PrefixClosed(nodes)
    requires forall k | k in keys :: k in updates
    requires Outcome(nodes, keys, updates, before)
    ensures Outcome(nodes, keys + [last], updates, UpdatedOne(before, last, updates[last]))
  {
    var q := Decoded(last).value;
    var after := UpdatedOne(before, last, updates[last]);
    UpdateStrips(if q in before then before[q].serialized else None, updates[last]);
    assert !Touched(keys, q);
    forall p
      ensures p in after <==> p in nodes || Above(keys + [last], p)
      ensures p != q && p in after ==> after[p] == if p in before then before[p] else NEW_NODE
    {
      OutcomePosition(nodes, keys, last, updates, before, p);
    }
    assert q in after by {
      AboveOneMore(keys, last, q);
    }
    assert UpdateResult(nodes, q, last, updates[last], after[q]);
    forall p
      ensures Touched(keys + [last], p) <==> Touched(keys, p) || p == q
    {
      TouchedOneMore(keys, last, p);
    }
    forall k | k in keys && Decoded(k).Ok? && Decoded(k).value in after
      ensures UpdateResult(nodes, Decoded(k).value, k, updates[k], after[Decoded(k).value])
    {
      assert Above(keys, Decoded(k).value);
    }
  }

  lemma AboveOneMore(keys: seq<string>, last: string, p: Path)
    requires Decoded(last).Ok?
    ensures Above(keys + [last], p) <==> Above(keys, p) || p <= Decoded(last).value
  {
    if p <= Decoded(last).value {
      assert last in keys + [last];
    }
    if Above(keys, p) {
      var k :| k in keys && Decoded(k).Ok? && p <= Decoded(k).value;
      assert k in keys + [last];
    }
  }

  lemma TouchedOneMore(keys: seq<string>, last: string, p: Path)
    ensures Touched(keys + [last], p) <==> Touched(keys, p) || Decoded(last) == Ok(p)
  {
    if Decoded(last) == Ok(p) {
      assert last in keys + [last];
    }
    if Touched(keys, p) {
      var k :| k in keys && Decoded(k) == Ok(p);
      assert k in keys + [last];
    }
  }

  lemma OutcomePrefixClosed(nodes: Nodes, keys: seq<string>, updates: Records, result: Nodes, p: Path, q: Path)
    requires PrefixClosed(nodes)
    requires forall k | k in keys :: k in updates
    requires Outcome(nodes, keys, updates, result)
    requires q in result && p <= q
    ensures p in result
  {
    if q in nodes {
      PrefixInNodes(nodes, p, q);
    } else {
      var k :| k in keys && Decoded(k).Ok? && q <= Decoded(k).value;
      assert p <= Decoded(k).value;
    }
  }

  /** The result of applyUpdates, for whatever order the updates are taken in. */
  lemma {:induction false} UpdatedAllOutcome(nodes: Nodes, order: seq<string>, updates: Records)
    requires PrefixClosed(nodes) && OneKeyPerPath(updates)
    requires forall k | k in order :: k in updates && Decoded(k).Ok?
    requires NoRepeats(order)
    ensures Outcome(nodes, order, updates, UpdatedAll(nodes, order, updates))
  {
    if order == [] {
    } else {
      var n := |order| - 1;
      NoRepeatsInit(order);
      UpdatedAllOutcome(nodes, order[..n], updates);
      OutcomeStep(nodes, order[..n], order[n], updates, UpdatedAll(nodes, order[..n], updates));
    }
  }

  lemma OutcomesAgree(nodes: Nodes, order1: seq<string>, order2: seq<string>, updates: Records, r1: Nodes,
                      r2: Nodes, p: Path)
    requires Enumerates(order1, updates.Keys) && Enumerates(order2, updates.Keys)
    requires Outcome(nodes, order1, updates, r1) && Outcome(nodes, order2, updates, r2)
    ensures p in r1 <==> p in r2
    ensures p in r1 ==> Stripped(r1[p]) == Stripped(r2[p]) && r1[p].value == r2[p].value && r1[p].state == r2[p].state
  {
    SameKeysAbove(order1, order2, p);
    SameKeysAbove(order2, order1, p);
    if p in r1 && Touched(order1, p) {
      var k :| k in order1 && Decoded(k) == Ok(p);
      assert k in order2;
      assert UpdateResult(nodes, p, k, updates[k], r1[p]) && UpdateResult(nodes, p, k, updates[k], r2[p]);
    }
  }

  lemma AllOutcomesAgree(nodes: Nodes, order1: seq<string>, order2: seq<string>, updates: Records, r1: Nodes, r2: Nodes)
    requires Enumerates(order1, updates.Keys) && Enumerates(order2, updates.Keys)
    requires Outcome(nodes, order1, updates, r1) && Outcome(nodes, order2, updates, r2)
    ensures r1.Keys == r2.Keys
    ensures forall p | p in r1 ::
              Stripped(r1[p]) == Stripped(r2[p]) && r1[p].value == r2[p].value && r1[p].state == r2[p].state
  {
    forall p
      ensures p in r1 <==> p in r2
      ensures p in r1 ==> Stripped(r1[p]) == Stripped(r2[p]) && r1[p].value == r2[p].value && r1[p].state == r2[p].state
    {
      OutcomesAgree(nodes, order1, order2, updates, r1, r2, p);
    }
  }

  /** applyUpdates iterates over a map, so in any order: the tree it leaves is the same up to
      the cluster-local part of the records. */
  lemma OrderDoesNotMatter(nodes: Nodes, order1: seq<string>, order2: seq<string>, updates: Records)
    requires PrefixClosed(nodes) && Decodable(updates) && OneKeyPerPath(updates)
    requires Enumerates(order1, updates.Keys) && Enumerates(order2, updates.Keys)
    ensures var r1, r2 := UpdatedAll(nodes, order1, updates), UpdatedAll(nodes, order2, updates);
            && r1.Keys == r2.Keys
            && forall p | p in r1 ::
                 Stripped(r1[p]) == Stripped(r2[p]) && r1[p].value == r2[p].value && r1[p].state == r2[p].state
  {
    UpdatedAllOutcome(nodes, order1, updates);
    UpdatedAllOutcome(nodes, order2, updates);
    AllOutcomesAgree(nodes, order1, order2, updates, UpdatedAll(nodes, order1, updates),
                     UpdatedAll(nodes, order2, updates));
  }

  lemma SameKeysAbove(order1: seq<string>, order2: seq<string>, p: Path)
    requires forall k | k in order1 :: k in order2
    ensures Above(order1, p) ==> Above(order2, p)
    ensures Touched(order1, p) ==> Touched(order2, p)
  {
    if Above(order1, p) {
      var k :| k in order1 && Decoded(k).Ok? && p <= Decoded(k).value;
      assert k in order2;
    }
    if Touched(order1, p) {
      var k :| k in order1 && Decoded(k) == Ok(p);
      assert k in order2;
    }
  }

  /** Together with the nodes there are, the updates leave no gap above them. */
  ghost predicate NoGaps(nodes: Nodes, updates: Records) {
    forall k, p | k in updates && Decoded(k).Ok? && p <= Decoded(k).value ::
      p in nodes || exists l :: l in updates && Decoded(l) == Ok(p)
  }

  /** No empty node is left exactly if there are no gaps. */
  lemma PlaceholdersOnlyInGaps(nodes: Nodes, order: seq<string>, updates: Records)
    requires PrefixClosed(nodes) && AllSerialized(nodes) && Decodable(updates) && OneKeyPerPath(updates)
    requires Enumerates(order, updates.Keys)
    ensures AllSerialized(UpdatedAll(nodes, order, updates)) <==> NoGaps(nodes, updates)
  {
    var result := UpdatedAll(nodes, order, updates);
    UpdatedAllOutcome(nodes, order, updates);
    if NoGaps(nodes, updates) {
      forall p | p in result
        ensures result[p].serialized.Some?
      {
        if p !in nodes {
          var k :| k in order && Decoded(k).Ok? && p <= Decoded(k).value;
          var l :| l in updates && Decoded(l) == Ok(p);
          assert l in order && Touched(order, p);
        }
      }
    } else {
      var k, p :| k in updates && Decoded(k).Ok? && p <= Decoded(k).value && p !in nodes &&
        !exists l :: l in updates && Decoded(l) == Ok(p);
      assert k in order;
      assert Above(order, p) && !Touched(order, p);
      assert result[p] == NEW_NODE;
    }
  }

  // ----- applyDeletions

  ghost function RemainingNodes(nodes: Nodes, paths: set<Path>): Nodes {
    map q | q in Remaining(nodes, paths) ::
      if q == [] && [] in paths then nodes[q].(value := None, encodedPath := Some(Key(nodes, q))) else nodes[q]
  }

  ghost function CoveredKeys(nodes: Nodes, paths: set<Path>): set<string> {
    set q | q in nodes && Covered(paths, q) :: Key(nodes, q)
  }

  ghost function CoveredPaths(nodes: Nodes, paths: set<Path>): set<Path> {
    set q | q in nodes && Covered(paths, q)
  }

  lemma CoveredOneMore(paths: set<Path>, d: Path, q: Path)
    ensures Covered(paths + {d}, q) <==> Covered(paths, q) || d <= q
  {
    if d <= q {
      assert d in paths + {d};
    }
    if Covered(paths, q) {
      var e :| e in paths && e <= q;
      assert e in paths + {d};
    }
  }

  lemma CoveredBelow(paths: set<Path>, p: Path, q: Path)
    requires p <= q
    ensures Covered(paths, p) ==> Covered(paths, q)
  {
    if Covered(paths, p) {
      var d :| d in paths && d <= p;
      assert d <= q;
    }
  }

  lemma RemainingClosed(nodes: Nodes, paths: set<Path>)
    requires PrefixClosed(nodes)
    ensures PrefixClosed(RemainingNodes(nodes, paths))
    ensures forall q | q in RemainingNodes(nodes, paths) :: Key(RemainingNodes(nodes, paths), q) == Key(nodes, q)
  {
    var rest := RemainingNodes(nodes, paths);
    forall p, c | Child(p, c) in rest
      ensures p in rest
    {
      CoveredBelow(paths, p, Child(p, c));
    }
    forall q | q in rest
      ensures Key(rest, q) == Key(nodes, q)
    {
      if q != [] {
        assert q == Child(Parent(q), q[|q| - 1]);
      }
    }
  }

  lemma DeletionStep(nodes: Nodes, paths: set<Path>, d: Path)
    requires PrefixClosed(nodes)
    ensures var rest := RemainingNodes(nodes, paths);
            && PrefixClosed(rest)
            && RemainingNodes(nodes, paths + {d}) == (if d in rest then Deleted(rest, d) else rest)
            && CoveredKeys(nodes, paths + {d}) == CoveredKeys(nodes, paths) +
               (if d in rest then KeysBelow(rest, d) else {})
            && CoveredPaths(nodes, paths + {d}) == CoveredPaths(nodes, paths) +
               (if d in rest then Below(rest, d) else {})
  {
    var rest := RemainingNodes(nodes, paths);
    RemainingClosed(nodes, paths);
    forall q
      ensures Covered(paths + {d}, q) <==> Covered(paths, q) || d <= q
    {
      CoveredOneMore(paths, d, q);
    }
    if d !in rest {
      forall q | q in nodes && d <= q
        ensures Covered(paths, q) && q != []
      {
        PrefixInNodes(nodes, d, q);
        var e :| e in paths && e <= d;
        assert e <= q;
      }
    }
  }

  lemma DeletionBlobs(nodes: Nodes, paths: set<Path>, d: Path)
    requires PrefixClosed(nodes)
    ensures var rest := RemainingNodes(nodes, paths);
            BlobsAt(nodes, CoveredPaths(nodes, paths + {d})) ==
            BlobsAt(nodes, CoveredPaths(nodes, paths)) + (if d in rest then BlobsAt(rest, Below(rest, d)) else {})
  {
    var rest := RemainingNodes(nodes, paths);
    DeletionStep(nodes, paths, d);
    BlobsAtUnion(nodes, CoveredPaths(nodes, paths), Below(rest, d));
    assert forall q | q in rest :: BlobsOf(rest[q]) == BlobsOf(nodes[q]);
    assert BlobsAt(nodes, Below(rest, d)) == BlobsAt(rest, Below(rest, d));
  }
}
