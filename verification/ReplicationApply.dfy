/** The replication methods (chasm/tree.go), proved against the functions of `Replication`. */
module ReplicationApply {
  import opened Basics
  import opened PathEncoder
  import opened Tasks
  import opened ChasmTree
  import opened Replication

  // ----- Snapshot

  lemma RecordsAtUnion(nodes: Nodes, a: set<Path>, b: set<Path>, min: VersionedTransition)
    ensures RecordsAt(nodes, a + b, min) == RecordsAt(nodes, a, min) + RecordsAt(nodes, b, min)
  {
  }

  lemma RecordsAtCached(before: Nodes, after: Nodes, paths: set<Path>, min: VersionedTransition)
    requires SameButCaches(before, after)
    ensures RecordsAt(after, paths, min) == RecordsAt(before, paths, min)
  {
    CachingKeepsKeys(before, after);
  }

  lemma CachesTransitive(a: Nodes, b: Nodes, c: Nodes)
    requires SameButCaches(a, b) && SameButCaches(b, c)
    ensures SameButCaches(a, c)
  {
    CachingKeepsKeys(a, b);
  }

  /** Recording the node at `p`, then the subtrees of its children. */
  lemma SnapshotInSteps(start: Nodes, between: Nodes, p: Path, min: VersionedTransition, records: Records)
    requires PrefixClosed(start) && p in start && SameButCaches(start, between)
    ensures (records + RecordsAt(start, {p}, min)) +
            RecordsAt(between, BelowChildren(between, p, Children(between, p)), min) ==
            records + RecordsAt(start, Below(start, p), min)
  {
    BelowSplits(start, p);
    assert Children(between, p) == Children(start, p);
    assert BelowChildren(between, p, Children(between, p)) == BelowChildren(start, p, Children(start, p));
    RecordsAtUnion(start, {p}, BelowChildren(start, p, Children(start, p)), min);
    RecordsAtCached(start, between, BelowChildren(start, p, Children(start, p)), min);
    AddAssociative(records, RecordsAt(start, {p}, min), RecordsAt(start, BelowChildren(start, p, Children(start, p)),
                                                                  min));
  }

  lemma AddAssociative(a: Records, b: Records, c: Records)
    ensures (a + b) + c == a + (b + c)
  {
  }

  lemma RecordsAtOne(nodes: Nodes, p: Path, min: VersionedTransition)
    requires p in nodes && Decoded(Key(nodes, p)) == Ok(p)
    ensures RecordsAt(nodes, {p}, min) == if Newer(nodes[p], min) then map[Key(nodes, p) := nodes[p].serialized.value]
                                          else map[]
  {
    assert KeysAt(nodes, {p}, min) == if Newer(nodes[p], min) then {Key(nodes, p)} else {};
  }

  lemma SnapshotOneMore(start: Nodes, before: Nodes, p: Path, done: set<string>, c: string, min: VersionedTransition,
                        records: Records)
    requires SameButCaches(start, before)
    ensures (records + RecordsAt(start, BelowChildren(start, p, done), min)) +
            RecordsAt(before, Below(before, Child(p, c)), min) ==
            records + RecordsAt(start, BelowChildren(start, p, done + {c}), min)
  {
    BelowOneMore(start, p, done, c);
    assert Below(before, Child(p, c)) == Below(start, Child(p, c));
    RecordsAtUnion(start, BelowChildren(start, p, done), Below(start, Child(p, c)), min);
    RecordsAtCached(start, before, Below(start, Child(p, c)), min);
    AddAssociative(records, RecordsAt(start, BelowChildren(start, p, done), min),
                   RecordsAt(start, Below(start, Child(p, c)), min));
  }

  method SnapshotInternal(t: Tree, p: Path, min: VersionedTransition, records: Records, ghost h: nat)
    returns (records': Records)
    requires t.Valid() && p in t.nodes && AllSerialized(t.nodes) && WellKeyed(t.nodes)
    requires forall q | q in t.nodes && p <= q :: |q| <= |p| + h
    modifies t`nodes
    ensures t.Valid() && WellKeyed(t.nodes) && SameButCaches(old(t.nodes), t.nodes)
    ensures records' == records + RecordsAt(old(t.nodes), Below(old(t.nodes), p), min)
    decreases h, 1
  {
    ghost var start := t.nodes;
    records' := RecordIfNewer(t, p, min, records);
    ghost var between := t.nodes;
    SnapshotInSteps(start, between, p, min, records);
    records' := SnapshotChildren(t, p, min, records', h);
    CachesTransitive(start, between, t.nodes);
  }

  lemma AddingRecord(records: Records, key: string, record: ChasmNode)
    ensures records[key := record] == records + map[key := record]
  {
  }

  method RecordIfNewer(t: Tree, p: Path, min: VersionedTransition, records: Records) returns (records': Records)
    requires t.Valid() && p in t.nodes && AllSerialized(t.nodes) && WellKeyed(t.nodes)
    modifies t`nodes
    ensures t.Valid() && WellKeyed(t.nodes) && AllSerialized(t.nodes) && SameButCaches(old(t.nodes), t.nodes)
    ensures records' == records + RecordsAt(old(t.nodes), {p}, min)
  {
    records' := records;
    WellKeyedIsKeyed(t.nodes);
    RecordsAtOne(t.nodes, p, min);
    if CompareVT(t.nodes[p].serialized.value.lastUpdate, min) > 0 {
      var r := t.GetEncodedPath(p);
      records' := records[r.value := t.nodes[p].serialized.value];
      CachingKeepsKeys(old(t.nodes), t.nodes);
      AddingRecord(records, r.value, t.nodes[p].serialized.value);
    }
  }

  /** The loop of snapshotInternal over the children of the node at `p`. */
  method SnapshotChildren(t: Tree, p: Path, min: VersionedTransition, records: Records, ghost h: nat)
    returns (records': Records)
    requires t.Valid() && p in t.nodes && AllSerialized(t.nodes) && WellKeyed(t.nodes)
    requires forall q | q in t.nodes && p <= q :: |q| <= |p| + h
    modifies t`nodes
    ensures t.Valid() && WellKeyed(t.nodes) && SameButCaches(old(t.nodes), t.nodes)
    ensures records' == records + RecordsAt(old(t.nodes), BelowChildren(old(t.nodes), p, Children(old(t.nodes), p)),
                                            min)
    decreases h, 0
  {
    ghost var start := t.nodes;
    records' := records;
    var names := Children(t.nodes, p);
    var todo := names;
    assert BelowChildren(start, p, {}) == {};
    while todo != {}
      invariant todo <= names
      invariant t.Valid() && WellKeyed(t.nodes) && SameButCaches(start, t.nodes)
      invariant records' == records + RecordsAt(start, BelowChildren(start, p, names - todo), min)
    {
      var c :| c in todo;
      ghost var done, before := names - todo, t.nodes;
      ChildrenAt(start, p, c);
      SnapshotOneMore(start, before, p, done, c, min, records);
      records' := SnapshotInternal(t, Child(p, c), min, records', h - 1);
      CachesTransitive(start, before, t.nodes);
      todo := todo - {c};
      assert names - todo == done + {c};
    }
    assert names - todo == names;
  }

  /** Snapshot, on a tree without unsaved changes. */
  method Snapshot(t: Tree, min: VersionedTransition) returns (records: Records)
    requires t.Valid() && AllSerialized(t.nodes) && WellKeyed(t.nodes)
    modifies t`nodes
    ensures t.Valid() && WellKeyed(t.nodes) && SameButCaches(old(t.nodes), t.nodes)
    ensures records == RecordsAt(old(t.nodes), old(t.nodes).Keys, min)
  {
    assert Below(t.nodes, []) == t.nodes.Keys;
    records := SnapshotInternal(t, [], min, map[], LongestPath(t.nodes));
  }

  /** The snapshot holds exactly the records with a version above the bound, each under the key
      of its node. */
  lemma SnapshotExactly(nodes: Nodes, min: VersionedTransition, k: string, r: ChasmNode)
    requires WellKeyed(nodes)
    ensures k in RecordsAt(nodes, nodes.Keys, min) && RecordsAt(nodes, nodes.Keys, min)[k] == r <==>
            exists q | q in nodes :: Key(nodes, q) == k && nodes[q].serialized == Some(r) &&
              (r.lastUpdate.version > min.version ||
               (r.lastUpdate.version == min.version && r.lastUpdate.count > min.count))
  {
    WellKeyedIsKeyed(nodes);
    if q :| q in nodes && Key(nodes, q) == k && nodes[q].serialized == Some(r) && Newer(nodes[q], min) {
      assert Decoded(k) == Ok(q) && q in nodes.Keys;
    }
  }

  // ----- applyDeletions

  /** The state of applyDeletions when `paths` have been dealt with. */
  ghost predicate DeletedPaths(start: Nodes, deleted: set<string>, cache: set<Blob>, paths: set<Path>,
                               nodes: Nodes, deleted': set<string>, cache': set<Blob>)
  {
    && nodes == RemainingNodes(start, paths)
    && deleted' == deleted + CoveredKeys(start, paths)
    && cache' == cache - BlobsAt(start, CoveredPaths(start, paths))
  }

  method DeletePath(t: Tree, path: Path, ghost start: Nodes, ghost deleted: set<string>, ghost cache: set<Blob>,
                    ghost paths: set<Path>)
    returns (ok: bool)
    requires t.Valid() && PrefixClosed(start) &&
             DeletedPaths(start, deleted, cache, paths, t.nodes, t.deletedNodes, t.taskValueCache)
    modifies t`nodes, t`valueToNode, t`deletedNodes, t`taskValueCache
    ensures ok ==> t.Valid() &&
                   DeletedPaths(start, deleted, cache, paths + {path}, t.nodes, t.deletedNodes, t.taskValueCache)
    ensures (forall p | p in old(t.nodes) :: Encodable(old(t.nodes), p)) ==> ok
  {
    DeletionStep(start, paths, path);
    DeletionBlobs(start, paths, path);
    assert [] + path == path;
    ok := true;
    var found := t.FindNode([], path);
    if found {
      ok := t.Delete(path, LongestPath(t.nodes));
    }
  }

  method ApplyDeletions(t: Tree, deleted: set<string>) returns (ok: bool)
    requires t.Valid()
    modifies t`nodes, t`valueToNode, t`deletedNodes, t`taskValueCache
    ensures ok ==> t.Valid()
    ensures ok ==>
            DeletedPaths(old(t.nodes), old(t.deletedNodes), old(t.taskValueCache), Paths(deleted), t.nodes,
                         t.deletedNodes, t.taskValueCache)
    ensures ok ==> forall k | k in deleted :: Decoded(k).Ok?
    ensures (forall k | k in deleted :: Decoded(k).Ok?) && (forall p | p in old(t.nodes) :: Encodable(old(t.nodes), p))
            ==> ok
  {
    ok := true;
    ghost var start, gone, cache := t.nodes, t.deletedNodes, t.taskValueCache;
    ghost var done: set<string> := {};
    var todo := deleted;
    NothingDeleted(start);
    while todo != {}
      invariant todo !! done && todo + done == deleted && t.Valid()
      invariant forall k | k in done :: Decoded(k).Ok?
      invariant DeletedPaths(start, gone, cache, Paths(done), t.nodes, t.deletedNodes, t.taskValueCache)
    {
      var k :| k in todo;
      var path := Decode(k);
      if path.Err? {
        return false;
      }
      assert Paths(done + {k}) == Paths(done) + {path.value};
      RemainingEncodable(start, Paths(done));
      ok := DeletePath(t, path.value, start, gone, cache, Paths(done));
      if !ok {
        return;
      }
      todo, done := todo - {k}, done + {k};
    }
    assert done == deleted;
  }

  lemma RemainingEncodable(nodes: Nodes, paths: set<Path>)
    ensures (forall p | p in nodes :: Encodable(nodes, p)) ==>
      forall p | p in RemainingNodes(nodes, paths) :: Encodable(RemainingNodes(nodes, paths), p)
  {
  }

  lemma NothingDeleted(nodes: Nodes)
    ensures RemainingNodes(nodes, Paths({})) == nodes
    ensures CoveredKeys(nodes, Paths({})) == {} && CoveredPaths(nodes, Paths({})) == {}
  {
    assert Paths({}) == {};
  }

  // ----- applyUpdates

  predicate Applies(nodes: Nodes, key: string, incoming: ChasmNode) {
    Decoded(key).Ok? && (Decoded(key).value in nodes ==> NeedsUpdate(nodes[Decoded(key).value], incoming))
  }

  /** The entries that applyUpdates adds to the mutation of the standby's own transaction. */
  function RecordedAll(nodes: Nodes, order: seq<string>, updates: Records): map<string, Path>
    requires forall k | k in order :: k in updates && Decoded(k).Ok?
  {
    if order == [] then map[]
    else
      var n := |order| - 1;
      var sofar := RecordedAll(nodes, order[..n], updates);
      if Applies(UpdatedAll(nodes, order[..n], updates), order[n], updates[order[n]]) then
         sofar[order[n] := Decoded(order[n]).value]
      else sofar
  }

  /** The cached payloads that an incoming record makes obsolete. */
  function EvictedBy(local: Option<ChasmNode>, incoming: ChasmNode): set<Blob> {
    if local.Some? && local.value.attributes.Component? && incoming.attributes.Component? then
      Evicted(BySideEffectKey, local.value.attributes.tasks.side, incoming.attributes.tasks.side) +
      Evicted(ByPureKey, local.value.attributes.tasks.pure, incoming.attributes.tasks.pure)
    else {}
  }

  /** What one iteration of applyUpdates evicts, and what all of them do. */
  function EvictedOne(nodes: Nodes, key: string, incoming: ChasmNode): set<Blob> {
    if Decoded(key).Ok? && Decoded(key).value in nodes && Applies(nodes, key, incoming)
    then EvictedBy(nodes[Decoded(key).value].serialized, incoming) else {}
  }

  function EvictedAll(nodes: Nodes, order: seq<string>, updates: Records): set<Blob>
    requires forall k | k in order :: k in updates && Decoded(k).Ok?
  {
    if order == [] then {}
    else
      var n := |order| - 1;
      EvictedAll(nodes, order[..n], updates) +
        EvictedOne(UpdatedAll(nodes, order[..n], updates), order[n], updates[order[n]])
  }

  /** The task statuses an incoming record takes over from the local one. */
  method CarryOver(local: Option<ChasmNode>, incoming: ChasmNode, cache: set<Blob>)
    returns (out: ChasmNode, cache': set<Blob>)
    ensures out == CarriedOver(local, incoming)
    ensures cache' == cache - EvictedBy(local, incoming)
  {
    out, cache' := incoming, cache;
    if local.Some? && local.value.attributes.Component? && incoming.attributes.Component? {
      var source, target := local.value.attributes.tasks, incoming.attributes.tasks;
      var side, pure;
      side, cache' := CarryOverTaskStatus(BySideEffectKey, source.side, target.side, cache');
      pure, cache' := CarryOverTaskStatus(ByPureKey, source.pure, target.pure, cache');
      out := incoming.(attributes := incoming.attributes.(tasks := TaskLists(side, pure)));
    }
  }

  method Sanitize(cn: ChasmNode) returns (out: ChasmNode)
    ensures out == Sanitized(cn)
  {
    out := cn;
    if cn.attributes.Component? {
      var lists, reset := ResetTaskStatus(cn.attributes.tasks);
      out := cn.(attributes := cn.attributes.(tasks := lists));
    }
  }

  /** The rest of an iteration of applyUpdates for a node that exists and is to be replaced. */
  method ReplaceNode(t: Tree, key: string, q: Path, incoming: ChasmNode)
    requires t.Valid() && q in t.nodes
    modifies t`nodes, t`updatedNodes, t`valueToNode, t`taskValueCache, t`isActiveStateDirty
    ensures t.Valid()
    ensures t.nodes ==
            old(t.nodes)[q :=
                         old(t.nodes)[q].(serialized := Some(CarriedOver(old(t.nodes)[q].serialized, incoming)),
                                          value := None, state := NeedDeserialize)]
    ensures t.updatedNodes == old(t.updatedNodes)[key := q]
    ensures t.isActiveStateDirty == old(t.isActiveStateDirty)
    ensures t.taskValueCache == old(t.taskValueCache) - EvictedBy(old(t.nodes)[q].serialized, incoming)
  {
    var merged;
    merged, t.taskValueCache := CarryOver(t.nodes[q].serialized, incoming, t.taskValueCache);
    t.updatedNodes := t.updatedNodes[key := q];
    t.SetValue(q, None);
    t.SetValueState(q, NeedDeserialize);
    ghost var before := t.nodes;
    t.nodes := t.nodes[q := t.nodes[q].(serialized := Some(merged))];
    assert t.nodes.Keys == before.Keys;
  }

  method ApplyUpdates(t: Tree, updates: Records) returns (ok: bool, ghost order: seq<string>)
    requires t.Valid()
    modifies t`nodes, t`updatedNodes, t`valueToNode, t`taskValueCache, t`isActiveStateDirty
    ensures ok <==> Decodable(updates)
    ensures ok ==> t.Valid() && Enumerates(order, updates.Keys)
    ensures ok ==> t.nodes == UpdatedAll(old(t.nodes), order, updates)
    ensures ok ==> t.updatedNodes == old(t.updatedNodes) + RecordedAll(old(t.nodes), order, updates)
    ensures ok ==> t.taskValueCache == old(t.taskValueCache) - EvictedAll(old(t.nodes), order, updates)
    ensures t.isActiveStateDirty == old(t.isActiveStateDirty)
  {
    ok, order := true, [];
    ghost var start, recorded, cache := t.nodes, t.updatedNodes, t.taskValueCache;
    var todo := updates.Keys;
    ReachedStart(start, updates, recorded, cache);
    while todo != {}
      invariant todo <= updates.Keys && t.Valid()
      invariant Enumerates(order, updates.Keys - todo)
      invariant Reached(start, order, updates, recorded, cache, t.nodes, t.updatedNodes, t.taskValueCache)
      invariant t.isActiveStateDirty == old(t.isActiveStateDirty)
    {
      var k :| k in todo;
      ghost var done := updates.Keys - todo;
      todo := todo - {k};
      assert updates.Keys - todo == done + {k};
      var path := Decode(k);
      if path.Err? {
        return false, order;
      }
      ghost var nodes, entries, left := t.nodes, t.updatedNodes, t.taskValueCache;
      ApplyOne(t, k, path.value, updates[k]);
      EnumeratesOneMore(order, done, k);
      ReachedStep(start, order, k, updates, recorded, cache, nodes, entries, left);
      order := order + [k];
    }
    assert updates.Keys - todo == updates.Keys;
  }

  /** After the updates `order`, the loop of applyUpdates has the tree `nodes`, the mutation
      entries `entries`, and the cached payloads `left`. */
  ghost predicate Reached(start: Nodes, order: seq<string>, updates: Records, recorded: map<string, Path>,
                          cache: set<Blob>, nodes: Nodes, entries: map<string, Path>, left: set<Blob>)
  {
    && (forall k | k in order :: k in updates && Decoded(k).Ok?)
    && nodes == UpdatedAll(start, order, updates)
    && entries == recorded + RecordedAll(start, order, updates)
    && left == cache - EvictedAll(start, order, updates)
  }

  lemma ReachedStart(start: Nodes, updates: Records, recorded: map<string, Path>, cache: set<Blob>)
    ensures Reached(start, [], updates, recorded, cache, start, recorded, cache)
  {
  }

  lemma ReachedStep(start: Nodes, order: seq<string>, k: string, updates: Records, recorded: map<string, Path>,
                    cache: set<Blob>, nodes: Nodes, entries: map<string, Path>, left: set<Blob>)
    requires Reached(start, order, updates, recorded, cache, nodes, entries, left)
    requires k in updates && Decoded(k).Ok?
    ensures Reached(start, order + [k], updates, recorded, cache, UpdatedOne(nodes, k, updates[k]),
                    if Applies(nodes, k, updates[k]) then entries[k := Decoded(k).value]
                    else entries, left - EvictedOne(nodes, k, updates[k]))
  {
    UpdatedAllAppend(start, order, k, updates);
    UpdateOfSum(recorded, RecordedAll(start, order, updates), k, Decoded(k).value);
  }

  lemma UpdateOfSum(a: map<string, Path>, b: map<string, Path>, k: string, p: Path)
    ensures a + b[k := p] == (a + b)[k := p]
  {
  }

  /** One iteration of applyUpdates. */
  method ApplyOne(t: Tree, key: string, q: Path, incoming: ChasmNode)
    requires t.Valid() && Decoded(key) == Ok(q)
    modifies t`nodes, t`updatedNodes, t`valueToNode, t`taskValueCache, t`isActiveStateDirty
    ensures t.Valid()
    ensures t.nodes == UpdatedOne(old(t.nodes), key, incoming)
    ensures t.updatedNodes == if Applies(old(t.nodes), key, incoming) then old(t.updatedNodes)[key := q]
                              else old(t.updatedNodes)
    ensures t.taskValueCache == old(t.taskValueCache) - EvictedOne(old(t.nodes), key, incoming)
    ensures t.isActiveStateDirty == old(t.isActiveStateDirty)
  {
    assert [] + q == q;
    var found := t.FindNode([], q);
    if !found {
      var sanitized := Sanitize(incoming);
      t.SetSerializedNode([], q, key, sanitized);
      t.updatedNodes := t.updatedNodes[key := q];
    } else if t.nodes[q].serialized.None? ||
      CompareVT(t.nodes[q].serialized.value.lastUpdate, incoming.lastUpdate) != 0 {
      ReplaceNode(t, key, q, incoming);
    }
  }

  lemma UpdatedAllAppend(nodes: Nodes, order: seq<string>, k: string, updates: Records)
    requires forall l | l in order :: l in updates && Decoded(l).Ok?
    requires k in updates && Decoded(k).Ok?
    ensures UpdatedAll(nodes, order + [k], updates) == UpdatedOne(UpdatedAll(nodes, order, updates), k, updates[k])
    ensures RecordedAll(nodes, order + [k], updates) ==
            if Applies(UpdatedAll(nodes, order, updates), k, updates[k])
            then RecordedAll(nodes, order, updates)[k := Decoded(k).value] else RecordedAll(nodes, order, updates)
    ensures EvictedAll(nodes, order + [k], updates) ==
            EvictedAll(nodes, order, updates) + EvictedOne(UpdatedAll(nodes, order, updates), k, updates[k])
  {
    assert (order + [k])[..|order|] == order;
  }

  // ----- ApplyMutation and ApplySnapshot

  /** The values that are left have been there before. */
  ghost predicate OldValues(before: Nodes, after: Nodes) {
    forall q | q in after && after[q].value.Some? ::
      q in before && after[q].value == before[q].value && after[q].serialized == before[q].serialized
  }

  lemma {:induction false} UpdatesAddNoValue(nodes: Nodes, order: seq<string>, updates: Records)
    requires forall k | k in order :: k in updates && Decoded(k).Ok?
    ensures OldValues(nodes, UpdatedAll(nodes, order, updates))
  {
    if order == [] {
    } else {
      UpdatesAddNoValue(nodes, order[..|order| - 1], updates);
    }
  }

  lemma NoNewIds(before: Nodes, index: map<nat, Path>, after: Nodes, index': map<nat, Path>)
    requires Index(before, index) && Index(after, index') && OldValues(before, after)
    ensures index'.Keys <= index.Keys
  {
    forall id | id in index'
      ensures id in index
    {
      assert after[index'[id]].IndexedId() == Some(id) == before[index'[id]].IndexedId();
    }
  }

  /** The deletions and the updates of ApplyMutation. */
  method ApplyChanges(t: Tree, updates: Records, deletions: set<string>) returns (ok: bool, ghost order: seq<string>)
    requires t.Valid()
    modifies t
    ensures ok ==> t.valueToNode.Keys <= old(t.valueToNode).Keys
    ensures ok ==> t.Valid() && Decodable(updates) && Enumerates(order, updates.Keys)
    ensures ok ==> t.nodes == UpdatedAll(RemainingNodes(old(t.nodes), Paths(deletions)), order, updates)
    ensures ok ==>
            t.updatedNodes == old(t.updatedNodes) + RecordedAll(RemainingNodes(old(t.nodes), Paths(deletions)),
                                                                order, updates)
    ensures t.systemUpdatedNodes == old(t.systemUpdatedNodes) && t.isActiveStateDirty == old(t.isActiveStateDirty)
    ensures t.needsPointerResolution == old(t.needsPointerResolution)
    ensures ok ==> t.deletedNodes == old(t.deletedNodes) + CoveredKeys(old(t.nodes), Paths(deletions))
    ensures Decodable(updates) && (forall k | k in deletions :: Decoded(k).Ok?) && WellKeyed(old(t.nodes)) ==> ok
  {
    ghost var before, index := t.nodes, t.valueToNode;
    if WellKeyed(t.nodes) {
      WellKeyedIsKeyed(t.nodes);
    }
    order := [];
    ok := ApplyDeletions(t, deletions);
    if !ok {
      return;
    }
    ok, order := ApplyUpdates(t, updates);
    if ok {
      UpdatesAddNoValue(RemainingNodes(before, Paths(deletions)), order, updates);
      assert OldValues(before, t.nodes);
      NoNewIds(before, index, t.nodes, t.valueToNode);
    }
  }

  /** The root component can be read; `root` is what its record is deserialized to, if it can be. */
  predicate RootReadable(nodes: Nodes, root: Option<Value>) {
    && [] in nodes
    && if nodes[[]].state == NeedDeserialize then nodes[[]].IsComponent() && root.Some? && root.value.Object?
       else nodes[[]].value.Some?
  }

  /** The tree after the root component has been read. */
  function RootRead(nodes: Nodes, root: Option<Value>): Nodes {
    if [] in nodes && nodes[[]].state == NeedDeserialize then nodes[[] := nodes[[]].(value := root, state := Synced)]
    else nodes
  }

  lemma ReadingKeepsRecords(nodes: Nodes, root: Option<Value>)
    ensures RootRead(nodes, root).Keys == nodes.Keys
    ensures forall q | q in nodes ::
              && RootRead(nodes, root)[q].serialized == nodes[q].serialized &&
                 Key(RootRead(nodes, root), q) == Key(nodes, q)
              && RootRead(nodes, root)[q].encodedPath == nodes[q].encodedPath
    ensures forall q | q in nodes && q != [] :: RootRead(nodes, root)[q] == nodes[q]
  {
  }

  /** The end of ApplyMutation: the root component is read. */
  method ReadRoot(t: Tree, root: Option<Value>) returns (ok: bool)
    requires t.Valid() && (root.Some? && root.value.Object? ==> root.value.id !in t.valueToNode)
    modifies t`nodes, t`valueToNode, t`isActiveStateDirty
    ensures t.Valid() && t.isActiveStateDirty == old(t.isActiveStateDirty)
    ensures ok <==> RootReadable(old(t.nodes), root)
    ensures ok ==> t.nodes == RootRead(old(t.nodes), root)
    ensures ok ==> t.nodes.Keys == old(t.nodes).Keys &&
                   forall q | q in t.nodes && q != [] :: t.nodes[q] == old(t.nodes)[q]
    ensures ok ==> var before := old(t.nodes)[[]];
              if before.state == NeedDeserialize then
                root.Some? && before.IsComponent() && t.nodes[[]] == before.(value := root, state := Synced)
              else before.value.Some? && t.nodes[[]] == before
  {
    ghost var before := t.nodes;
    if t.nodes[[]].state == NeedDeserialize {
      if !t.nodes[[]].IsComponent() || root.None? || !root.value.Object? {
        return false;
      }
      t.SetValue([], root);
      t.SetValueState([], Synced);
      assert t.nodes == before[[] := before[[]].(value := root, state := Synced)];
    }
    ok := t.nodes[[]].value.Some?;
  }

  method ApplyMutation(t: Tree, updates: Records, deletions: set<string>, root: Option<Value>)
    returns (ok: bool, ghost order: seq<string>, ghost applied: Nodes)
    requires t.Valid() && (root.Some? && root.value.Object? ==> root.value.id !in t.valueToNode)
    modifies t
    ensures ok ==> t.Valid() && Decodable(updates) && Enumerates(order, updates.Keys)
    ensures ok ==> applied == UpdatedAll(RemainingNodes(old(t.nodes), Paths(deletions)), order, updates)
    ensures ok ==> RootReadable(applied, root) && t.nodes == RootRead(applied, root)
    ensures ok ==>
            t.updatedNodes == old(t.updatedNodes) + RecordedAll(RemainingNodes(old(t.nodes), Paths(deletions)),
                                                                order, updates)
    ensures t.systemUpdatedNodes == old(t.systemUpdatedNodes) && t.isActiveStateDirty == old(t.isActiveStateDirty)
    ensures t.needsPointerResolution == old(t.needsPointerResolution)
    ensures ok ==> t.deletedNodes == old(t.deletedNodes) + CoveredKeys(old(t.nodes), Paths(deletions))
    ensures Decodable(updates) && (forall k | k in deletions :: Decoded(k).Ok?) && WellKeyed(old(t.nodes)) ==>
              Enumerates(order, updates.Keys) &&
                applied == UpdatedAll(RemainingNodes(old(t.nodes), Paths(deletions)), order, updates) &&
              (ok <==> RootReadable(applied, root))
  {
    ok, order := ApplyChanges(t, updates, deletions);
    applied := t.nodes;
    if ok {
      ok := ReadRoot(t, root);
    }
  }

  ghost function SnapshotDeletions(current: Records, incoming: Records): set<string> {
    current.Keys - incoming.Keys
  }

  ghost function SnapshotUpdates(current: Records, incoming: Records): Records {
    map k | k in incoming && (k !in current || CompareVT(current[k].lastUpdate, incoming[k].lastUpdate) != 0) ::
      incoming[k]
  }

  /** The two loops of ApplySnapshot over the current and the incoming records. */
  method ComputeMutation(current: Records, incoming: Records) returns (updates: Records, deletions: set<string>)
    ensures deletions == SnapshotDeletions(current, incoming)
    ensures updates == SnapshotUpdates(current, incoming)
    ensures forall k :: k in deletions <==> k in current && k !in incoming
    ensures forall k :: k in updates <==>
                        k in incoming && (k in current ==> current[k].lastUpdate != incoming[k].lastUpdate)
    ensures forall k | k in updates :: updates[k] == incoming[k]
  {
    updates, deletions := map[], {};
    var todo := current.Keys;
    while todo != {}
      invariant todo <= current.Keys
      invariant deletions == (current.Keys - todo) - incoming.Keys
    {
      var k :| k in todo;
      todo := todo - {k};
      if k !in incoming {
        deletions := deletions + {k};
      }
    }
    todo := incoming.Keys;
    while todo != {}
      invariant todo <= incoming.Keys
      invariant updates.Keys == SnapshotUpdates(current, incoming).Keys - todo
      invariant forall k | k in updates :: updates[k] == incoming[k]
    {
      var k :| k in todo;
      todo := todo - {k};
      if k !in current || CompareVT(current[k].lastUpdate, incoming[k].lastUpdate) != 0 {
        updates := updates[k := incoming[k]];
      }
    }
  }

  method ApplySnapshot(t: Tree, incoming: Records, root: Option<Value>)
    returns (ok: bool, ghost order: seq<string>, ghost cached: Nodes, ghost applied: Nodes)
    requires t.Valid() && AllSerialized(t.nodes) && WellKeyed(t.nodes)
    requires root.Some? && root.value.Object? ==> root.value.id !in t.valueToNode
    modifies t
    ensures ok ==> t.Valid()
    ensures ok ==> SnapshotEffect(old(t.nodes), incoming, order, cached, applied) && t.nodes == RootRead(applied, root)
    ensures ok ==> SnapshotEntries(old(t.nodes), incoming, order, cached, old(t.updatedNodes), old(t.deletedNodes),
                                   t.updatedNodes, t.deletedNodes)
    ensures t.systemUpdatedNodes == old(t.systemUpdatedNodes) && t.isActiveStateDirty == old(t.isActiveStateDirty)
    ensures t.needsPointerResolution == old(t.needsPointerResolution)
    ensures Decodable(incoming) ==>
              SnapshotEffect(old(t.nodes), incoming, order, cached, applied) && (ok <==> RootReadable(applied, root))
  {
    var current := Snapshot(t, ZERO_VT);
    var updates, deletions := ComputeMutation(current, incoming);
    cached := t.nodes;
    ok, order, applied := ApplyMutation(t, updates, deletions, root);
  }

  /** `result` is what ApplySnapshot makes of `nodes`, by way of `cached`, the same tree with
      its keys computed. */
  ghost predicate SnapshotEffect(nodes: Nodes, incoming: Records, order: seq<string>, cached: Nodes, result: Nodes) {
    var current := RecordsAt(nodes, nodes.Keys, ZERO_VT);
    var updates := SnapshotUpdates(current, incoming);
    && Decodable(updates)
    && Enumerates(order, updates.Keys)
    && SameButCaches(nodes, cached)
    && result == UpdatedAll(RemainingNodes(cached, Paths(SnapshotDeletions(current, incoming))), order, updates)
  }

  /** What ApplySnapshot adds to the mutation of the standby's own transaction. */
  ghost predicate SnapshotEntries(nodes: Nodes, incoming: Records, order: seq<string>, cached: Nodes,
                                  updated: map<string, Path>, deleted: set<string>, updated': map<string, Path>,
                                  deleted': set<string>)
  {
    var current := RecordsAt(nodes, nodes.Keys, ZERO_VT);
    var updates, paths := SnapshotUpdates(current, incoming), Paths(SnapshotDeletions(current, incoming));
    && (forall k | k in order :: k in updates && Decoded(k).Ok?)
    && updated' == updated + RecordedAll(RemainingNodes(cached, paths), order, updates)
    && deleted' == deleted + CoveredKeys(cached, paths)
  }

  ghost predicate AppliedSnapshot(nodes: Nodes, incoming: Records, order: seq<string>, result: Nodes) {
    exists cached :: SnapshotEffect(nodes, incoming, order, cached, result)
  }
}
