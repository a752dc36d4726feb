/** Incremental persistence (chasm/tree.go): the mutation that a transaction returns turns the
    records persisted before into the records of the tree in memory. */
module Persistence {
  import opened Basics
  import opened PathEncoder
  import opened Tasks
  import opened ChasmTree
  import opened Sync
  import opened SyncApply
  import opened Transaction
  import opened CloseTasks
  import opened CloseTree

  /** What CloseTransaction returns, with its references to records resolved. */
  datatype Mutation = Mutation(updated: Records, deleted: set<string>)
  {
    /** The records after the mutation has been persisted. */
    function Apply(records: Records): Records {
      map k | k in records.Keys + updated.Keys && (k in updated || k !in deleted) ::
        if k in updated then updated[k] else records[k]
    }
  }

  /** The key stands for a node of the tree. */
  ghost predicate KeyOfNode(nodes: Nodes, k: string) {
    Decoded(k).Ok? && Decoded(k).value in nodes && Key(nodes, Decoded(k).value) == k
  }

  /** The records are those of the tree, each under the key of its node. */
  ghost predicate FullImage(nodes: Nodes, records: Records) {
    && (forall q | q in nodes ::
          nodes[q].serialized.Some? && Key(nodes, q) in records && records[Key(nodes, q)] == nodes[q].serialized.value)
    && (forall k | k in records :: KeyOfNode(nodes, k))
  }

  // ----- The invariant of a transaction

  predicate Clean(n: Node) {
    n.state == NeedDeserialize || n.state == Synced
  }

  /** The node at `q` is new or changed, or is persisted as it is. */
  ghost predicate NodePersisted(nodes: Nodes, deleted: set<string>, records: Records, q: Path)
    requires q in nodes
  {
    && nodes[q].serialized.Some? && (Clean(nodes[q]) || Dirty(nodes[q]))
    && (Clean(nodes[q]) ==>
          && Decoded(Key(nodes, q)) == Ok(q)
          && Key(nodes, q) in records && records[Key(nodes, q)] == nodes[q].serialized.value
          && Key(nodes, q) !in deleted)
  }

  /** At any time between two closes: what the tree, the deletions so far and the records
      persisted by the last close have to do with each other. */
  ghost predicate TxInv(nodes: Nodes, deleted: set<string>, records: Records) {
    && CachedKeysDecode(nodes)
    && (forall q | q in nodes :: NodePersisted(nodes, deleted, records, q))
    && (forall k | k in records :: k in deleted || KeyOfNode(nodes, k))
  }

  /** The transaction starts from a tree that is fully persisted. */
  lemma FreshTransaction(nodes: Nodes, records: Records)
    requires CachedKeysDecode(nodes) && FullImage(nodes, records)
    requires forall q | q in nodes :: Clean(nodes[q]) && Decoded(Key(nodes, q)) == Ok(q)
    ensures TxInv(nodes, {}, records)
  {
  }

  // ----- Steps within a transaction

  lemma ChangingOneNode(nodes: Nodes, deleted: set<string>, records: Records, q: Path, n: Node)
    requires TxInv(nodes, deleted, records) && q in nodes
    requires n.serialized == nodes[q].serialized && n.encodedPath == nodes[q].encodedPath
    requires Dirty(n) || (Clean(n) && Clean(nodes[q]))
    ensures TxInv(nodes[q := n], deleted, records)
  {
    var nodes' := nodes[q := n];
    forall r | r in nodes
      ensures Key(nodes', r) == Key(nodes, r)
    {
    }
    forall r | r in nodes'
      ensures NodePersisted(nodes', deleted, records, r)
    {
      assert NodePersisted(nodes, deleted, records, r);
    }
  }

  /** setValue and setValueState. */
  method SetValueAndState(t: Tree, p: Path, value: Value, state: ValueState)
    requires t.Valid() && p in t.nodes
    requires (t.nodes[p].IsComponent() || t.nodes[p].IsData()) && value.Object? && value.id in t.valueToNode ==>
               t.valueToNode[value.id] == p
    modifies t`nodes, t`valueToNode, t`isActiveStateDirty
    ensures t.Valid() && t.nodes == old(t.nodes)[p := old(t.nodes)[p].(value := Some(value), state := state)]
    ensures t.isActiveStateDirty == (old(t.isActiveStateDirty) || state == NeedSerialize || state == NeedSyncStructure)
  {
    ghost var before := t.nodes;
    t.SetValue(p, Some(value));
    UpdateTwice(before, p, t.nodes[p], before[p].(value := Some(value), state := state));
    t.SetValueState(p, state);
  }

  /** prepareComponentValue, and what the application then does to the value: a component
      that is accessed for writing gets any new fields. */
  method WriteComponent(t: Tree, p: Path, value: Value, ghost records: Records)
    requires t.Valid() && p in t.nodes && t.nodes[p].IsComponent() && value.Object?
    requires value.id in t.valueToNode ==> t.valueToNode[value.id] == p
    requires TxInv(t.nodes, t.deletedNodes, records)
    modifies t`nodes, t`valueToNode, t`isActiveStateDirty
    ensures t.Valid() && TxInv(t.nodes, t.deletedNodes, records)
    ensures t.nodes == old(t.nodes)[p := old(t.nodes)[p].(value := Some(value), state := NeedSyncStructure)]
    ensures t.isActiveStateDirty
  {
    ChangingOneNode(t.nodes, t.deletedNodes, records, p, t.nodes[p].(value := Some(value), state := NeedSyncStructure));
    SetValueAndState(t, p, value, NeedSyncStructure);
  }

  /** prepareDataValue, and what the application then does to the object. */
  method WriteDataNode(t: Tree, p: Path, value: Value, ghost records: Records)
    requires t.Valid() && p in t.nodes && t.nodes[p].IsData() && value.Object?
    requires value.id in t.valueToNode ==> t.valueToNode[value.id] == p
    requires TxInv(t.nodes, t.deletedNodes, records)
    modifies t`nodes, t`valueToNode, t`isActiveStateDirty
    ensures t.Valid() && TxInv(t.nodes, t.deletedNodes, records)
    ensures t.nodes == old(t.nodes)[p := old(t.nodes)[p].(value := Some(value), state := NeedSerialize)]
    ensures t.isActiveStateDirty
  {
    ChangingOneNode(t.nodes, t.deletedNodes, records, p, t.nodes[p].(value := Some(value), state := NeedSerialize));
    SetValueAndState(t, p, value, NeedSerialize);
  }

  /** What deserialize makes of the record of a node: a new object, or the path of a pointer. */
  predicate ValueRead(n: Node, value: Value, index: map<nat, Path>) {
    || ((n.IsComponent() || n.IsData()) && value.Object? && value.id !in index)
    || (n.IsPointer() && value == PathValue(n.serialized.value.attributes.target))
  }

  /** deserialize: the value of a node is read for the first time. */
  method Hydrate(t: Tree, p: Path, value: Value, ghost records: Records)
    requires t.Valid() && p in t.nodes && t.nodes[p].state == NeedDeserialize &&
             ValueRead(t.nodes[p], value, t.valueToNode)
    requires TxInv(t.nodes, t.deletedNodes, records)
    modifies t`nodes, t`valueToNode, t`isActiveStateDirty
    ensures t.Valid() && TxInv(t.nodes, t.deletedNodes, records)
    ensures t.nodes == old(t.nodes)[p := old(t.nodes)[p].(value := Some(value), state := Synced)]
    ensures t.isActiveStateDirty == old(t.isActiveStateDirty)
  {
    ChangingOneNode(t.nodes, t.deletedNodes, records, p, t.nodes[p].(value := Some(value), state := Synced));
    SetValueAndState(t, p, value, Synced);
  }

  // ----- Sync keeps the invariant

  ghost predicate WholeSync(before: Nodes, after: Nodes, next: VersionedTransition)
    requires [] in before
  {
    SyncedAt(before, after, [], next)
  }

  /** Each node after a sync was there before and has at most settled, or is new. */
  lemma SyncOrigin(before: Nodes, after: Nodes, next: VersionedTransition, q: Path)
    requires PrefixClosed(before) && NodesOk(before, []) && WholeSync(before, after, next) && q in after
    ensures if q in before then SettledFrom(before[q], after[q]) else NewlyMade(after[q], next)
  {
    assert Same(after, q) == SyncedNode(before, [], q, next);
    SyncedNodeOrigin(before, [], q, next);
  }

  lemma SyncKeepsKey(before: Nodes, after: Nodes, next: VersionedTransition, q: Path)
    requires PrefixClosed(before) && PrefixClosed(after) && NodesOk(before, []) && WholeSync(before, after, next)
    requires q in before && q in after
    ensures Key(after, q) == Key(before, q)
  {
    SyncOrigin(before, after, next, q);
    if q != [] {
      assert q == Child(Parent(q), q[|q| - 1]);
      SyncOrigin(before, after, next, Parent(q));
    }
  }

  lemma SyncKeepsTx(before: Nodes, after: Nodes, next: VersionedTransition, deleted: set<string>, deleted': set<string>,
                    records: Records)
    requires PrefixClosed(before) && PrefixClosed(after) && NodesOk(before, []) && WholeSync(before, after, next)
    requires DeletionsRecorded(before, after, [], deleted, deleted') && CachedKeysDecode(after)
    requires TxInv(before, deleted, records)
    ensures TxInv(after, deleted', records)
  {
    forall q | q in after
      ensures NodePersisted(after, deleted', records, q)
    {
      SyncOrigin(before, after, next, q);
      if q in before {
        SyncKeepsKey(before, after, next, q);
        assert NodePersisted(before, deleted, records, q);
      }
    }
    forall k | k in records
      ensures k in deleted' || KeyOfNode(after, k)
    {
      if k !in deleted {
        var q := Decoded(k).value;
        if q in after {
          SyncKeepsKey(before, after, next, q);
        }
      }
    }
  }

  // ----- Serializing keeps what is persisted in step

  /** After serialization: every node is in the mutation, or is persisted as it is. */
  ghost predicate WrittenAt(nodes: Nodes, updated: map<string, Path>, deleted: set<string>, records: Records, q: Path)
    requires q in nodes
  {
    && nodes[q].serialized.Some? && Clean(nodes[q]) && Decoded(Key(nodes, q)) == Ok(q)
    && if Key(nodes, q) in updated then updated[Key(nodes, q)] == q
       else Key(nodes, q) in records && records[Key(nodes, q)] == nodes[q].serialized.value && Key(nodes, q) !in deleted
  }

  ghost predicate Written(nodes: Nodes, updated: map<string, Path>, deleted: set<string>, records: Records) {
    && (forall q | q in nodes :: WrittenAt(nodes, updated, deleted, records, q))
    && (forall k | k in updated :: KeyOfNode(nodes, k))
    && (forall k | k in records :: k in deleted || KeyOfNode(nodes, k))
  }

  /** No key is both written and deleted. */
  ghost predicate Apart(entries: map<string, Path>, deleted: set<string>) {
    forall k | k in entries :: k !in deleted
  }

  lemma SerializeWrites(start: Nodes, deleted: set<string>, records: Records, next: VersionedTransition, codec: Codec,
                        nodes: Nodes, updated: map<string, Path>, deleted': set<string>)
    requires TxInv(start, deleted, records)
    requires SerializedSoFar(start, start.Keys, next, codec, nodes)
    requires DirtyEntries(start, start.Keys, map[], updated) && deleted' == deleted - DirtyKeys(start, start.Keys)
    ensures Written(nodes, updated, deleted', records) && Apart(updated, deleted')
  {
    SerializingKeepsKeys(start, start.Keys, next, codec, nodes);
    forall q | q in nodes
      ensures WrittenAt(nodes, updated, deleted', records, q)
    {
      assert NodePersisted(start, deleted, records, q);
      CleanKeyNotWritten(start, deleted, records, q, updated);
    }
    forall k | k in updated
      ensures KeyOfNode(nodes, k)
    {
      var q :| q in start && Dirty(start[q]) && Key(start, q) == k;
    }
    forall k | k in records
      ensures k in deleted' || KeyOfNode(nodes, k)
    {
      if k in DirtyKeys(start, start.Keys) {
        var q :| q in start && Dirty(start[q]) && Key(start, q) == k;
      }
    }
  }

  lemma CleanKeyNotWritten(start: Nodes, deleted: set<string>, records: Records, q: Path, updated: map<string, Path>)
    requires TxInv(start, deleted, records) && q in start && NodePersisted(start, deleted, records, q)
    requires forall r | r in start && Dirty(start[r]) :: Decoded(Key(start, r)) == Ok(r)
    requires DirtyEntries(start, start.Keys, map[], updated)
    ensures Clean(start[q]) ==> Key(start, q) !in updated
  {
    if Clean(start[q]) {
      forall r | r in start && Dirty(start[r])
        ensures Key(start, r) != Key(start, q)
      {
      }
    }
  }

  // ----- The task phase

  /** The mutation with its entries resolved to the records of the tree. */
  function Resolve(nodes: Nodes, entries: map<string, Path>): Records {
    map k | k in entries && entries[k] in nodes && nodes[entries[k]].serialized.Some? ::
      nodes[entries[k]].serialized.value
  }

  lemma EntryOfNode(start: Nodes, updated: map<string, Path>, system: map<string, Path>, deleted: set<string>,
                    records: Records, visited: seq<Path>, nodes: Nodes, updated': map<string, Path>,
                    deleted': set<string>, system': map<string, Path>, stamp: Stamp, k: string)
    requires Written(start, updated + system, deleted, records)
    requires MutationCovers(start, updated, deleted, system, visited, nodes, updated', deleted', system', stamp)
    requires k in updated' + system'
    ensures KeyOfNode(nodes, k) && (updated' + system')[k] == Decoded(k).value
    ensures Apart(updated + system, deleted) ==> k !in deleted'
  {
    AccountedKeys(start, nodes, system + updated' + system', stamp);
    if k in system' && k !in system {
      assert WrittenAt(start, updated + system, deleted, records, system'[k]);
    }
    if k in updated + system {
      assert KeyOfNode(start, k);
      assert WrittenAt(start, updated + system, deleted, records, Decoded(k).value);
    }
  }

  /** Persisting the mutation gives exactly the records of the tree. */
  lemma MutationCompletes(start: Nodes, updated: map<string, Path>, system: map<string, Path>, deleted: set<string>,
                          records: Records, visited: seq<Path>, nodes: Nodes, updated': map<string, Path>,
                          deleted': set<string>, system': map<string, Path>, stamp: Stamp)
    requires Written(start, updated + system, deleted, records)
    requires MutationCovers(start, updated, deleted, system, visited, nodes, updated', deleted', system', stamp)
    ensures var mutation := Mutation(Resolve(nodes, updated' + system'), deleted');
            FullImage(nodes, mutation.Apply(records)) &&
              (Apart(updated + system, deleted) ==> mutation.updated.Keys !! mutation.deleted)
  {
    var entries := updated' + system';
    var mutation := Mutation(Resolve(nodes, entries), deleted');
    AccountedKeys(start, nodes, system + updated' + system', stamp);
    forall k | k in entries
      ensures KeyOfNode(nodes, k) && entries[k] == Decoded(k).value &&
              (Apart(updated + system, deleted) ==> k !in deleted')
    {
      EntryOfNode(start, updated, system, deleted, records, visited, nodes, updated', deleted', system', stamp, k);
    }
    forall q | q in nodes
      ensures ImageAt(nodes, mutation.Apply(records), q)
    {
      NodeInImage(start, updated, system, deleted, records, visited, nodes, updated', deleted', system', stamp, q);
    }
    forall k | k in mutation.Apply(records)
      ensures KeyOfNode(nodes, k)
    {
    }
  }

  ghost predicate ImageAt(nodes: Nodes, records: Records, q: Path)
    requires q in nodes
  {
    nodes[q].serialized.Some? && Key(nodes, q) in records && records[Key(nodes, q)] == nodes[q].serialized.value
  }

  lemma NodeInImage(start: Nodes, updated: map<string, Path>, system: map<string, Path>, deleted: set<string>,
                    records: Records, visited: seq<Path>, nodes: Nodes, updated': map<string, Path>,
                    deleted': set<string>, system': map<string, Path>, stamp: Stamp, q: Path)
    requires Written(start, updated + system, deleted, records) && q in nodes
    requires MutationCovers(start, updated, deleted, system, visited, nodes, updated', deleted', system', stamp)
    ensures ImageAt(nodes, Mutation(Resolve(nodes, updated' + system'), deleted').Apply(records), q)
  {
    AccountedKeys(start, nodes, system + updated' + system', stamp);
    assert WrittenAt(start, updated + system, deleted, records, q);
    var k := Key(nodes, q);
    if k in updated' + system' {
      EntryOfNode(start, updated, system, deleted, records, visited, nodes, updated', deleted', system', stamp, k);
      EntryInImage(nodes, updated' + system', deleted', records, q);
    } else {
      UnwrittenStays(start, updated, system, deleted, records, visited, nodes, updated', deleted', system', stamp, q);
    }
  }

  lemma EntryInImage(nodes: Nodes, entries: map<string, Path>, deleted: set<string>, records: Records, q: Path)
    requires q in nodes && nodes[q].serialized.Some? && Key(nodes, q) in entries && entries[Key(nodes, q)] == q
    ensures ImageAt(nodes, Mutation(Resolve(nodes, entries), deleted).Apply(records), q)
  {
  }

  lemma UnwrittenStays(start: Nodes, updated: map<string, Path>, system: map<string, Path>, deleted: set<string>,
                       records: Records, visited: seq<Path>, nodes: Nodes, updated': map<string, Path>,
                       deleted': set<string>, system': map<string, Path>, stamp: Stamp, q: Path)
    requires q in start && WrittenAt(start, updated + system, deleted, records, q) &&
             Key(start, q) !in updated' + system'
    requires MutationCovers(start, updated, deleted, system, visited, nodes, updated', deleted', system', stamp)
    ensures nodes[q].serialized == start[q].serialized && Key(start, q) in records && Key(start, q) !in deleted'
    ensures records[Key(start, q)] == start[q].serialized.value
  {
  }
}
