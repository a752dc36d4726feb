/** A fresh value over a child that is still attached (chasm/tree.go, syncSubField), as the
    Visibility component assigns its search attributes and memo: what the old node leaves behind. */
module Replacement {
  import opened Basics
  import opened PathEncoder
  import opened PathKeys
  import opened Tasks
  import opened ChasmTree
  import opened Sync
  import opened Transaction
  import opened CloseTasks
  import opened CloseTree
  import opened Persistence

  /** A new node takes the place of the one at `child`; all below that leaves the tree. */
  function Replaced(nodes: Nodes, child: Path, n: Node): Nodes {
    map q | q in nodes && (q == child || !(child <= q)) :: if q == child then n else nodes[q]
  }

  /** The values of the nodes that have left, which nobody takes out of the index. */
  function StaleIds(nodes: Nodes, child: Path): set<nat> {
    set q | q in nodes && child <= q && nodes[q].IndexedId().Some? :: nodes[q].IndexedId().value
  }

  lemma ReplacedKeys(nodes: Nodes, child: Path, n: Node)
    requires PrefixClosed(nodes) && child in nodes && child != []
    ensures PrefixClosed(Replaced(nodes, child, n))
    ensures forall q | q in Replaced(nodes, child, n) && q != child ::
              Key(Replaced(nodes, child, n), q) == Key(nodes, q)
  {
    var nodes' := Replaced(nodes, child, n);
    forall p, f | Child(p, f) in nodes'
      ensures p in nodes'
    {
      assert child <= p ==> child <= Child(p, f);
    }
    forall q | q in nodes' && q != child
      ensures Key(nodes', q) == Key(nodes, q)
    {
      if q != [] {
        assert q == Child(Parent(q), q[|q| - 1]);
        assert Parent(q) in nodes' && (child <= Parent(q) ==> child <= q);
      }
    }
  }

  /** The records of what has left the tree are all accounted for: deleted already, or about to be
      overwritten by that of the new node. */
  ghost predicate NothingLeftBehind(deleted: set<string>, records: Records, child: Path, key: string) {
    forall k | k in records && k !in deleted && Decoded(k).Ok? && child <= Decoded(k).value :: k == key
  }

  /** The transaction stays in step with what is persisted exactly if nothing is left behind. */
  lemma ReplacingKeepsTx(nodes: Nodes, deleted: set<string>, records: Records, child: Path, n: Node)
    requires PrefixClosed(nodes) && TxInv(nodes, deleted, records) && child in nodes && child != []
    requires Dirty(n) && n.serialized.Some? && n.encodedPath == None &&
             Decoded(Key(Replaced(nodes, child, n), child)) == Ok(child)
    ensures var nodes' := Replaced(nodes, child, n);
            TxInv(nodes', deleted, records) <==> NothingLeftBehind(deleted, records, child, Key(nodes', child))
  {
    var nodes' := Replaced(nodes, child, n);
    ReplacedKeys(nodes, child, n);
    forall q | q in nodes'
      ensures NodePersisted(nodes', deleted, records, q)
    {
      assert q != child ==> NodePersisted(nodes, deleted, records, q);
    }
    forall k | k in records
      ensures k in deleted || KeyOfNode(nodes', k) <==>
              (k !in deleted && Decoded(k).Ok? && child <= Decoded(k).value ==> k == Key(nodes', child))
    {
      assert k in deleted || KeyOfNode(nodes, k);
    }
  }

  /** So it does when the child replaced was a leaf and its key is the encoder's, as those of
      search attributes and memo are. */
  lemma ReplacingLeafKeepsTx(nodes: Nodes, deleted: set<string>, records: Records, child: Path, n: Node)
    requires PrefixClosed(nodes) && TxInv(nodes, deleted, records) && child in nodes && child != []
    requires Dirty(n) && n.serialized.Some? && n.encodedPath == None &&
             Decoded(Key(Replaced(nodes, child, n), child)) == Ok(child)
    requires forall q | q in nodes && child <= q :: q == child
    requires Key(nodes, child) == Key(Replaced(nodes, child, n), child)
    ensures TxInv(Replaced(nodes, child, n), deleted, records)
  {
    ReplacingKeepsTx(nodes, deleted, records, child, n);
    forall k | k in records && k !in deleted && Decoded(k).Ok? && child <= Decoded(k).value
      ensures k == Key(nodes, child)
    {
      assert KeyOfNode(nodes, k);
    }
  }

  /** Nothing may be persisted below the child that is replaced: a node there stays among the
      records when it has left the tree. */
  lemma ReplacedSubtreeStays(nodes: Nodes, deleted: set<string>, records: Records, child: Path, key: string, q: Path)
    requires TxInv(nodes, deleted, records) && q in nodes && child <= q && q != child && Clean(nodes[q]) &&
             Decoded(key) == Ok(child)
    ensures !NothingLeftBehind(deleted, records, child, key)
  {
    assert NodePersisted(nodes, deleted, records, q);
    assert Decoded(Key(nodes, q)) == Ok(q);
  }

  /** What is left behind is neither deleted nor the key of a node. */
  lemma LeftBehindStays(nodes: Nodes, deleted: set<string>, records: Records, child: Path, n: Node,
                        deleted': set<string>, after: Nodes, mutation: Mutation)
    requires child in nodes && after.Keys == Replaced(nodes, child, n).Keys
    requires forall q | q in after :: Key(after, q) == Key(Replaced(nodes, child, n), q)
    requires mutation.deleted <= deleted && FullImage(after, mutation.Apply(records))
    ensures NothingLeftBehind(deleted, records, child, Key(Replaced(nodes, child, n), child))
  {
    forall k | k in records && k !in deleted && Decoded(k).Ok? && child <= Decoded(k).value
      ensures k == Key(Replaced(nodes, child, n), child)
    {
      assert k in mutation.Apply(records);
      assert KeyOfNode(after, k);
    }
  }

  /** So the mutation of the close that follows persists the tree exactly if nothing is left
      behind.  `written` is the tree after serialization, `after` the one after the tasks. */
  lemma ReplacementPersisted(nodes: Nodes, deleted: set<string>, records: Records, child: Path, n: Node,
                             next: VersionedTransition, codec: Codec, written: Nodes, updated: map<string, Path>,
                             visited: seq<Path>, after: Nodes, updated': map<string, Path>, deleted': set<string>,
                             system': map<string, Path>, stamp: Stamp)
    requires PrefixClosed(nodes) && TxInv(nodes, deleted, records) && child in nodes && child != []
    requires Dirty(n) && n.serialized.Some? && n.encodedPath == None &&
             Decoded(Key(Replaced(nodes, child, n), child)) == Ok(child)
    requires var start := Replaced(nodes, child, n);
             && SerializedSoFar(start, start.Keys, next, codec, written) &&
                DirtyEntries(start, start.Keys, map[], updated)
             && MutationCovers(written, updated, deleted - DirtyKeys(start, start.Keys), map[], visited, after,
                               updated', deleted', system', stamp)
    ensures FullImage(after, Mutation(Resolve(after, updated' + system'), deleted').Apply(records)) <==>
            NothingLeftBehind(deleted, records, child, Key(Replaced(nodes, child, n), child))
  {
    var start, mutation := Replaced(nodes, child, n), Mutation(Resolve(after, updated' + system'), deleted');
    ReplacingKeepsTx(nodes, deleted, records, child, n);
    SerializingKeepsKeys(start, start.Keys, next, codec, written);
    AccountedKeys(written, after, map[] + updated' + system', stamp);
    if TxInv(start, deleted, records) {
      AddNothing(updated, map[]);
      SerializeWrites(start, deleted, records, next, codec, written, updated, deleted - DirtyKeys(start, start.Keys));
      MutationCompletes(written, updated, map[], deleted - DirtyKeys(start, start.Keys), records, visited, after,
                        updated', deleted', system', stamp);
    }
    if FullImage(after, mutation.Apply(records)) {
      LeftBehindStays(nodes, deleted, records, child, n, deleted', after, mutation);
    }
  }

  lemma ReplacedIndex(nodes: Nodes, index: map<nat, Path>, child: Path, n: Node, id: nat)
    requires Index(nodes, index) && child in nodes && id !in index && n.IndexedId() == Some(id)
    ensures Index(Replaced(nodes, child, n), index[id := child] - StaleIds(nodes, child))
  {
    var nodes' := Replaced(nodes, child, n);
    forall q | q in nodes' && nodes'[q].IndexedId().Some?
      ensures nodes'[q].IndexedId().value !in StaleIds(nodes, child)
    {
    }
  }

  lemma ReplacementFacts(nodes: Nodes, index: map<nat, Path>, deleted: set<string>, records: Records, child: Path,
                         n: Node, id: nat)
    requires PrefixClosed(nodes) && TxInv(nodes, deleted, records) && child in nodes && child != [] && ValidPath(child)
    requires Index(nodes, index) && id !in index && n.IndexedId() == Some(id)
    requires Dirty(n) && n.serialized.Some? && n.encodedPath == None
    ensures PrefixClosed(Replaced(nodes, child, n))
    ensures Index(Replaced(nodes, child, n), index[id := child] - StaleIds(nodes, child)) &&
            StaleIds(nodes, child) <= index.Keys
    ensures TxInv(Replaced(nodes, child, n), deleted, records) <==>
            NothingLeftBehind(deleted, records, child, Key(Replaced(nodes, child, n), child))
  {
    ReplacedKeys(nodes, child, n);
    ReplacedIndex(nodes, index, child, n, id);
    RoundTrip(child, Parent(child) in Replaced(nodes, child, n) && Replaced(nodes, child, n)[Parent(child)].IsMap());
    ReplacingKeepsTx(nodes, deleted, records, child, n);
  }

  /** The part of syncSubField that creates a node, where there is one already. */
  method ReplaceChild(t: Tree, child: Path, kind: FieldType, value: Value, detached: bool, next: VersionedTransition,
                      ghost records: Records)
    requires t.Valid() && child in t.nodes && child != [] && FreshValue(kind, value) && value.Object? &&
             value.id !in t.valueToNode
    requires TxInv(t.nodes, t.deletedNodes, records) && ValidPath(child)
    modifies t`nodes, t`valueToNode, t`isActiveStateDirty
    ensures t.nodes == Replaced(old(t.nodes), child, NewChild(kind, value, detached, next)) && PrefixClosed(t.nodes)
    ensures forall q :: q in t.nodes <==> q in old(t.nodes) && (child <= q ==> q == child)
    ensures forall q | q in t.nodes && q != child :: t.nodes[q] == old(t.nodes)[q]
    ensures t.valueToNode == old(t.valueToNode)[value.id := child]
    ensures Index(t.nodes, t.valueToNode - StaleIds(old(t.nodes), child)) &&
            StaleIds(old(t.nodes), child) <= old(t.valueToNode).Keys
    ensures TxInv(t.nodes, t.deletedNodes, records) <==>
            NothingLeftBehind(t.deletedNodes, records, child, Key(t.nodes, child))
    ensures t.isActiveStateDirty
  {
    var n := NewChild(kind, value, detached, next);
    ReplacementFacts(t.nodes, t.valueToNode, t.deletedNodes, records, child, n, value.id);
    assert child <= child;
    t.nodes, t.valueToNode, t.isActiveStateDirty := Replaced(t.nodes, child, n), t.valueToNode[value.id := child], true;
  }
}
