/** A transaction as a sequence of steps on the tree (chasm/tree.go): values are read and
    written, the structure is synchronised, and at the end the transaction is closed. */
module Transitions {
  import opened Basics
  import opened PathEncoder
  import opened PathKeys
  import opened Tasks
  import opened ChasmTree
  import opened SyncApply
  import opened Transaction
  import opened Persistence
  import opened Pointers
  import opened Execution

  /** The tree and the deletions so far. */
  datatype Moment = Moment(nodes: Nodes, deleted: set<string>)

  /** A value was read or written: at most the node at `p` has changed, and if its record has,
      it is that of a component and to be written. */
  ghost predicate ValueChanged(x: Nodes, y: Nodes, p: Path) {
    && p in x && p in y && y == x[p := y[p]] && y[p].encodedPath == x[p].encodedPath && (Dirty(x[p]) ==> Dirty(y[p]))
    && (y[p].serialized == x[p].serialized || (Dirty(y[p]) && x[p].IsComponent() && y[p].IsComponent()))
  }

  ghost predicate ValueStep(x: Moment, y: Moment) {
    y.deleted == x.deleted && exists p :: ValueChanged(x.nodes, y.nodes, p)
  }

  ghost predicate SyncStep(x: Moment, y: Moment, next: VersionedTransition) {
    && PrefixClosed(x.nodes) && PrefixClosed(y.nodes) && NodesOk(x.nodes, []) && WholeSync(x.nodes, y.nodes, next)
    && DeletionsRecorded(x.nodes, y.nodes, [], x.deleted, y.deleted)
  }

  /** The steps of a transaction before its close. */
  ghost predicate IsTransaction(moments: seq<Moment>, next: VersionedTransition) {
    && |moments| > 0
    && forall i | 0 < i < |moments| ::
         ValueStep(moments[i - 1], moments[i]) || SyncStep(moments[i - 1], moments[i], next)
  }

  /** A transaction and its close, with what was persisted before it. */
  datatype Tx = Tx(moments: seq<Moment>, synced: Moment, resolved: Nodes, codec: Codec, image: Records,
                   mutation: Mutation)
  {
    ghost predicate Leads(a: Nodes, b: Nodes, last: VersionedTransition, next: VersionedTransition) {
      && CompareVT(last, next) < 0 && IsTransaction(moments, next) && moments[0] == Moment(a, {})
      && SyncStep(moments[|moments| - 1], synced, next)
      && NothingLost(moments[|moments| - 1].nodes, synced.nodes, resolved, next, codec, mutation, b)
      && mutation.deleted <= synced.deleted && mutation.updated.Keys !! mutation.deleted
      && FullImage(a, image) && FullImage(b, mutation.Apply(image))
      && forall q | q in b :: Clean(b[q])
    }
  }

  lemma Extended(moments: seq<Moment>, m: Moment, next: VersionedTransition)
    requires IsTransaction(moments, next)
    requires ValueStep(moments[|moments| - 1], m) || SyncStep(moments[|moments| - 1], m, next)
    ensures IsTransaction(moments + [m], next)
  {
    var more := moments + [m];
    forall i | 0 < i < |more|
      ensures ValueStep(more[i - 1], more[i]) || SyncStep(more[i - 1], more[i], next)
    {
      if i < |moments| {
        assert more[i - 1] == moments[i - 1] && more[i] == moments[i];
      }
    }
  }

  // ----- Trees with the keys of the encoder

  predicate InMap(nodes: Nodes, q: Path) {
    q != [] && Parent(q) in nodes && nodes[Parent(q)].IsMap()
  }

  /** A cached key is the one that the encoder gives; a node without one that it cannot give
      is new. */
  predicate EncodedAt(nodes: Nodes, q: Path)
    requires q in nodes
  {
    && (nodes[q].encodedPath.Some? ==> nodes[q].encodedPath.value == Join(q, Separator(InMap(nodes, q))))
    && (ValidPath(q) || (Dirty(nodes[q]) && nodes[q].encodedPath.None?))
  }

  ghost predicate EncodedTree(nodes: Nodes) {
    PrefixClosed(nodes) && forall q | q in nodes :: EncodedAt(nodes, q)
  }

  lemma EncodedKeys(nodes: Nodes)
    requires EncodedTree(nodes)
    ensures forall q | q in nodes :: Key(nodes, q) == Join(q, Separator(InMap(nodes, q)))
    ensures forall q | q in nodes && ValidPath(q) :: Decoded(Key(nodes, q)) == Ok(q)
  {
    forall q | q in nodes
      ensures Key(nodes, q) == Join(q, Separator(InMap(nodes, q)))
      ensures ValidPath(q) ==> Decoded(Key(nodes, q)) == Ok(q)
    {
      assert EncodedAt(nodes, q);
      RoundTrip(q, InMap(nodes, q));
    }
  }

  // ----- What every step keeps

  /** The keys of the node at `q` and of all nodes above it are the same in both trees. */
  ghost predicate SameKeysUpTo(a: Nodes, b: Nodes, q: Path) {
    forall r | r <= q && r in b :: r in a && Key(b, r) == Key(a, r)
  }

  /** The node at `q` is as it was in the tree `a`. */
  ghost predicate KeptAt(a: Nodes, b: Nodes, q: Path)
    requires q in b
  {
    q in a && b[q].serialized == a[q].serialized && SameKeysUpTo(a, b, q)
  }

  /** Since the transaction started with `a`, every node has been kept, or is to be written. */
  ghost predicate Since(a: Nodes, b: Nodes) {
    forall q | q in b :: Dirty(b[q]) || KeptAt(a, b, q)
  }

  /** Where something has been deleted, there are only nodes to be written; the root never is. */
  ghost predicate DeletedAnew(m: Moment) {
    && (forall k | k in m.deleted :: Decoded(k).Ok? && Decoded(k).value != [])
    && forall k, q | k in m.deleted && Decoded(k).Ok? && q in m.nodes && Decoded(k).value <= q :: Dirty(m.nodes[q])
  }

  ghost predicate KeepsTrack(a: Nodes, m: Moment) {
    EncodedTree(m.nodes) && Since(a, m.nodes) && DeletedAnew(m)
  }

  lemma ValueKeepsTrack(a: Nodes, x: Moment, y: Moment)
    requires KeepsTrack(a, x) && ValueStep(x, y)
    ensures KeepsTrack(a, y)
  {
    var p :| ValueChanged(x.nodes, y.nodes, p);
    assert y.nodes.Keys == x.nodes.Keys && forall q | q in x.nodes && q != p :: y.nodes[q] == x.nodes[q];
    forall r | r in x.nodes
      ensures InMap(y.nodes, r) == InMap(x.nodes, r) && Key(y.nodes, r) == Key(x.nodes, r)
    {
    }
    forall q | q in y.nodes
      ensures EncodedAt(y.nodes, q)
      ensures Dirty(y.nodes[q]) || KeptAt(a, y.nodes, q)
    {
      assert EncodedAt(x.nodes, q) && (Dirty(x.nodes[q]) || KeptAt(a, x.nodes, q));
    }
  }

  lemma SyncKeepsKeys(x: Moment, y: Moment, next: VersionedTransition, q: Path)
    requires SyncStep(x, y, next) && q in x.nodes && q in y.nodes
    ensures Key(y.nodes, q) == Key(x.nodes, q) && InMap(y.nodes, q) == InMap(x.nodes, q)
    ensures y.nodes[q].encodedPath == x.nodes[q].encodedPath && y.nodes[q].serialized == x.nodes[q].serialized
    ensures Dirty(y.nodes[q]) == Dirty(x.nodes[q])
  {
    SyncOrigin(x.nodes, y.nodes, next, q);
    SyncKeepsKey(x.nodes, y.nodes, next, q);
    if q != [] {
      assert q == Child(Parent(q), q[|q| - 1]);
      SyncOrigin(x.nodes, y.nodes, next, Parent(q));
    }
  }

  lemma SyncKeepsNode(a: Nodes, x: Moment, y: Moment, next: VersionedTransition, q: Path)
    requires KeepsTrack(a, x) && SyncStep(x, y, next) && q in y.nodes
    ensures EncodedAt(y.nodes, q)
    ensures Dirty(y.nodes[q]) || KeptAt(a, y.nodes, q)
  {
    SyncOrigin(x.nodes, y.nodes, next, q);
    if q in x.nodes {
      SyncKeepsKeys(x, y, next, q);
      assert EncodedAt(x.nodes, q) && (Dirty(x.nodes[q]) || KeptAt(a, x.nodes, q));
      forall r | r <= q && r in y.nodes
        ensures r in x.nodes && Key(y.nodes, r) == Key(x.nodes, r)
      {
        PrefixInNodes(x.nodes, r, q);
        SyncKeepsKeys(x, y, next, r);
      }
    }
  }

  lemma SyncKeepsDeletedAnew(x: Moment, y: Moment, next: VersionedTransition)
    requires DeletedAnew(x) && SyncStep(x, y, next)
    ensures DeletedAnew(y)
  {
    forall k, q | k in y.deleted && Decoded(k).Ok? && q in y.nodes && Decoded(k).value <= q
      ensures Dirty(y.nodes[q])
    {
      SyncOrigin(x.nodes, y.nodes, next, q);
      PrefixInNodes(y.nodes, Decoded(k).value, q);
      assert k in x.deleted;
      if q in x.nodes {
        SyncKeepsKeys(x, y, next, q);
      }
    }
  }

  lemma SyncKeepsTrack(a: Nodes, x: Moment, y: Moment, next: VersionedTransition)
    requires KeepsTrack(a, x) && SyncStep(x, y, next)
    ensures KeepsTrack(a, y)
  {
    forall q | q in y.nodes
      ensures EncodedAt(y.nodes, q)
      ensures Dirty(y.nodes[q]) || KeptAt(a, y.nodes, q)
    {
      SyncKeepsNode(a, x, y, next, q);
    }
    SyncKeepsDeletedAnew(x, y, next);
  }

  /** So does any number of steps. */
  lemma {:induction false} TransactionKeepsTrack(a: Nodes, moments: seq<Moment>, next: VersionedTransition, n: nat)
    requires IsTransaction(moments, next) && moments[0] == Moment(a, {}) && EncodedTree(a) && n < |moments|
    ensures KeepsTrack(a, moments[n])
  {
    if n == 0 {
    } else {
      TransactionKeepsTrack(a, moments, next, n - 1);
      if ValueStep(moments[n - 1], moments[n]) {
        ValueKeepsTrack(a, moments[n - 1], moments[n]);
      } else {
        SyncKeepsTrack(a, moments[n - 1], moments[n], next);
      }
    }
  }

  lemma ResolvingKeepsTrack(a: Nodes, synced: Moment, resolved: Nodes)
    requires PointersResolved(synced.nodes, resolved) && KeepsTrack(a, synced)
    ensures KeepsTrack(a, Moment(resolved, synced.deleted))
  {
    if resolved != synced.nodes {
      var index :| Index(synced.nodes, index) && ResolvedSoFar(synced.nodes, index, synced.nodes.Keys, resolved);
      ResolvedKinds(synced.nodes, index, synced.nodes.Keys, resolved);
      ResolvingKeepsKeys(synced.nodes, index, synced.nodes.Keys, resolved);
      forall q | q in resolved
        ensures EncodedAt(resolved, q)
        ensures Dirty(resolved[q]) || KeptAt(a, resolved, q)
      {
        assert EncodedAt(synced.nodes, q) && (Dirty(synced.nodes[q]) || KeptAt(a, synced.nodes, q));
      }
    }
  }

  /** At the close. */
  lemma TxKeepsTrack(tx: Tx, a: Nodes, b: Nodes, last: VersionedTransition, next: VersionedTransition)
    requires tx.Leads(a, b, last, next) && EncodedTree(a)
    ensures KeepsTrack(a, Moment(tx.resolved, tx.synced.deleted))
  {
    var n := |tx.moments| - 1;
    TransactionKeepsTrack(a, tx.moments, next, n);
    SyncKeepsTrack(a, tx.moments[n], tx.synced, next);
    ResolvingKeepsTrack(a, tx.synced, tx.resolved);
  }
}
