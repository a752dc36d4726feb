/** A source cluster and its standby (chasm/tree.go): a node that has not changed since an
    earlier state of its own tree has kept its record, its key, and the keys of all nodes above
    it.  So a standby that holds such a state is always brought to the present one, by a
    snapshot or by the mutations of the transactions in between. */
module Source {
  import opened Basics
  import opened PathEncoder
  import opened Tasks
  import opened ChasmTree
  import opened Transaction
  import opened Replication
  import opened ReplicationApply
  import opened Convergence
  import opened Persistence
  import opened Execution
  import opened Transitions

  // ----- Over a transaction

  /** The node at `q` has in `b` the replicated part of the record that it has in `a`, and its
      key and those of all nodes above it are the same. */
  ghost predicate DescendsAt(a: Nodes, b: Nodes, q: Path)
    requires q in b
  {
    q in a && Stripped(b[q]) == Stripped(a[q]) && SameKeysUpTo(a, b, q)
  }

  /** Whatever has in `b` a version up to `last` has been kept since `a`. */
  ghost predicate Descends(a: Nodes, b: Nodes, last: VersionedTransition) {
    forall q | q in b && b[q].serialized.Some? && CompareVT(b[q].serialized.value.lastUpdate, last) <= 0 ::
      DescendsAt(a, b, q)
  }

  /** A tree at rest whose nodes have all been written, with the keys of the encoder. */
  ghost predicate SourceTree(nodes: Nodes) {
    EncodedTree(nodes) && forall q | q in nodes :: Newer(nodes[q], ZERO_VT) && Clean(nodes[q])
  }

  // In the following, `m` is the tree at the close, with its deferred pointers resolved, of a
  // transaction that started with `a`, and `b` the tree that the close leaves.

  ghost predicate ClosedFrom(a: Nodes, m: Moment, next: VersionedTransition, codec: Codec, mutation: Mutation,
                             b: Nodes) {
    KeepsTrack(a, m) && AllSerializable(m.nodes) && ContentPersisted(m.nodes, next, codec, mutation, b)
  }

  lemma TxCloses(a: Nodes, tx: Tx, b: Nodes, last: VersionedTransition, next: VersionedTransition)
    requires tx.Leads(a, b, last, next) && EncodedTree(a)
    ensures ClosedFrom(a, Moment(tx.resolved, tx.synced.deleted), next, tx.codec, tx.mutation, b)
    ensures CompareVT(last, next) < 0 && forall q | q in b :: Clean(b[q])
  {
    TxKeepsTrack(tx, a, b, last, next);
  }

  lemma ClosedKind(start: Nodes, next: VersionedTransition, codec: Codec, mutation: Mutation, b: Nodes, q: Path)
    requires q in start && ContentAt(start, next, codec, mutation, b, q)
    ensures b[q].IsMap() == start[q].IsMap()
  {
  }

  lemma OldIsClean(start: Nodes, next: VersionedTransition, codec: Codec, mutation: Mutation, b: Nodes, q: Path,
                   last: VersionedTransition)
    requires q in start && ContentAt(start, next, codec, mutation, b, q) && CompareVT(last, next) < 0
    requires CompareVT(b[q].serialized.value.lastUpdate, last) <= 0
    ensures !Dirty(start[q]) && Stripped(b[q]) == Stripped(start[q])
  {
  }

  lemma ClosedDescendsAt(a: Nodes, m: Moment, next: VersionedTransition, codec: Codec, mutation: Mutation, b: Nodes,
                         last: VersionedTransition, q: Path)
    requires ClosedFrom(a, m, next, codec, mutation, b) && CompareVT(last, next) < 0
    requires q in b && b[q].serialized.Some? && CompareVT(b[q].serialized.value.lastUpdate, last) <= 0
    ensures DescendsAt(a, b, q)
  {
    OldIsClean(m.nodes, next, codec, mutation, b, q, last);
    assert KeptAt(a, m.nodes, q);
    forall r | r <= q && r in b
      ensures r in a && Key(b, r) == Key(a, r)
    {
      assert ContentAt(m.nodes, next, codec, mutation, b, r);
    }
  }

  /** What has an old version after a transaction has not changed in it. */
  lemma TxDescends(a: Nodes, tx: Tx, b: Nodes, last: VersionedTransition, next: VersionedTransition)
    requires tx.Leads(a, b, last, next) && EncodedTree(a)
    ensures Descends(a, b, last)
  {
    TxCloses(a, tx, b, last, next);
    forall q | q in b && b[q].serialized.Some? && CompareVT(b[q].serialized.value.lastUpdate, last) <= 0
      ensures DescendsAt(a, b, q)
    {
      ClosedDescendsAt(a, Moment(tx.resolved, tx.synced.deleted), next, tx.codec, tx.mutation, b, last, q);
    }
  }

  lemma ClosedKey(start: Nodes, next: VersionedTransition, codec: Codec, mutation: Mutation, b: Nodes, q: Path)
    requires PrefixClosed(start) && ContentPersisted(start, next, codec, mutation, b) && q in b
    ensures InMap(b, q) == InMap(start, q) && Key(b, q) == Key(start, q)
  {
    assert ContentAt(start, next, codec, mutation, b, q);
    if q != [] {
      assert q == Child(Parent(q), q[|q| - 1]);
      ClosedKind(start, next, codec, mutation, b, Parent(q));
    }
  }

  lemma ClosedIsEncoded(a: Nodes, m: Moment, next: VersionedTransition, codec: Codec, mutation: Mutation, b: Nodes)
    requires ClosedFrom(a, m, next, codec, mutation, b)
    ensures EncodedTree(b) && forall q | q in b :: ValidPath(q)
  {
    EncodedKeys(m.nodes);
    forall q | q in b
      ensures EncodedAt(b, q) && ValidPath(q)
    {
      ClosedKey(m.nodes, next, codec, mutation, b, q);
      assert EncodedAt(m.nodes, q);
    }
    forall p, c | Child(p, c) in b
      ensures p in b
    {
      assert Child(p, c) in m.nodes;
    }
  }

  /** Versions only grow, up to that of the transaction. */
  lemma ClosedVersion(a: Nodes, m: Moment, next: VersionedTransition, codec: Codec, mutation: Mutation, b: Nodes,
                      last: VersionedTransition, q: Path)
    requires ClosedFrom(a, m, next, codec, mutation, b) && q in b
    requires LastUpdatesUpTo(a, last) && CompareVT(ZERO_VT, last) <= 0 && CompareVT(last, next) < 0
    ensures b[q].serialized.Some? && CompareVT(b[q].serialized.value.lastUpdate, next) <= 0
    ensures Dirty(m.nodes[q]) || (q in a && Newer(a[q], ZERO_VT)) ==> Newer(b[q], ZERO_VT)
  {
    assert ContentAt(m.nodes, next, codec, mutation, b, q);
    var version := b[q].serialized.value.lastUpdate;
    if version != next {
      assert !Dirty(m.nodes[q]) && KeptAt(a, m.nodes, q);
    }
    VersionOrder(version, next, last);
  }

  lemma VersionOrder(version: VersionedTransition, next: VersionedTransition, last: VersionedTransition)
    requires CompareVT(ZERO_VT, last) <= 0 && CompareVT(last, next) < 0
    ensures version == next || CompareVT(version, last) <= 0 ==> CompareVT(version, next) <= 0
    ensures version == next ==> CompareVT(version, ZERO_VT) > 0
  {
  }

  /** Every node of the tree to be closed is changed or had been written before. */
  ghost predicate AllWritten(a: Nodes, nodes: Nodes) {
    forall q | q in nodes :: Dirty(nodes[q]) || (q in a && Newer(a[q], ZERO_VT))
  }

  lemma ClosedSource(a: Nodes, m: Moment, next: VersionedTransition, codec: Codec, mutation: Mutation, b: Nodes,
                     last: VersionedTransition)
    requires ClosedFrom(a, m, next, codec, mutation, b) && AllWritten(a, m.nodes) && forall q | q in b :: Clean(b[q])
    requires LastUpdatesUpTo(a, last) && CompareVT(ZERO_VT, last) <= 0 && CompareVT(last, next) < 0
    ensures SourceTree(b) && LastUpdatesUpTo(b, next)
  {
    ClosedIsEncoded(a, m, next, codec, mutation, b);
    forall q | q in b
      ensures Newer(b[q], ZERO_VT) && CompareVT(b[q].serialized.value.lastUpdate, next) <= 0
    {
      ClosedVersion(a, m, next, codec, mutation, b, last, q);
    }
  }

  /** A transaction leaves a tree of the source, with no version above its own. */
  lemma TxKeepsSource(a: Nodes, tx: Tx, b: Nodes, last: VersionedTransition, next: VersionedTransition)
    requires tx.Leads(a, b, last, next) && EncodedTree(a) && LastUpdatesUpTo(a, last) && CompareVT(ZERO_VT, last) <= 0
    requires AllWritten(a, tx.resolved)
    ensures SourceTree(b) && LastUpdatesUpTo(b, next)
  {
    TxCloses(a, tx, b, last, next);
    ClosedSource(a, Moment(tx.resolved, tx.synced.deleted), next, tx.codec, tx.mutation, b, last);
  }

  lemma SourceStaysWritten(a: Nodes, m: Moment)
    requires KeepsTrack(a, m) && SourceTree(a)
    ensures AllWritten(a, m.nodes)
  {
    forall q | q in m.nodes
      ensures Dirty(m.nodes[q]) || (q in a && Newer(a[q], ZERO_VT))
    {
      assert Dirty(m.nodes[q]) || KeptAt(a, m.nodes, q);
    }
  }

  // ----- Over a history

  /** A history of the source: the trees that its transactions have left, with the versions. */
  ghost predicate History(states: seq<Nodes>, lasts: seq<VersionedTransition>, txs: seq<Tx>) {
    && |states| == |lasts| == |txs| + 1
    && SourceTree(states[0]) && LastUpdatesUpTo(states[0], lasts[0]) && CompareVT(ZERO_VT, lasts[0]) <= 0
    && forall i | 0 <= i < |txs| :: StepAt(states, lasts, txs, i)
  }

  ghost predicate StepAt(states: seq<Nodes>, lasts: seq<VersionedTransition>, txs: seq<Tx>, i: nat)
    requires |states| == |lasts| == |txs| + 1 && i < |txs|
  {
    txs[i].Leads(states[i], states[i + 1], lasts[i], lasts[i + 1])
  }

  lemma HistoryStep(a: Nodes, tx: Tx, b: Nodes, last: VersionedTransition, next: VersionedTransition)
    requires tx.Leads(a, b, last, next) && SourceTree(a) && LastUpdatesUpTo(a, last) && CompareVT(ZERO_VT, last) <= 0
    ensures SourceTree(b) && LastUpdatesUpTo(b, next) && Descends(a, b, last) && CompareVT(ZERO_VT, next) <= 0 &&
            CompareVT(last, next) < 0
  {
    TxCloses(a, tx, b, last, next);
    SourceStaysWritten(a, Moment(tx.resolved, tx.synced.deleted));
    TxKeepsSource(a, tx, b, last, next);
    TxDescends(a, tx, b, last, next);
    CompareTransitive(ZERO_VT, last, next);
  }

  lemma CompareTransitive(u: VersionedTransition, v: VersionedTransition, w: VersionedTransition)
    ensures CompareVT(u, v) <= 0 && CompareVT(v, w) <= 0 ==> CompareVT(u, w) <= 0
  {
  }

  lemma StepOfHistory(states: seq<Nodes>, lasts: seq<VersionedTransition>, txs: seq<Tx>, i: nat)
    requires History(states, lasts, txs) && i < |txs|
    requires SourceTree(states[i]) && LastUpdatesUpTo(states[i], lasts[i]) && CompareVT(ZERO_VT, lasts[i]) <= 0
    ensures SourceTree(states[i + 1]) && LastUpdatesUpTo(states[i + 1], lasts[i + 1]) &&
            CompareVT(ZERO_VT, lasts[i + 1]) <= 0
    ensures Descends(states[i], states[i + 1], lasts[i]) && CompareVT(lasts[i], lasts[i + 1]) < 0
  {
    assert StepAt(states, lasts, txs, i);
    HistoryStep(states[i], txs[i], states[i + 1], lasts[i], lasts[i + 1]);
  }

  /** The states of a source, by any number of transactions. */
  lemma {:induction false} HistoryKeepsSource(states: seq<Nodes>, lasts: seq<VersionedTransition>, txs: seq<Tx>, i: nat)
    requires History(states, lasts, txs) && i < |states|
    ensures SourceTree(states[i]) && LastUpdatesUpTo(states[i], lasts[i]) && CompareVT(ZERO_VT, lasts[i]) <= 0
  {
    if i == 0 {
    } else {
      HistoryKeepsSource(states, lasts, txs, i - 1);
      StepOfHistory(states, lasts, txs, i - 1);
    }
  }

  lemma DescendsFromItself(a: Nodes, last: VersionedTransition)
    ensures Descends(a, a, last) && CompareVT(last, last) <= 0
  {
  }

  lemma DescendsTransitively(a: Nodes, b: Nodes, c: Nodes, lastA: VersionedTransition, lastB: VersionedTransition)
    requires Descends(a, b, lastA) && Descends(b, c, lastB) && CompareVT(lastA, lastB) <= 0
    ensures Descends(a, c, lastA)
  {
    forall q | q in c && c[q].serialized.Some? && CompareVT(c[q].serialized.value.lastUpdate, lastA) <= 0
      ensures DescendsAt(a, c, q)
    {
      assert DescendsAt(b, c, q);
      StrippedVersion(b[q], c[q]);
      assert DescendsAt(a, b, q);
    }
  }

  lemma StrippedVersion(n: Node, m: Node)
    requires Stripped(n) == Stripped(m)
    ensures n.serialized.Some? == m.serialized.Some?
    ensures n.serialized.Some? ==> n.serialized.value.lastUpdate == m.serialized.value.lastUpdate
    ensures n.IsMap() == m.IsMap() && n.IsComponent() == m.IsComponent()
  {
    if n.serialized.Some? && m.serialized.Some? {
      StripKeepsVersion(n.serialized.value, m.serialized.value);
    }
  }

  /** One state after another. */
  ghost predicate DescendsNext(states: seq<Nodes>, lasts: seq<VersionedTransition>, i: nat)
    requires |states| == |lasts| && i + 1 < |states|
  {
    Descends(states[i], states[i + 1], lasts[i]) && CompareVT(lasts[i], lasts[i + 1]) < 0
  }

  lemma HistoryDescendsNext(states: seq<Nodes>, lasts: seq<VersionedTransition>, txs: seq<Tx>)
    requires History(states, lasts, txs)
    ensures |states| == |lasts| && forall i: nat | i + 1 < |states| :: DescendsNext(states, lasts, i)
  {
    forall i: nat | i + 1 < |states|
      ensures DescendsNext(states, lasts, i)
    {
      HistoryKeepsSource(states, lasts, txs, i);
      StepOfHistory(states, lasts, txs, i);
    }
  }

  lemma DescendsFurther(a: Nodes, states: seq<Nodes>, lasts: seq<VersionedTransition>, last: VersionedTransition,
                        j: nat)
    requires |states| == |lasts| && j + 1 < |states| && DescendsNext(states, lasts, j)
    requires Descends(a, states[j], last) && CompareVT(last, lasts[j]) <= 0
    ensures Descends(a, states[j + 1], last) && CompareVT(last, lasts[j + 1]) <= 0
  {
    CompareTransitive(last, lasts[j], lasts[j + 1]);
    DescendsTransitively(a, states[j], states[j + 1], last, lasts[j]);
  }

  lemma {:induction false} ChainDescends(states: seq<Nodes>, lasts: seq<VersionedTransition>, i: nat, j: nat)
    requires |states| == |lasts| && i <= j < |states| &&
             forall k: nat | k + 1 < |states| :: DescendsNext(states, lasts, k)
    ensures Descends(states[i], states[j], lasts[i]) && CompareVT(lasts[i], lasts[j]) <= 0
    decreases j - i
  {
    if i == j {
      DescendsFromItself(states[i], lasts[i]);
    } else {
      ChainDescends(states, lasts, i, j - 1);
      DescendsFurther(states[i], states, lasts, lasts[i], j - 1);
    }
  }

  /** Any later state descends from any earlier one. */
  lemma HistoryDescends(states: seq<Nodes>, lasts: seq<VersionedTransition>, txs: seq<Tx>, i: nat, j: nat)
    requires History(states, lasts, txs) && i <= j < |states|
    ensures Descends(states[i], states[j], lasts[i]) && CompareVT(lasts[i], lasts[j]) <= 0
  {
    HistoryDescendsNext(states, lasts, txs);
    ChainDescends(states, lasts, i, j);
  }

  // ----- What a source sends

  lemma RecordOf(source: Nodes, q: Path)
    requires q in source && Newer(source[q], ZERO_VT) && Decoded(Key(source, q)) == Ok(q)
    ensures var records := RecordsAt(source, source.Keys, ZERO_VT);
            Key(source, q) in records && records[Key(source, q)] == source[q].serialized.value
  {
    assert q in source.Keys;
  }

  lemma SourceKeys(source: Nodes)
    requires SourceTree(source)
    ensures forall q | q in source ::
              Decoded(Key(source, q)) == Ok(q) && Key(source, q) == Join(q, Separator(InMap(source, q)))
  {
    EncodedKeys(source);
    assert forall q | q in source :: EncodedAt(source, q);
  }

  /** What a snapshot says of a tree. */
  ghost predicate Describes(source: Nodes, incoming: Records) {
    && Paths(incoming.Keys) == source.Keys
    && forall k | k in incoming ::
         && Decoded(k).Ok? && Decoded(k).value in source && Key(source, Decoded(k).value) == k
         && source[Decoded(k).value].serialized == Some(incoming[k]) && CompareVT(incoming[k].lastUpdate, ZERO_VT) > 0
  }

  lemma SnapshotDescribes(source: Nodes)
    requires SourceTree(source)
    ensures Describes(source, RecordsAt(source, source.Keys, ZERO_VT))
  {
    var incoming := RecordsAt(source, source.Keys, ZERO_VT);
    SourceKeys(source);
    forall q | q in source
      ensures Key(source, q) in incoming && Decoded(Key(source, q)) == Ok(q)
    {
      RecordOf(source, q);
    }
  }

  /** The snapshot of a persisted tree is that of a whole tree, with the keys of the encoder. */
  lemma SnapshotOfSource(source: Nodes)
    requires SourceTree(source)
    ensures var incoming := RecordsAt(source, source.Keys, ZERO_VT);
            Describes(source, incoming) && WholeTree(incoming) && EncoderKeys(incoming)
  {
    var incoming := RecordsAt(source, source.Keys, ZERO_VT);
    SnapshotDescribes(source);
    WholeByDescription(source, incoming);
    EncodedByDescription(source, incoming);
  }

  lemma WholeByDescription(source: Nodes, incoming: Records)
    requires PrefixClosed(source) && Describes(source, incoming)
    ensures WholeTree(incoming)
  {
    forall k, p | k in incoming && p <= Decoded(k).value
      ensures exists l :: l in incoming && Decoded(l) == Ok(p)
    {
      PrefixInNodes(source, p, Decoded(k).value);
      assert p in Paths(incoming.Keys);
    }
    assert [] in Paths(incoming.Keys);
  }

  lemma EncodedByDescription(source: Nodes, incoming: Records)
    requires SourceTree(source) && Describes(source, incoming)
    ensures EncoderKeys(incoming)
  {
    SourceKeys(source);
    forall k | k in incoming
      ensures k == Join(Decoded(k).value, Separator(ParentIsCollection(incoming, Decoded(k).value)))
    {
      var q := Decoded(k).value;
      assert Key(source, q) == k;
      ParentByDescription(source, incoming, q);
    }
  }

  lemma ParentByDescription(source: Nodes, incoming: Records, q: Path)
    requires SourceTree(source) && Describes(source, incoming) && q in source
    ensures ParentIsCollection(incoming, q) <==> InMap(source, q)
  {
    if q != [] {
      assert q == Child(Parent(q), q[|q| - 1]);
      assert Parent(q) in Paths(incoming.Keys);
      var l :| l in incoming && Decoded(l) == Ok(Parent(q));
      assert Newer(source[Parent(q)], ZERO_VT);
    }
  }

  // ----- The standby

  /** The standby has been brought to the state `a` of the source: positions and records, apart
      from what is local to the cluster. */
  ghost predicate Holds(nodes: Nodes, a: Nodes) {
    && EncodedTree(nodes) && nodes.Keys == a.Keys
    && forall q | q in a :: Stripped(nodes[q]) == Stripped(a[q])
  }

  lemma HoldsKey(nodes: Nodes, a: Nodes, q: Path)
    requires Holds(nodes, a) && SourceTree(a) && q in a
    ensures Key(nodes, q) == Key(a, q) && Newer(nodes[q], ZERO_VT) && (nodes[q].encodedPath.Some? || ValidPath(q))
  {
    assert EncodedAt(a, q) && EncodedAt(nodes, q);
    StrippedVersion(nodes[q], a[q]);
    if q != [] {
      assert q == Child(Parent(q), q[|q| - 1]);
      StrippedVersion(nodes[Parent(q)], a[Parent(q)]);
    }
  }

  lemma HoldsKeys(nodes: Nodes, a: Nodes)
    requires Holds(nodes, a) && SourceTree(a)
    ensures forall q | q in a :: Key(nodes, q) == Key(a, q) && Decoded(Key(a, q)) == Ok(q) && Newer(nodes[q], ZERO_VT)
    ensures AllSerialized(nodes) && WellKeyed(nodes) && Versioned(nodes)
  {
    SourceKeys(a);
    forall q | q in a
      ensures Key(nodes, q) == Key(a, q) && Newer(nodes[q], ZERO_VT) && (nodes[q].encodedPath.Some? || ValidPath(q))
    {
      HoldsKey(nodes, a, q);
    }
  }

  /** A source never sends a record that the standby would lose. */
  lemma SourceSendsNoOrphan(a: Nodes, b: Nodes, last: VersionedTransition, nodes: Nodes, k: string)
    requires Holds(nodes, a) && SourceTree(a) && LastUpdatesUpTo(a, last) && Descends(a, b, last) && SourceTree(b)
    ensures !Orphan(RecordsAt(nodes, nodes.Keys, ZERO_VT), RecordsAt(b, b.Keys, ZERO_VT), k)
  {
    var current, incoming := RecordsAt(nodes, nodes.Keys, ZERO_VT), RecordsAt(b, b.Keys, ZERO_VT);
    HoldsKeys(nodes, a);
    SnapshotOfSource(b);
    if k in incoming && k in current && current[k].lastUpdate == incoming[k].lastUpdate {
      var q := Decoded(k).value;
      UnchangedDescends(a, b, last, nodes, q);
      forall d | d <= q
        ensures d !in Paths(SnapshotDeletions(current, incoming))
      {
        PrefixInNodes(b, d, q);
        assert Key(b, d) == Key(a, d) == Key(nodes, d);
        SourceKeys(b);
        RecordOf(b, d);
        assert forall l | l in current && Decoded(l) == Ok(d) :: l == Key(nodes, d);
      }
    }
  }

  /** A node of which both clusters have the same version has not changed in between. */
  lemma UnchangedDescends(a: Nodes, b: Nodes, last: VersionedTransition, nodes: Nodes, q: Path)
    requires Holds(nodes, a) && LastUpdatesUpTo(a, last) && Descends(a, b, last)
    requires q in nodes && q in b && nodes[q].serialized.Some? && b[q].serialized.Some?
    requires nodes[q].serialized.value.lastUpdate == b[q].serialized.value.lastUpdate
    ensures DescendsAt(a, b, q) && Stripped(nodes[q]) == Stripped(b[q])
  {
    StrippedVersion(nodes[q], a[q]);
  }

  lemma VersionsDetermine(a: Nodes, b: Nodes, last: VersionedTransition, nodes: Nodes)
    requires Holds(nodes, a) && LastUpdatesUpTo(a, last) && Descends(a, b, last) && SourceTree(b)
    ensures VersionsDetermineRecords(nodes, RecordsAt(b, b.Keys, ZERO_VT))
  {
    var incoming := RecordsAt(b, b.Keys, ZERO_VT);
    SnapshotDescribes(b);
    forall k | k in incoming && Decoded(k).value in nodes
      ensures var n := nodes[Decoded(k).value];
              n.serialized.Some? && n.serialized.value.lastUpdate == incoming[k].lastUpdate ==>
                Strip(n.serialized.value) == Strip(incoming[k])
    {
      var q := Decoded(k).value;
      if nodes[q].serialized.Some? && nodes[q].serialized.value.lastUpdate == incoming[k].lastUpdate {
        UnchangedDescends(a, b, last, nodes, q);
      }
    }
  }

  lemma ResultHolds(b: Nodes, incoming: Records, result: Nodes)
    requires SourceTree(b) && Describes(b, incoming) && result.Keys == b.Keys
    requires forall k | k in incoming :: Decoded(k).value in result && Key(result, Decoded(k).value) == k
    requires forall k | k in incoming :: Stripped(result[Decoded(k).value]) == Some(Strip(incoming[k]))
    ensures Holds(result, b)
  {
    SourceKeys(b);
    forall q | q in b
      ensures Stripped(result[q]) == Stripped(b[q]) && Key(result, q) == Key(b, q)
    {
      assert q in Paths(incoming.Keys);
      var k :| k in incoming && Decoded(k) == Ok(q);
    }
    SameShapeEncoded(b, result);
  }

  /** A tree of the same positions, kinds and keys has the keys of the encoder. */
  lemma SameShapeEncoded(b: Nodes, result: Nodes)
    requires SourceTree(b) && result.Keys == b.Keys
    requires forall q | q in b :: Stripped(result[q]) == Stripped(b[q])
    requires forall q | q in b && result[q].encodedPath.Some? :: result[q].encodedPath.value == Key(b, q)
    ensures EncodedTree(result)
  {
    SourceKeys(b);
    forall q | q in result
      ensures EncodedAt(result, q)
    {
      assert EncodedAt(b, q);
      if q != [] {
        assert q == Child(Parent(q), q[|q| - 1]);
        StrippedVersion(result[Parent(q)], b[Parent(q)]);
      }
    }
    forall p, c | Child(p, c) in result
      ensures p in result
    {
    }
  }

  /** From any earlier state of the source a snapshot brings the standby to the present one, and
      a second application finds nothing. */
  lemma StandbyCatchesUp(states: seq<Nodes>, lasts: seq<VersionedTransition>, txs: seq<Tx>, i: nat, j: nat,
                         nodes: Nodes, order: seq<string>, result: Nodes)
    requires History(states, lasts, txs) && i <= j < |states| && Holds(nodes, states[i])
    requires AppliedSnapshot(nodes, RecordsAt(states[j], states[j].Keys, ZERO_VT), order, result)
    ensures Holds(result, states[j])
    ensures var incoming := RecordsAt(states[j], states[j].Keys, ZERO_VT);
            var current := RecordsAt(result, result.Keys, ZERO_VT);
            SnapshotUpdates(current, incoming) == map[] && SnapshotDeletions(current, incoming) == {}
  {
    var a, b := states[i], states[j];
    var incoming := RecordsAt(b, b.Keys, ZERO_VT);
    HistoryKeepsSource(states, lasts, txs, i);
    HistoryKeepsSource(states, lasts, txs, j);
    HistoryDescends(states, lasts, txs, i, j);
    CatchesUp(a, b, lasts[i], nodes, order, result);
  }

  lemma CatchesUp(a: Nodes, b: Nodes, last: VersionedTransition, nodes: Nodes, order: seq<string>, result: Nodes)
    requires Holds(nodes, a) && SourceTree(a) && LastUpdatesUpTo(a, last) && Descends(a, b, last) && SourceTree(b)
    requires AppliedSnapshot(nodes, RecordsAt(b, b.Keys, ZERO_VT), order, result)
    ensures Holds(result, b)
    ensures var incoming, current := RecordsAt(b, b.Keys, ZERO_VT), RecordsAt(result, result.Keys, ZERO_VT);
            SnapshotUpdates(current, incoming) == map[] && SnapshotDeletions(current, incoming) == {}
  {
    HoldsKeys(nodes, a);
    SnapshotOfSource(b);
    VersionsDetermine(a, b, last, nodes);
    forall k
      ensures !Orphan(RecordsAt(nodes, nodes.Keys, ZERO_VT), RecordsAt(b, b.Keys, ZERO_VT), k)
    {
      SourceSendsNoOrphan(a, b, last, nodes, k);
    }
    SnapshotBrings(b, nodes, order, result);
  }

  lemma SnapshotBrings(b: Nodes, nodes: Nodes, order: seq<string>, result: Nodes)
    requires SourceTree(b) && Comparable(nodes, RecordsAt(b, b.Keys, ZERO_VT)) &&
             NoOrphans(nodes, RecordsAt(b, b.Keys, ZERO_VT))
    requires AppliedSnapshot(nodes, RecordsAt(b, b.Keys, ZERO_VT), order, result)
    ensures Holds(result, b)
    ensures var incoming, current := RecordsAt(b, b.Keys, ZERO_VT), RecordsAt(result, result.Keys, ZERO_VT);
            SnapshotUpdates(current, incoming) == map[] && SnapshotDeletions(current, incoming) == {}
  {
    var incoming := RecordsAt(b, b.Keys, ZERO_VT);
    SnapshotDescribes(b);
    RecordsReproduced(nodes, incoming, order, result);
    ResultKeys(nodes, incoming, order, result);
    SecondSnapshotIsEmpty(nodes, incoming, order, result);
    ResultHolds(b, incoming, result);
  }

  /** A new standby has an empty tree: the first snapshot, taken at any state of the source,
      makes it hold that state. */
  lemma StandbyStarts(states: seq<Nodes>, lasts: seq<VersionedTransition>, txs: seq<Tx>, j: nat, nodes: Nodes,
                      order: seq<string>, result: Nodes)
    requires History(states, lasts, txs) && j < |states|
    requires nodes.Keys == {[]} && nodes[[]].encodedPath == None
    requires nodes[[]].serialized.Some? && nodes[[]].serialized.value.lastUpdate == ZERO_VT
    requires AppliedSnapshot(nodes, RecordsAt(states[j], states[j].Keys, ZERO_VT), order, result)
    ensures Holds(result, states[j])
  {
    HistoryKeepsSource(states, lasts, txs, j);
    EmptyIsComparable(states[j], nodes);
    SnapshotBrings(states[j], nodes, order, result);
  }

  lemma EmptyIsComparable(b: Nodes, nodes: Nodes)
    requires SourceTree(b) && nodes.Keys == {[]} && nodes[[]].encodedPath == None
    requires nodes[[]].serialized.Some? && nodes[[]].serialized.value.lastUpdate == ZERO_VT
    ensures Comparable(nodes, RecordsAt(b, b.Keys, ZERO_VT)) && NoOrphans(nodes, RecordsAt(b, b.Keys, ZERO_VT))
  {
    SnapshotOfSource(b);
    assert !Newer(nodes[[]], ZERO_VT);
    assert RecordsAt(nodes, nodes.Keys, ZERO_VT) == map[];
  }
}
