/** A standby that applies a snapshot and closes its transaction (chasm/tree.go): it, too,
    persists exactly its tree, by an incremental mutation. */
module Standby {
  import opened Basics
  import opened PathEncoder
  import opened PathKeys
  import opened Tasks
  import opened ChasmTree
  import opened Replication
  import opened ReplicationApply
  import opened ReplicationStatus
  import opened ReplicationRuns
  import Convergence
  import opened Transaction
  import opened CloseTasks
  import opened CloseTree
  import opened Sync
  import opened Runs
  import opened Persistence
  import opened Steps
  import opened Execution
  import opened Settled

  // ----- Before and after

  /** The standby is at rest: its tree is persisted as it is. */
  ghost predicate PersistedAsIs(nodes: Nodes, records: Records, last: VersionedTransition) {
    && FullImage(nodes, records) && Quiet(nodes, last)
    && forall q | q in nodes :: Clean(nodes[q]) && Decoded(Key(nodes, q)) == Ok(q)
  }

  /** A snapshot that the tree can be brought to; positions may have changed their keys. */
  ghost predicate Applicable(nodes: Nodes, incoming: Records) {
    Convergence.Comparable(nodes, incoming) && Convergence.NoOrphans(nodes, incoming)
  }

  /** A snapshot that continues what the standby has. */
  ghost predicate Sent(nodes: Nodes, incoming: Records, next: VersionedTransition) {
    && Applicable(nodes, incoming) && Replicable(nodes, incoming)
    && forall k | k in incoming ::
         CompareVT(incoming[k].lastUpdate, ZERO_VT) > 0 && CompareVT(incoming[k].lastUpdate, next) <= 0
  }

  /** Applying the snapshot has led from `nodes` to `result` with these mutation entries. */
  ghost predicate Received(nodes: Nodes, incoming: Records, order: seq<string>, cached: Nodes, result: Nodes,
                           updated: map<string, Path>, deleted: set<string>)
  {
    && SnapshotEffect(nodes, incoming, order, cached, result)
    && SnapshotEntries(nodes, incoming, order, cached, map[], {}, updated, deleted)
  }

  ghost function Deletions(nodes: Nodes, incoming: Records): set<Path> {
    Paths(SnapshotDeletions(RecordsAt(nodes, nodes.Keys, ZERO_VT), incoming))
  }

  // ----- One position

  /** A node that is kept has had the key that the snapshot has for it. */
  lemma SameKeyBefore(nodes: Nodes, incoming: Records, k: string)
    requires Applicable(nodes, incoming) && k in incoming && Decoded(k).value in nodes &&
             Stays(nodes, incoming, Decoded(k).value)
    ensures Key(nodes, Decoded(k).value) == k
  {
    var q := Decoded(k).value;
    Convergence.CurrentRecord(nodes, q);
    if q == [] {
      OnlyRootDecodesToRoot(k);
      OnlyRootDecodesToRoot(Key(nodes, q));
    } else {
      Convergence.DeletedIsCovered(RecordsAt(nodes, nodes.Keys, ZERO_VT), incoming, Key(nodes, q), q);
    }
  }

  /** ApplySnapshot deletes nothing at or above the position. */
  ghost predicate Stays(nodes: Nodes, incoming: Records, q: Path) {
    q == [] || !Covered(Deletions(nodes, incoming), q)
  }

  /** What is in the mutation, and what holds of the rest. */
  ghost predicate PlacedAt(nodes: Nodes, incoming: Records, result: Nodes, updated: map<string, Path>, k: string)
    requires k in incoming && Decoded(k).Ok?
  {
    var q := Decoded(k).value;
    && q in result && result[q].serialized.Some?
    && (q !in nodes || Clean(nodes[q]) ==> Clean(result[q]))
    && (result[q].value.Some? ==> q in nodes && result[q].value == nodes[q].value)
    && if k in updated then updated[k] == q
       else q in nodes && Stays(nodes, incoming, q) && result[q].serialized == nodes[q].serialized
  }

  predicate SamePart(a: Node, b: Node) {
    a.serialized == b.serialized && a.state == b.state && a.value == b.value
  }

  lemma RestFacts(nodes: Nodes, incoming: Records, cached: Nodes, k: string)
    requires Applicable(nodes, incoming) && SameButCaches(nodes, cached) && k in incoming
    ensures var rest, q := RemainingNodes(cached, Deletions(nodes, incoming)), Decoded(k).value;
            && PrefixClosed(rest) && (q in rest <==> q in nodes && Stays(nodes, incoming, q))
            && (q in rest ==> SamePart(rest[q], nodes[q]))
  {
    CachingKeepsKeys(nodes, cached);
    RemainingClosed(cached, Deletions(nodes, incoming));
    Convergence.RootKept(RecordsAt(nodes, nodes.Keys, ZERO_VT), incoming);
  }

  lemma UpdatedPosition(nodes: Nodes, incoming: Records, order: seq<string>, cached: Nodes, result: Nodes,
                        updated: map<string, Path>, deleted: set<string>, k: string)
    requires Applicable(nodes, incoming) && Received(nodes, incoming, order, cached, result, updated, deleted)
    requires k in incoming && k in order
    ensures PlacedAt(nodes, incoming, result, updated, k)
  {
    var updates := SnapshotUpdates(RecordsAt(nodes, nodes.Keys, ZERO_VT), incoming);
    var rest, q := RemainingNodes(cached, Deletions(nodes, incoming)), Decoded(k).value;
    RestFacts(nodes, incoming, cached, k);
    RecordedExactly(rest, order, updates);
    UpdatedAllOutcome(rest, order, updates);
    var i :| 0 <= i < |order| && order[i] == k;
    ExactRecord(rest, order, updates, i);
    assert UpdateResult(rest, q, k, updates[k], result[q]);
  }

  lemma UnchangedPosition(nodes: Nodes, incoming: Records, order: seq<string>, cached: Nodes, result: Nodes,
                          updated: map<string, Path>, deleted: set<string>, k: string)
    requires Applicable(nodes, incoming) && Received(nodes, incoming, order, cached, result, updated, deleted)
    requires k in incoming && k !in order
    ensures PlacedAt(nodes, incoming, result, updated, k)
  {
    var updates := SnapshotUpdates(RecordsAt(nodes, nodes.Keys, ZERO_VT), incoming);
    var rest, q := RemainingNodes(cached, Deletions(nodes, incoming)), Decoded(k).value;
    RestFacts(nodes, incoming, cached, k);
    RecordedExactly(rest, order, updates);
    UpdatedAllOutcome(rest, order, updates);
    var current := RecordsAt(nodes, nodes.Keys, ZERO_VT);
    Convergence.SameVersion(current[k].lastUpdate, incoming[k].lastUpdate);
    assert !Convergence.Orphan(current, incoming, k);
    assert q in nodes && Stays(nodes, incoming, q);
    assert !Touched(order, q) by {
      assert forall l | l in order :: l in incoming && l != k;
    }
  }

  lemma PositionPlaced(nodes: Nodes, incoming: Records, order: seq<string>, cached: Nodes, result: Nodes,
                       updated: map<string, Path>, deleted: set<string>, k: string)
    requires Applicable(nodes, incoming) && Received(nodes, incoming, order, cached, result, updated, deleted)
    requires k in incoming
    ensures PlacedAt(nodes, incoming, result, updated, k)
  {
    if k in order {
      UpdatedPosition(nodes, incoming, order, cached, result, updated, deleted, k);
    } else {
      UnchangedPosition(nodes, incoming, order, cached, result, updated, deleted, k);
    }
  }

  // ----- The mutation

  lemma NotAmongDeletions(nodes: Nodes, incoming: Records, order: seq<string>, cached: Nodes, result: Nodes,
                          updated: map<string, Path>, deleted: set<string>, k: string)
    requires Applicable(nodes, incoming) && Received(nodes, incoming, order, cached, result, updated, deleted)
    requires k in incoming && Stays(nodes, incoming, Decoded(k).value)
    ensures k !in deleted
  {
    CachingKeepsKeys(nodes, cached);
    Convergence.RootKept(RecordsAt(nodes, nodes.Keys, ZERO_VT), incoming);
    KeyNotCovered(cached, Deletions(nodes, incoming), k);
  }

  lemma KeyNotCovered(nodes: Nodes, paths: set<Path>, k: string)
    requires WellKeyed(nodes) && Decoded(k).Ok? && !Covered(paths, Decoded(k).value)
    ensures k !in CoveredKeys(nodes, paths)
  {
    WellKeyedIsKeyed(nodes);
    forall q | q in nodes && Covered(paths, q)
      ensures Key(nodes, q) != k
    {
      assert Decoded(Key(nodes, q)) == Ok(q);
    }
  }

  lemma PositionWritten(nodes: Nodes, records: Records, last: VersionedTransition, incoming: Records,
                        order: seq<string>, cached: Nodes, result: Nodes, updated: map<string, Path>,
                        deleted: set<string>, k: string)
    requires PersistedAsIs(nodes, records, last) && Applicable(nodes, incoming)
    requires Received(nodes, incoming, order, cached, result, updated, deleted) && k in incoming
    requires Decoded(k).value in result && Key(result, Decoded(k).value) == k
    ensures WrittenAt(result, updated, deleted, records, Decoded(k).value)
    ensures var q := Decoded(k).value; k !in updated ==> q in nodes && result[q].serialized == nodes[q].serialized
  {
    var q := Decoded(k).value;
    PositionPlaced(nodes, incoming, order, cached, result, updated, deleted, k);
    if k !in updated {
      NotAmongDeletions(nodes, incoming, order, cached, result, updated, deleted, k);
      SameKeyBefore(nodes, incoming, k);
    }
  }

  lemma OldRecordAccounted(nodes: Nodes, records: Records, last: VersionedTransition, incoming: Records,
                           order: seq<string>, cached: Nodes, result: Nodes, updated: map<string, Path>,
                           deleted: set<string>, k: string)
    requires PersistedAsIs(nodes, records, last) && Applicable(nodes, incoming)
    requires Received(nodes, incoming, order, cached, result, updated, deleted) && k in records
    requires Convergence.Converged(result, incoming)
    requires forall l | l in incoming :: Decoded(l).value in result && Key(result, Decoded(l).value) == l
    ensures k in deleted || KeyOfNode(result, k)
  {
    assert KeyOfNode(nodes, k);
    var q := Decoded(k).value;
    var updates := SnapshotUpdates(RecordsAt(nodes, nodes.Keys, ZERO_VT), incoming);
    var rest := RemainingNodes(cached, Deletions(nodes, incoming));
    CachingKeepsKeys(nodes, cached);
    if Covered(Deletions(nodes, incoming), q) {
      assert Key(cached, q) == k;
    } else {
      RemainingClosed(cached, Deletions(nodes, incoming));
      UpdatedAllOutcome(rest, order, updates);
      assert q in rest && q in result;
      var l := KeyFor(incoming, q);
      SameKeyBefore(nodes, incoming, l);
    }
  }

  /** After ApplySnapshot every node is in the mutation or persisted as it is, no key of a node
      is among the deletions, and all records of nodes that are gone are. */
  lemma SnapshotWritten(nodes: Nodes, records: Records, last: VersionedTransition, incoming: Records,
                        order: seq<string>, cached: Nodes, result: Nodes, updated: map<string, Path>,
                        deleted: set<string>)
    requires PersistedAsIs(nodes, records, last) && Applicable(nodes, incoming)
    requires Received(nodes, incoming, order, cached, result, updated, deleted)
    ensures Written(result, updated, deleted, records)
  {
    Convergence.ResultKeys(nodes, incoming, order, result);
    forall q | q in result
      ensures WrittenAt(result, updated, deleted, records, q)
    {
      PositionWritten(nodes, records, last, incoming, order, cached, result, updated, deleted, KeyFor(incoming, q));
    }
    forall k | k in updated
      ensures KeyOfNode(result, k)
    {
      EntryIsIncoming(nodes, incoming, order, cached, result, updated, deleted, k);
    }
    forall k | k in records
      ensures k in deleted || KeyOfNode(result, k)
    {
      OldRecordAccounted(nodes, records, last, incoming, order, cached, result, updated, deleted, k);
    }
  }

  /** A node that is deleted, with one above it, and created again under its own old key. */
  ghost predicate Recreated(nodes: Nodes, incoming: Records, k: string) {
    && k in incoming && Decoded(k).Ok? && Decoded(k).value in nodes && Key(nodes, Decoded(k).value) == k
    && Decoded(k).value != [] && Covered(Deletions(nodes, incoming), Decoded(k).value)
  }

  /** The mutation names a key both as updated and as deleted exactly if there is such a node. */
  lemma ApartUnlessRecreated(nodes: Nodes, incoming: Records, order: seq<string>, cached: Nodes, result: Nodes,
                             updated: map<string, Path>, deleted: set<string>)
    requires Applicable(nodes, incoming) && Received(nodes, incoming, order, cached, result, updated, deleted)
    ensures Apart(updated, deleted) <==> forall k :: !Recreated(nodes, incoming, k)
  {
    CachingKeepsKeys(nodes, cached);
    forall k
      ensures k in updated && k in deleted <==> Recreated(nodes, incoming, k)
    {
      if k in updated {
        EntryIsIncoming(nodes, incoming, order, cached, result, updated, deleted, k);
        if k in deleted {
          DeletedWasCovered(nodes, incoming, cached, k);
        }
      }
      if Recreated(nodes, incoming, k) {
        RecreatedIsBoth(nodes, incoming, order, cached, result, updated, deleted, k);
      }
    }
  }

  lemma DeletedWasCovered(nodes: Nodes, incoming: Records, cached: Nodes, k: string)
    requires Applicable(nodes, incoming) && SameButCaches(nodes, cached) && k in incoming
    requires k in CoveredKeys(cached, Deletions(nodes, incoming))
    ensures Recreated(nodes, incoming, k)
  {
    CachingKeepsKeys(nodes, cached);
    WellKeyedIsKeyed(nodes);
    Convergence.RootKept(RecordsAt(nodes, nodes.Keys, ZERO_VT), incoming);
    var q :| q in cached && Covered(Deletions(nodes, incoming), q) && Key(cached, q) == k;
    assert Decoded(Key(nodes, q)) == Ok(q);
  }

  lemma RecreatedIsBoth(nodes: Nodes, incoming: Records, order: seq<string>, cached: Nodes, result: Nodes,
                        updated: map<string, Path>, deleted: set<string>, k: string)
    requires Applicable(nodes, incoming) && Received(nodes, incoming, order, cached, result, updated, deleted)
    requires Recreated(nodes, incoming, k)
    ensures k in updated && k in deleted
  {
    PositionPlaced(nodes, incoming, order, cached, result, updated, deleted, k);
    CachingKeepsKeys(nodes, cached);
    assert Key(cached, Decoded(k).value) == k;
  }

  lemma EntryIsIncoming(nodes: Nodes, incoming: Records, order: seq<string>, cached: Nodes, result: Nodes,
                        updated: map<string, Path>, deleted: set<string>, k: string)
    requires Applicable(nodes, incoming) && Received(nodes, incoming, order, cached, result, updated, deleted)
    requires k in updated
    ensures k in incoming && k in order
  {
    var updates := SnapshotUpdates(RecordsAt(nodes, nodes.Keys, ZERO_VT), incoming);
    CachingKeepsKeys(nodes, cached);
    RemainingClosed(cached, Deletions(nodes, incoming));
    RecordedExactly(RemainingNodes(cached, Deletions(nodes, incoming)), order, updates);
  }

  /** Such a mutation exists, although the documentation of ApplyMutation rules it out: in the
      example of `Convergence`, when the child of the item has changed as well. */
  lemma OverlapExample(root: ChasmNode, a: ChasmNode, a': ChasmNode, b: ChasmNode, b': ChasmNode, c: ChasmNode,
                       c': ChasmNode, order: seq<string>, cached: Nodes, result: Nodes, updated: map<string, Path>,
                       deleted: set<string>)
    requires forall cn | cn in {a, a', b, b', c, c'} :: CompareVT(cn.lastUpdate, ZERO_VT) > 0
    requires a.attributes.Collection? && forall cn | cn in {root, a', b, b', c, c'} :: cn.attributes.Component?
    requires a'.lastUpdate != a.lastUpdate && b'.lastUpdate != b.lastUpdate && c'.lastUpdate != c.lastUpdate
    requires Received(Convergence.ExampleTree(root, a, b, c), Convergence.ExampleSnapshot(root, a', b', c'), order,
                      cached, result, updated, deleted)
    ensures "a$b$c" in updated && "a$b$c" in deleted
  {
    ExampleApplicable(root, a, a', b, b', c, c');
    ExampleOverlaps(root, a, a', b, b', c, c');
    RecreatedIsBoth(Convergence.ExampleTree(root, a, b, c), Convergence.ExampleSnapshot(root, a', b', c'), order,
                    cached, result, updated, deleted, "a$b$c");
  }

  lemma ExampleApplicable(root: ChasmNode, a: ChasmNode, a': ChasmNode, b: ChasmNode, b': ChasmNode, c: ChasmNode,
                          c': ChasmNode)
    requires forall cn | cn in {a, a', b, b', c, c'} :: CompareVT(cn.lastUpdate, ZERO_VT) > 0
    requires forall cn | cn in {root, a', b, b', c, c'} :: cn.attributes.Component?
    requires a'.lastUpdate != a.lastUpdate && b'.lastUpdate != b.lastUpdate && c'.lastUpdate != c.lastUpdate
    ensures Applicable(Convergence.ExampleTree(root, a, b, c), Convergence.ExampleSnapshot(root, a', b', c'))
  {
    var nodes, incoming := Convergence.ExampleTree(root, a, b, c), Convergence.ExampleSnapshot(root, a', b', c');
    Convergence.ExampleTreeOk(root, a, b, c);
    Convergence.ExampleSnapshotOk(root, a', b', c');
    ExampleChanged(root, a, a', b, b', c, c');
    ChangedIsApplicable(nodes, incoming, root);
  }

  lemma ExampleChanged(root: ChasmNode, a: ChasmNode, a': ChasmNode, b: ChasmNode, b': ChasmNode, c: ChasmNode,
                       c': ChasmNode)
    requires a'.lastUpdate != a.lastUpdate && b'.lastUpdate != b.lastUpdate && c'.lastUpdate != c.lastUpdate
    ensures ChangedBelowRoot(Convergence.ExampleTree(root, a, b, c), Convergence.ExampleSnapshot(root, a', b', c'),
                             root)
  {
    Convergence.DecodesOfExample();
  }

  /** Every record but that of the root has got another version. */
  ghost predicate ChangedBelowRoot(nodes: Nodes, incoming: Records, root: ChasmNode) {
    && [] in nodes && nodes[[]].serialized == Some(root)
    && forall k | k in incoming && Decoded(k).Ok? && Decoded(k).value in nodes ::
         if Decoded(k).value == [] then incoming[k] == root
         else nodes[Decoded(k).value].serialized.Some? &&
              nodes[Decoded(k).value].serialized.value.lastUpdate != incoming[k].lastUpdate
  }

  lemma ChangedIsApplicable(nodes: Nodes, incoming: Records, root: ChasmNode)
    requires PrefixClosed(nodes) && AllSerialized(nodes) && WellKeyed(nodes) && Convergence.Versioned(nodes)
    requires Convergence.WholeTree(incoming) && Convergence.EncoderKeys(incoming) &&
             ChangedBelowRoot(nodes, incoming, root)
    ensures Applicable(nodes, incoming)
  {
    forall k
      ensures !Convergence.Orphan(RecordsAt(nodes, nodes.Keys, ZERO_VT), incoming, k)
    {
      assert k in RecordsAt(nodes, nodes.Keys, ZERO_VT) ==> Decoded(k).value in nodes;
    }
  }

  lemma ExampleOverlaps(root: ChasmNode, a: ChasmNode, a': ChasmNode, b: ChasmNode, b': ChasmNode, c: ChasmNode,
                        c': ChasmNode)
    requires forall cn | cn in {a, b, c} :: CompareVT(cn.lastUpdate, ZERO_VT) > 0
    ensures Recreated(Convergence.ExampleTree(root, a, b, c), Convergence.ExampleSnapshot(root, a', b', c'), "a$b$c")
  {
    ExampleRecreated(root, a, b, c, Convergence.ExampleSnapshot(root, a', b', c'));
  }

  lemma ExampleRecreated(root: ChasmNode, a: ChasmNode, b: ChasmNode, c: ChasmNode, incoming: Records)
    requires forall cn | cn in {a, b, c} :: CompareVT(cn.lastUpdate, ZERO_VT) > 0
    requires "a#b" !in incoming && "a$b$c" in incoming
    ensures Recreated(Convergence.ExampleTree(root, a, b, c), incoming, "a$b$c")
  {
    var nodes := Convergence.ExampleTree(root, a, b, c);
    Convergence.ExampleTreeOk(root, a, b, c);
    Convergence.DecodesOfExample();
    assert "a#b" in SnapshotDeletions(RecordsAt(nodes, nodes.Keys, ZERO_VT), incoming);
    assert ["a", "b"] in Deletions(nodes, incoming) && ["a", "b"] <= ["a", "b", "c"];
  }

  // ----- What the close starts from

  /** A position of the tree that the close starts from. */
  ghost predicate SettledAt(nodes: Nodes, result: Nodes, updated: map<string, Path>, next: VersionedTransition,
                            p: Path) {
    && p in result && WrittenOrQuietAt(result, updated, map[], next, p)
    && result[p].serialized.Some? && CompareVT(result[p].serialized.value.lastUpdate, next) <= 0
    && (result[p].value.Some? ==> p in nodes && result[p].value == nodes[p].value)
  }

  lemma PositionSettled(nodes: Nodes, last: VersionedTransition, incoming: Records, result: Nodes,
                        updated: map<string, Path>, next: VersionedTransition, k: string)
    requires Quiet(nodes, last) && CompareVT(last, next) < 0
    requires k in incoming && Decoded(k).Ok? && PlacedAt(nodes, incoming, result, updated, k)
    requires CompareVT(incoming[k].lastUpdate, next) <= 0 && Key(result, Decoded(k).value) == k
    requires result[Decoded(k).value].serialized.value.lastUpdate == incoming[k].lastUpdate
    ensures SettledAt(nodes, result, updated, next, Decoded(k).value)
  {
    var p := Decoded(k).value;
    if k !in updated {
      assert QuietNode(nodes[p], last);
      CompareReflexive(next);
    }
  }

  lemma PositionQuiet(nodes: Nodes, last: VersionedTransition, incoming: Records, order: seq<string>, cached: Nodes,
                      result: Nodes, updated: map<string, Path>, deleted: set<string>, next: VersionedTransition,
                      p: Path)
    requires Quiet(nodes, last) && Sent(nodes, incoming, next) && CompareVT(last, next) < 0
    requires Received(nodes, incoming, order, cached, result, updated, deleted)
    requires Convergence.Converged(result, incoming) && p in result
    requires forall k | k in incoming :: Decoded(k).value in result && Key(result, Decoded(k).value) == k
    ensures SettledAt(nodes, result, updated, next, p)
  {
    var k := KeyFor(incoming, p);
    PositionPlaced(nodes, incoming, order, cached, result, updated, deleted, k);
    PositionSettled(nodes, last, incoming, result, updated, next, k);
  }

  lemma SettlingOfParts(nodes: Nodes, result: Nodes, updated: map<string, Path>, deleted: set<string>, records: Records,
                        next: VersionedTransition)
    requires Written(result, updated, deleted, records)
    requires forall p | p in result :: SettledAt(nodes, result, updated, next, p)
    ensures Settling(result, updated, map[], deleted, records, next)
    ensures forall home | AllAtHome(nodes, home) :: AllAtHome(result, home)
  {
    AddNothing(updated, map[]);
    forall q | q in result
      ensures result[q].encodedPath.Some? ==> Decoded(result[q].encodedPath.value) == Ok(q)
      ensures WrittenOrQuietAt(result, updated, map[], next, q)
    {
      assert WrittenAt(result, updated, deleted, records, q);
    }
  }

  lemma SnapshotSettles(nodes: Nodes, records: Records, last: VersionedTransition, incoming: Records,
                        order: seq<string>, cached: Nodes, result: Nodes, updated: map<string, Path>,
                        deleted: set<string>, next: VersionedTransition)
    requires PersistedAsIs(nodes, records, last) && Sent(nodes, incoming, next) && CompareVT(last, next) < 0
    requires Received(nodes, incoming, order, cached, result, updated, deleted)
    ensures Settling(result, updated, map[], deleted, records, next)
    ensures forall home | AllAtHome(nodes, home) :: AllAtHome(result, home)
  {
    SnapshotWritten(nodes, records, last, incoming, order, cached, result, updated, deleted);
    Convergence.ResultKeys(nodes, incoming, order, result);
    forall p | p in result
      ensures SettledAt(nodes, result, updated, next, p)
    {
      PositionQuiet(nodes, last, incoming, order, cached, result, updated, deleted, next, p);
    }
    SettlingOfParts(nodes, result, updated, deleted, records, next);
  }

  // ----- Replication from end to end

  /** The cluster with the nodes that ApplySnapshot keeps. */
  ghost function Keeping(s: Cluster, nodes: Nodes, incoming: Records): Cluster {
    s.(comps := CompsOf(KeptNodes(nodes, incoming)))
  }

  /** The cluster when the snapshot has been applied. */
  ghost function AfterReplication(s: Cluster, nodes: Nodes, incoming: Records, version: VersionedTransition): Cluster {
    s.(comps := Replicated(CompsOf(KeptNodes(nodes, incoming)), IncomingComps(incoming)),
       last := if CompareVT(s.last, version) < 0 then version else s.last)
  }

  lemma LastAfterReplication(s: Cluster, nodes: Nodes, incoming: Records, version: VersionedTransition,
                             next: VersionedTransition)
    requires CompareVT(ZERO_VT, s.last) <= 0 && CompareVT(s.last, next) < 0 && CompareVT(version, next) < 0
    ensures CompareVT(ZERO_VT, AfterReplication(s, nodes, incoming, version).last) <= 0
    ensures CompareVT(AfterReplication(s, nodes, incoming, version).last, next) < 0
  {
  }

  /** The positions are those of the snapshot, and the record at each has the version and the
      content of the incoming one. */
  ghost predicate ContentArrived(nodes: Nodes, incoming: Records)
    requires Decodable(incoming)
  {
    && Convergence.Converged(nodes, incoming)
    && forall k | k in incoming :: SameContent(incoming[k], nodes[Decoded(k).value].serialized.value)
  }

  lemma SnapshotContent(nodes: Nodes, incoming: Records, order: seq<string>, result: Nodes)
    requires Applicable(nodes, incoming) && AppliedSnapshot(nodes, incoming, order, result)
    ensures ContentArrived(result, incoming)
  {
    Convergence.RecordsReproduced(nodes, incoming, order, result);
    forall k | k in incoming
      ensures SameContent(incoming[k], result[Decoded(k).value].serialized.value)
    {
      assert Decoded(k).value in Paths(incoming.Keys);
      StrippedContent(incoming[k], result[Decoded(k).value].serialized.value);
    }
  }

  lemma StrippedContent(a: ChasmNode, b: ChasmNode)
    requires Strip(a) == Strip(b)
    ensures SameContent(a, b)
  {
    assert Strip(a).data == a.data && Strip(b).data == b.data && Strip(a).initial == a.initial &&
           Strip(b).initial == b.initial;
  }

  lemma ContentStays(before: Nodes, after: Nodes, incoming: Records, next: VersionedTransition)
    requires Decodable(incoming) && ContentArrived(before, incoming) && RecordsKept(before, after, next)
    ensures ContentArrived(after, incoming)
  {
    forall k | k in incoming
      ensures SameContent(incoming[k], after[Decoded(k).value].serialized.value)
    {
      assert Decoded(k).value in Paths(incoming.Keys);
    }
  }

  /** Reading the root component changes nothing that the close looks at. */
  lemma ReadingSettles(nodes: Nodes, root: Option<Value>, updated: map<string, Path>, deleted: set<string>,
                       records: Records, next: VersionedTransition)
    requires Settling(nodes, updated, map[], deleted, records, next)
    ensures Settling(RootRead(nodes, root), updated, map[], deleted, records, next)
    ensures CompsOf(RootRead(nodes, root)) == CompsOf(nodes)
  {
    var after := RootRead(nodes, root);
    ReadingKeepsRecords(nodes, root);
    SameMap(CompsOf(after), CompsOf(nodes));
    forall q | q in after
      ensures WrittenAt(after, updated + map[], deleted, records, q) && WrittenOrQuietAt(after, updated, map[], next, q)
    {
      assert WrittenAt(nodes, updated + map[], deleted, records, q) && WrittenOrQuietAt(nodes, updated, map[], next, q);
    }
    forall k | k in updated + map[] || k in records
      ensures KeyOfNode(nodes, k) ==> KeyOfNode(after, k)
    {
    }
  }

  lemma ReadingKeepsHome(nodes: Nodes, root: Option<Value>, home: map<nat, Path>)
    requires AllAtHome(nodes, home) && (root.Some? ==> ValueAtHome(root.value, [], home))
    ensures AllAtHome(RootRead(nodes, root), home)
  {
  }

  lemma ReadingKeepsArrived(nodes: Nodes, root: Option<Value>, incoming: Records)
    requires Decodable(incoming) && ContentArrived(nodes, incoming)
    ensures ContentArrived(RootRead(nodes, root), incoming)
  {
    ReadingKeepsRecords(nodes, root);
    forall k | k in incoming
      ensures SameContent(incoming[k], RootRead(nodes, root)[Decoded(k).value].serialized.value)
    {
      assert Decoded(k).value in Paths(incoming.Keys);
    }
  }

  /** The value that the root component is read to. */
  predicate RootAtHome(root: Option<Value>, index: map<nat, Path>, home: map<nat, Path>) {
    root.Some? ==> ValueAtHome(root.value, [], home) && (root.value.Object? ==> root.value.id !in index)
  }

  /** ApplySnapshot on a tree at rest, before the root component is read. */
  lemma AppliedSettles(nodes: Nodes, incoming: Records, order: seq<string>, cached: Nodes, applied: Nodes,
                       updated: map<string, Path>, deleted: set<string>, next: VersionedTransition, cluster: Cluster,
                       image: Records, version: VersionedTransition)
    requires PersistedAsIs(nodes, image, cluster.last) &&
             Received(nodes, incoming, order, cached, applied, updated, deleted)
    requires Sent(nodes, incoming, next) && CompareVT(cluster.last, next) < 0
    requires Inv(cluster) && cluster.comps == CompsOf(nodes)
    requires Enabled(Keeping(cluster, nodes, incoming), Replicate(IncomingComps(incoming), version))
    ensures Settling(applied, updated, map[], deleted, image, next) && ContentArrived(applied, incoming)
    ensures forall home | AllAtHome(nodes, home) :: AllAtHome(applied, home)
    ensures CompsOf(applied) == AfterReplication(cluster, nodes, incoming, version).comps <==>
            NothingLeaks(nodes, incoming, order)
    ensures NothingLeaks(nodes, incoming, order) ==> Inv(AfterReplication(cluster, nodes, incoming, version))
    ensures Apart(updated, deleted) <==> forall k :: !Recreated(nodes, incoming, k)
  {
    SnapshotSettles(nodes, image, cluster.last, incoming, order, cached, applied, updated, deleted, next);
    SnapshotContent(nodes, incoming, order, applied);
    ApartUnlessRecreated(nodes, incoming, order, cached, applied, updated, deleted);
    SnapshotIsReplicate(nodes, incoming, order, applied);
    if NothingLeaks(nodes, incoming, order) {
      SnapshotKeepsInv(nodes, incoming, order, applied, cluster, version);
    }
  }

  /** Whatever the order of the updates, the snapshot leaves a root component that can be read,
      and components with encoded paths. */
  ghost predicate CanReceive(nodes: Nodes, incoming: Records, root: Option<Value>) {
    forall order, applied | AppliedSnapshot(nodes, incoming, order, applied) ::
      RootReadable(applied, root) && ComponentsEncodable(applied)
  }

  lemma ReceivedWell(nodes: Nodes, incoming: Records, root: Option<Value>, order: seq<string>, cached: Nodes,
                     applied: Nodes)
    requires SnapshotEffect(nodes, incoming, order, cached, applied)
    ensures CanReceive(nodes, incoming, root) ==>
              RootReadable(applied, root) && ComponentsEncodable(RootRead(applied, root))
  {
    ReadingKeepsRecords(applied, root);
    assert AppliedSnapshot(nodes, incoming, order, applied);
  }

  /** What a snapshot that has been applied leaves for the close: the tasks are those of a
      replication step exactly if the order leaks no status. */
  ghost predicate Replicating(before: Nodes, incoming: Records, order: seq<string>, cluster: Cluster,
                              version: VersionedTransition, nodes: Nodes, updated: map<string, Path>,
                              deleted: set<string>, image: Records, next: VersionedTransition, home: map<nat, Path>)
  {
    && Settling(nodes, updated, map[], deleted, image, next) && AllAtHome(nodes, home)
    && Decodable(incoming) && ContentArrived(nodes, incoming)
    && (CompsOf(nodes) == AfterReplication(cluster, before, incoming, version).comps <==>
        NothingLeaks(before, incoming, order))
    && (NothingLeaks(before, incoming, order) ==> Inv(AfterReplication(cluster, before, incoming, version)))
    && (Apart(updated, deleted) <==> forall k :: !Recreated(before, incoming, k))
  }

  /** ApplySnapshot on a tree at rest: it fails only if the root component cannot be read. */
  method ReplicateSnapshot(t: Tree, incoming: Records, root: Option<Value>, ghost home: map<nat, Path>,
                           ghost next: VersionedTransition, ghost cluster: Cluster, ghost image: Records,
                           ghost version: VersionedTransition)
    returns (ok: bool, ghost order: seq<string>, ghost applied: Nodes)
    requires t.Valid() && t.updatedNodes == map[] && t.deletedNodes == {} && PersistedAsIs(t.nodes, image, cluster.last)
    requires Sent(t.nodes, incoming, next) && CompareVT(cluster.last, next) < 0
    requires Inv(cluster) && cluster.comps == CompsOf(t.nodes)
    requires Enabled(Keeping(cluster, t.nodes, incoming), Replicate(IncomingComps(incoming), version))
    requires AllAtHome(t.nodes, home) && RootAtHome(root, t.valueToNode, home)
    modifies t
    ensures ok <==> RootReadable(applied, root)
    ensures t.needsPointerResolution == old(t.needsPointerResolution)
    ensures CanReceive(old(t.nodes), incoming, root) ==> ok && ComponentsEncodable(t.nodes)
    ensures ok ==> t.Valid() && t.systemUpdatedNodes == old(t.systemUpdatedNodes) &&
                   t.isActiveStateDirty == old(t.isActiveStateDirty)
    ensures ok ==> Replicating(old(t.nodes), incoming, order, cluster, version, t.nodes, t.updatedNodes,
                               t.deletedNodes, image, next, home)
  {
    ghost var before := t.nodes;
    ghost var cached;
    ok, order, cached, applied := ApplySnapshot(t, incoming, root);
    ReceivedWell(before, incoming, root, order, cached, applied);
    if ok {
      AppliedSettles(before, incoming, order, cached, applied, t.updatedNodes, t.deletedNodes, next, cluster,
                     image, version);
      ReadingSettles(applied, root, t.updatedNodes, t.deletedNodes, image, next);
      ReadingKeepsHome(applied, root, home);
      ReadingKeepsArrived(applied, root, incoming);
    }
  }

  lemma StandbyImage(before: Nodes, deleted: set<string>, records: Records, incoming: Records, mutation: Mutation,
                     nodes: Nodes)
    requires [] in before && TxInv(before, deleted, Image(before, records))
    requires Decodable(incoming) && ContentArrived(nodes, incoming) && [] in nodes
    requires forall k | k in incoming :: CompareVT(incoming[k].lastUpdate, ZERO_VT) > 0
    requires var image := mutation.Apply(Image(before, records));
             FullImage(nodes, image) && TxInv(nodes, {}, image) && forall q | q in nodes :: Clean(nodes[q])
    ensures mutation.Apply(records) == mutation.Apply(Image(before, records))
    ensures Image(nodes, mutation.Apply(records)) == mutation.Apply(records)
  {
    RootDecodes(before, deleted, Image(before, records));
    RootDecodes(nodes, {}, mutation.Apply(Image(before, records)));
    var k := KeyFor(incoming, []);
    assert CompareVT(nodes[[]].serialized.value.lastUpdate, ZERO_VT) > 0;
    ImageAfterClose(before, records, mutation, nodes);
  }

  /** The tasks have made a close step from `start`, and the tree is at rest. */
  ghost predicate StepAndRest(t: Tree, backend: Backend, start: Cluster, visited: seq<Path>, input: CloseInput,
                              dropped: set<Time>, image: Records, next: VersionedTransition)
    reads t, backend
  {
    && CloseStep(start, visited, input, dropped, ClusterOf(t.nodes, backend.timers, backend.emitted, next))
    && RestsAfter(t, backend, image, next, start.timers)
  }

  /** The close after a snapshot has been applied. */
  method CloseReceived(t: Tree, backend: Backend, incoming: Records, next: VersionedTransition, codec: Codec,
                       validators: Validators, newTasks: map<nat, seq<NewTask>>, chooses: Time -> bool,
                       ghost before: Nodes, ghost order: seq<string>, ghost cluster: Cluster,
                       ghost version: VersionedTransition, ghost image: Records, ghost home: map<nat, Path>)
    returns (ok: bool, mutation: Mutation, ghost visited: seq<Path>, ghost input: CloseInput, ghost dropped: set<Time>)
    requires t.Valid() && !t.isActiveStateDirty && !t.needsPointerResolution && t.systemUpdatedNodes == map[]
    requires Replicating(before, incoming, order, cluster, version, t.nodes, t.updatedNodes, t.deletedNodes, image,
                         next, home)
    requires cluster.timers == backend.timers && cluster.log == backend.emitted
    requires CompareVT(ZERO_VT, cluster.last) <= 0 && CompareVT(cluster.last, next) < 0 && CompareVT(version, next) < 0
    modifies t, backend
    ensures newTasks == map[] && ComponentsEncodable(old(t.nodes)) ==> ok
    ensures ok ==> Persisted(t, mutation.Apply(image)) && ContentArrived(t.nodes, incoming)
    ensures ok && (forall k :: !Recreated(before, incoming, k)) ==> mutation.updated.Keys !! mutation.deleted
    ensures ok && NothingLeaks(before, incoming, order) ==>
      StepAndRest(t, backend, AfterReplication(cluster, before, incoming, version), visited, input, dropped,
                  mutation.Apply(image), next)
  {
    LastAfterReplication(cluster, before, incoming, version, next);
    ghost var read, replicated := t.nodes, AfterReplication(cluster, before, incoming, version);
    ghost var synced := ClusterOf(read, backend.timers, backend.emitted, replicated.last);
    assert synced.comps == replicated.comps ==> synced == replicated;
    AddNothing(t.updatedNodes, t.systemUpdatedNodes);
    ok, mutation, visited, input, dropped :=
      CloseSettled(t, backend, next, codec, validators, newTasks, chooses, image, synced, home);
    if ok {
      ContentStays(read, t.nodes, incoming, next);
    }
  }

  /** ApplySnapshot and then CloseTransaction, when `image` is persisted. */
  method ReceiveOnImage(t: Tree, backend: Backend, incoming: Records, root: Option<Value>, next: VersionedTransition,
                        codec: Codec, validators: Validators, newTasks: map<nat, seq<NewTask>>, chooses: Time -> bool,
                        ghost image: Records, ghost cluster: Cluster, ghost version: VersionedTransition,
                        ghost home: map<nat, Path>)
    returns (ok: bool, mutation: Mutation, ghost order: seq<string>, ghost visited: seq<Path>, ghost input: CloseInput,
             ghost dropped: set<Time>)
    requires t.Valid() && t.updatedNodes == map[] && t.deletedNodes == {} && t.systemUpdatedNodes == map[] &&
             !t.isActiveStateDirty && !t.needsPointerResolution
    requires PersistedAsIs(t.nodes, image, cluster.last) && AllAtHome(t.nodes, home) && Sent(t.nodes, incoming, next)
    requires cluster == ClusterOf(t.nodes, backend.timers, backend.emitted, cluster.last) && Inv(cluster)
    requires Enabled(Keeping(cluster, t.nodes, incoming), Replicate(IncomingComps(incoming), version))
    requires CompareVT(ZERO_VT, cluster.last) <= 0 && CompareVT(cluster.last, next) < 0 && CompareVT(version, next) < 0
    requires RootAtHome(root, t.valueToNode, home)
    modifies t, backend
    ensures newTasks == map[] && CanReceive(old(t.nodes), incoming, root) ==> ok
    ensures ok ==> Persisted(t, mutation.Apply(image)) && ContentArrived(t.nodes, incoming)
    ensures ok && (forall k :: !Recreated(old(t.nodes), incoming, k)) ==> mutation.updated.Keys !! mutation.deleted
    ensures ok && NothingLeaks(old(t.nodes), incoming, order) ==>
      StepAndRest(t, backend, AfterReplication(cluster, old(t.nodes), incoming, version), visited, input, dropped,
                  mutation.Apply(image), next)
  {
    mutation, visited, dropped, input := Mutation(map[], {}), [], {}, CloseInput(next, false, map[], validators);
    ghost var before := t.nodes;
    ghost var applied;
    ok, order, applied := ReplicateSnapshot(t, incoming, root, home, next, cluster, image, version);
    if !ok {
      return;
    }
    ok, mutation, visited, input, dropped :=
      CloseReceived(t, backend, incoming, next, codec, validators, newTasks, chooses, before, order, cluster, version,
                    image, home);
  }

  /** ApplySnapshot and then CloseTransaction on a standby at rest.  The mutation that it returns
      brings its own persisted records to those of the tree, which has the positions and the
      content of the snapshot.  If the order in which the updates were taken has leaked no
      status, the tasks have made a replication and a close step, and the standby is at rest. */
  method ReceiveSnapshot(t: Tree, backend: Backend, incoming: Records, root: Option<Value>, next: VersionedTransition,
                         codec: Codec, validators: Validators, newTasks: map<nat, seq<NewTask>>, chooses: Time -> bool,
                         ghost records: Records, ghost last: VersionedTransition, ghost version: VersionedTransition,
                         ghost home: map<nat, Path>)
    returns (ok: bool, mutation: Mutation, ghost order: seq<string>, ghost visited: seq<Path>, ghost input: CloseInput,
             ghost dropped: set<Time>)
    requires AtRest(t, backend, records, last) && AllAtHome(t.nodes, home) && Sent(t.nodes, incoming, next)
    requires Enabled(Keeping(ClusterOf(t.nodes, backend.timers, backend.emitted, last), t.nodes, incoming),
                     Replicate(IncomingComps(incoming), version))
    requires CompareVT(last, next) < 0 && CompareVT(version, next) < 0 && RootAtHome(root, t.valueToNode, home)
    modifies t, backend
    ensures newTasks == map[] && CanReceive(old(t.nodes), incoming, root) ==> ok
    ensures ok ==> Persisted(t, mutation.Apply(records)) && ContentArrived(t.nodes, incoming)
    ensures ok && (forall k :: !Recreated(old(t.nodes), incoming, k)) ==> mutation.updated.Keys !! mutation.deleted
    ensures ok && NothingLeaks(old(t.nodes), incoming, order) ==>
      && AtRest(t, backend, mutation.Apply(records), next)
      && CloseStep(AfterReplication(ClusterOf(old(t.nodes), old(backend.timers), old(backend.emitted), last),
                                    old(t.nodes), incoming, version), visited, input, dropped,
                   ClusterOf(t.nodes, backend.timers, backend.emitted, next))
      && EarliestCreated(CompsOf(t.nodes)) && |backend.timers - old(backend.timers)| <= 1
  {
    ghost var before, image, cluster :=
      t.nodes, Image(t.nodes, records), ClusterOf(t.nodes, backend.timers, backend.emitted, last);
    ok, mutation, order, visited, input, dropped :=
      ReceiveOnImage(t, backend, incoming, root, next, codec, validators, newTasks, chooses, image, cluster,
                     version, home);
    if ok {
      StandbyImage(before, {}, records, incoming, mutation, t.nodes);
    }
  }
}
