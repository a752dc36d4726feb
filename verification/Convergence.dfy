/** After replication the standby tree is the tree of the source (chasm/tree.go). */
module Convergence {
  import opened Basics
  import opened PathEncoder
  import opened PathKeys
  import opened Tasks
  import opened ChasmTree
  import opened Replication
  import opened ReplicationApply

  // ----- Hypotheses on the two trees

  /** The incoming records are those of a whole tree. */
  ghost predicate WholeTree(incoming: Records) {
    && Decodable(incoming)
    && OneKeyPerPath(incoming)
    && (exists l :: l in incoming && Decoded(l) == Ok([]))
    && forall k, p | k in incoming && Decoded(k).Ok? && p <= Decoded(k).value ::
         exists l :: l in incoming && Decoded(l) == Ok(p)
  }

  /** Every node but the root has been updated at some version. */
  ghost predicate Versioned(nodes: Nodes) {
    forall p | p in nodes && p != [] :: Newer(nodes[p], ZERO_VT)
  }

  // ----- What is promised

  ghost predicate Converged(result: Nodes, incoming: Records)
    requires Decodable(incoming)
  {
    && result.Keys == Paths(incoming.Keys)
    && forall k | k in incoming ::
         var n := result[Decoded(k).value];
         n.serialized.Some? && n.serialized.value.lastUpdate == incoming[k].lastUpdate
  }

  /** A record that ApplySnapshot finds unchanged, below one that it deletes. */
  ghost predicate Orphan(current: Records, incoming: Records, k: string) {
    && k in incoming && k in current && current[k].lastUpdate == incoming[k].lastUpdate
    && Decoded(k).Ok? && Decoded(k).value != [] &&
       Covered(Paths(SnapshotDeletions(current, incoming)), Decoded(k).value)
  }

  /** No position has one key here and another one there. */
  ghost predicate SameKeys(current: Records, incoming: Records) {
    forall k, l | k in current && l in incoming && Decoded(k).Ok? && Decoded(k) == Decoded(l) :: k == l
  }

  /** A version determines the replicated part of a record. */
  ghost predicate VersionsDetermineRecords(nodes: Nodes, incoming: Records) {
    forall k | k in incoming && Decoded(k).Ok? && Decoded(k).value in nodes ::
      var n := nodes[Decoded(k).value];
      n.serialized.Some? && n.serialized.value.lastUpdate == incoming[k].lastUpdate ==>
        Strip(n.serialized.value) == Strip(incoming[k])
  }

  lemma SameVersion(a: VersionedTransition, b: VersionedTransition)
    ensures CompareVT(a, b) == 0 <==> a == b
  {
  }

  /** What ApplySnapshot starts from, and the outcome of its two phases. */
  ghost predicate Setting(nodes: Nodes, incoming: Records, order: seq<string>, cached: Nodes, result: Nodes) {
    && PrefixClosed(nodes) && AllSerialized(nodes) && WellKeyed(nodes) && Versioned(nodes) && WholeTree(incoming)
    && SameButCaches(nodes, cached)
    && var current := RecordsAt(nodes, nodes.Keys, ZERO_VT);
       var updates := SnapshotUpdates(current, incoming);
       Enumerates(order, updates.Keys) &&
       Outcome(RemainingNodes(cached, Paths(SnapshotDeletions(current, incoming))), order, updates, result)
  }

  lemma ApplySnapshotSetting(nodes: Nodes, incoming: Records, order: seq<string>, result: Nodes) returns (cached: Nodes)
    requires PrefixClosed(nodes) && AllSerialized(nodes) && WellKeyed(nodes) && Versioned(nodes) && WholeTree(incoming)
    requires AppliedSnapshot(nodes, incoming, order, result)
    ensures Setting(nodes, incoming, order, cached, result)
  {
    var current := RecordsAt(nodes, nodes.Keys, ZERO_VT);
    var updates := SnapshotUpdates(current, incoming);
    var deleted := Paths(SnapshotDeletions(current, incoming));
    cached :| SnapshotEffect(nodes, incoming, order, cached, result);
    CachingKeepsKeys(nodes, cached);
    RemainingClosed(cached, deleted);
    UpdatedAllOutcome(RemainingNodes(cached, deleted), order, updates);
  }

  lemma CurrentRecord(nodes: Nodes, p: Path)
    requires WellKeyed(nodes) && p in nodes
    ensures var current := RecordsAt(nodes, nodes.Keys, ZERO_VT);
            Decoded(Key(nodes, p)) == Ok(p) &&
            (Newer(nodes[p], ZERO_VT) ==> Key(nodes, p) in current &&
                                          current[Key(nodes, p)] == nodes[p].serialized.value)
  {
    WellKeyedIsKeyed(nodes);
  }

  /** No node of the result lies outside the snapshot. */
  lemma NothingElse(nodes: Nodes, incoming: Records, order: seq<string>, cached: Nodes, result: Nodes, p: Path)
    requires Setting(nodes, incoming, order, cached, result) && p in result
    ensures p in Paths(incoming.Keys)
  {
    var current := RecordsAt(nodes, nodes.Keys, ZERO_VT);
    var deletions := SnapshotDeletions(current, incoming);
    if Above(order, p) {
      var k :| k in order && Decoded(k).Ok? && p <= Decoded(k).value;
      var l :| l in incoming && Decoded(l) == Ok(p);
    } else if p == [] {
      var l :| l in incoming && Decoded(l) == Ok([]);
    } else {
      CurrentRecord(nodes, p);
      DeletedIsCovered(current, incoming, Key(nodes, p), p);
    }
  }

  lemma DeletedIsCovered(current: Records, incoming: Records, k: string, p: Path)
    requires k in current && Decoded(k) == Ok(p)
    ensures k !in incoming ==> Covered(Paths(SnapshotDeletions(current, incoming)), p)
  {
    if k !in incoming {
      assert p in Paths(SnapshotDeletions(current, incoming)) && p <= p;
    }
  }

  /** The node at `q` holds the incoming record, or one of the same version. */
  ghost predicate Arrived(nodes: Nodes, incoming: Records, k: string, result: Nodes)
    requires k in incoming && Decoded(k).Ok?
  {
    var q := Decoded(k).value;
    && q in result && result[q].serialized.Some? && result[q].serialized.value.lastUpdate == incoming[k].lastUpdate
    && (VersionsDetermineRecords(nodes, incoming) ==> Stripped(result[q]) == Some(Strip(incoming[k])))
  }

  lemma UpdateArrives(nodes: Nodes, incoming: Records, order: seq<string>, cached: Nodes, result: Nodes, k: string)
    requires Setting(nodes, incoming, order, cached, result) && k in incoming
    requires k in SnapshotUpdates(RecordsAt(nodes, nodes.Keys, ZERO_VT), incoming)
    ensures Arrived(nodes, incoming, k, result)
  {
    var current := RecordsAt(nodes, nodes.Keys, ZERO_VT);
    var rest := RemainingNodes(cached, Paths(SnapshotDeletions(current, incoming)));
    var q := Decoded(k).value;
    assert k in order && Above(order, q);
    assert UpdateResult(rest, q, k, incoming[k], result[q]);
    assert q in rest ==> rest[q].serialized == nodes[q].serialized;
    UpdateResultArrives(nodes, rest, q, incoming, k, result);
  }

  lemma UpdateResultArrives(nodes: Nodes, rest: Nodes, q: Path, incoming: Records, k: string, result: Nodes)
    requires k in incoming && Decoded(k) == Ok(q) && q in result
    requires UpdateResult(rest, q, k, incoming[k], result[q])
    requires q in rest ==> q in nodes && rest[q].serialized == nodes[q].serialized
    ensures Arrived(nodes, incoming, k, result)
  {
    if q in rest && !NeedsUpdate(rest[q], incoming[k]) {
      SameVersion(rest[q].serialized.value.lastUpdate, incoming[k].lastUpdate);
    } else {
      StripKeepsVersion(result[q].serialized.value, incoming[k]);
    }
  }

  lemma StripKeepsVersion(a: ChasmNode, b: ChasmNode)
    ensures Strip(a) == Strip(b) ==> a.lastUpdate == b.lastUpdate &&
                                     a.attributes.Collection? == b.attributes.Collection?
  {
    assert Strip(a).lastUpdate == a.lastUpdate && Strip(b).lastUpdate == b.lastUpdate;
  }

  lemma UnchangedStays(nodes: Nodes, incoming: Records, order: seq<string>, cached: Nodes, result: Nodes, k: string)
    requires Setting(nodes, incoming, order, cached, result) && k in incoming
    requires k !in SnapshotUpdates(RecordsAt(nodes, nodes.Keys, ZERO_VT), incoming)
    ensures var current := RecordsAt(nodes, nodes.Keys, ZERO_VT);
            if Orphan(current, incoming, k) then Decoded(k).value in result ==>
               result[Decoded(k).value].serialized == None
            else Arrived(nodes, incoming, k, result)
  {
    var current := RecordsAt(nodes, nodes.Keys, ZERO_VT);
    var q := Decoded(k).value;
    SameVersion(current[k].lastUpdate, incoming[k].lastUpdate);
    assert !Touched(order, q) by {
      assert forall l | l in order :: l in incoming && l != k;
    }
  }

  /** What becomes of an incoming record: it arrives, unless it is orphaned. */
  ghost predicate Fate(nodes: Nodes, incoming: Records, result: Nodes, k: string)
    requires k in incoming && Decoded(k).Ok?
  {
    if Orphan(RecordsAt(nodes, nodes.Keys, ZERO_VT), incoming, k)
    then Decoded(k).value in result ==> result[Decoded(k).value].serialized == None
    else Arrived(nodes, incoming, k, result)
  }

  lemma RecordArrives(nodes: Nodes, incoming: Records, order: seq<string>, cached: Nodes, result: Nodes, k: string)
    requires Setting(nodes, incoming, order, cached, result) && k in incoming
    ensures Fate(nodes, incoming, result, k)
  {
    var current := RecordsAt(nodes, nodes.Keys, ZERO_VT);
    if k in SnapshotUpdates(current, incoming) {
      SameVersion(if k in current then current[k].lastUpdate else ZERO_VT, incoming[k].lastUpdate);
      UpdateArrives(nodes, incoming, order, cached, result, k);
    } else {
      UnchangedStays(nodes, incoming, order, cached, result, k);
    }
  }

  /** ApplySnapshot brings the tree to the state of the snapshot exactly if it deletes nothing
      above a record that it takes to be up to date. */
  lemma SnapshotConverges(nodes: Nodes, incoming: Records, order: seq<string>, result: Nodes)
    requires PrefixClosed(nodes) && AllSerialized(nodes) && WellKeyed(nodes) && Versioned(nodes) && WholeTree(incoming)
    requires AppliedSnapshot(nodes, incoming, order, result)
    ensures var current := RecordsAt(nodes, nodes.Keys, ZERO_VT);
            Converged(result, incoming) <==> forall k :: !Orphan(current, incoming, k)
  {
    var cached := ApplySnapshotSetting(nodes, incoming, order, result);
    forall k | k in incoming {
      RecordArrives(nodes, incoming, order, cached, result, k);
    }
    forall p | p in result
      ensures p in Paths(incoming.Keys)
    {
      NothingElse(nodes, incoming, order, cached, result, p);
    }
    ConvergedByFate(nodes, incoming, result);
  }

  lemma ConvergedByFate(nodes: Nodes, incoming: Records, result: Nodes)
    requires Decodable(incoming)
    requires forall k | k in incoming :: Fate(nodes, incoming, result, k)
    requires forall p | p in result :: p in Paths(incoming.Keys)
    ensures Converged(result, incoming) <==> forall k :: !Orphan(RecordsAt(nodes, nodes.Keys, ZERO_VT), incoming, k)
  {
    assert forall k | k in incoming :: Decoded(k).value in Paths(incoming.Keys);
    if forall k :: !Orphan(RecordsAt(nodes, nodes.Keys, ZERO_VT), incoming, k) {
      assert forall k | k in incoming :: Arrived(nodes, incoming, k, result);
    }
  }

  lemma DecodesOfExample()
    ensures Decoded("") == Ok([]) && Decoded("a") == Ok(["a"])
    ensures Decoded("a$b") == Ok(["a", "b"]) && Decoded("a#b") == Ok(["a", "b"])
    ensures Decoded("a$b$c") == Ok(["a", "b", "c"])
  {
    assert "" + ['a'] == "a" && "" + ['b'] == "b" && "" + ['c'] == "c";
    assert "c"[1..] == "" && "b"[1..] == "" && "a"[1..] == "" && "$c"[1..] == "c" && "b$c"[1..] == "$c";
    assert "$b"[1..] == "b" && "#b"[1..] == "b" && "$b$c"[1..] == "b$c";
    assert "a$b"[1..] == "$b" && "a#b"[1..] == "#b" && "a$b$c"[1..] == "$b$c";
    assert Split("", "c") == Ok(["c"]) && Split("", "b") == Ok(["b"]) && Split("", "a") == Ok(["a"]);
    assert Split("c", "") == Split("", "c") && Split("b", "") == Split("", "b") && Split("a", "") == Split("", "a");
    assert ["b"] + ["c"] == ["b", "c"] && ["a"] + ["b"] == ["a", "b"] && ["a"] + ["b", "c"] == ["a", "b", "c"];
    assert Split("b$c", "") == Split("$c", "b") == Prepend("b", Split("c", ""));
    assert Split("a$b", "") == Split("$b", "a") == Prepend("a", Split("b", ""));
    assert Split("a#b", "") == Split("#b", "a") == Prepend("a", Split("b", ""));
    assert Split("a$b$c", "") == Split("$b$c", "a") == Prepend("a", Split("b$c", ""));
    assert RUNE_ERROR !in "a$b$c" && RUNE_ERROR !in "a$b" && RUNE_ERROR !in "a#b" && RUNE_ERROR !in "a";
  }

  /** A tree with a collection `a`, its item `b`, and a child `c` of that. */
  function ExampleTree(root: ChasmNode, a: ChasmNode, b: ChasmNode, c: ChasmNode): Nodes {
    map[[] := Node(Some(root), None, NeedDeserialize, Some("")), ["a"] :=
        Node(Some(a), None, NeedDeserialize, Some("a")), ["a", "b"] :=
        Node(Some(b), None, NeedDeserialize, Some("a#b")), ["a", "b", "c"] :=
        Node(Some(c), None, NeedDeserialize, Some("a$b$c"))]
  }

  /** A snapshot of the same positions in which `a` is a component. */
  function ExampleSnapshot(root: ChasmNode, a: ChasmNode, b: ChasmNode, c: ChasmNode): Records {
    map["" := root, "a" := a, "a$b" := b, "a$b$c" := c]
  }

  lemma ExampleTreeOk(root: ChasmNode, a: ChasmNode, b: ChasmNode, c: ChasmNode)
    requires forall cn | cn in {a, b, c} :: CompareVT(cn.lastUpdate, ZERO_VT) > 0
    ensures var nodes := ExampleTree(root, a, b, c);
            && PrefixClosed(nodes) && AllSerialized(nodes) && WellKeyed(nodes) && Versioned(nodes)
            && var current := RecordsAt(nodes, nodes.Keys, ZERO_VT);
               "a#b" in current && "a$b$c" in current && current["a$b$c"] == c
  {
    var nodes := ExampleTree(root, a, b, c);
    DecodesOfExample();
    forall p, f | Child(p, f) in nodes
      ensures p in nodes
    {
      assert p == Child(p, f)[..|p|];
      assert ["a"][..0] == [] && ["a", "b"][..1] == ["a"] && ["a", "b", "c"][..2] == ["a", "b"];
    }
    assert ["a", "b"] in nodes.Keys && Newer(nodes[["a", "b"]], ZERO_VT) && Key(nodes, ["a", "b"]) == "a#b";
    assert ["a", "b", "c"] in nodes.Keys && Newer(nodes[["a", "b", "c"]], ZERO_VT) &&
           Key(nodes, ["a", "b", "c"]) == "a$b$c";
  }

  lemma ExampleSnapshotOk(root: ChasmNode, a: ChasmNode, b: ChasmNode, c: ChasmNode)
    requires forall cn | cn in {root, a, b, c} :: !cn.attributes.Collection?
    ensures WholeTree(ExampleSnapshot(root, a, b, c)) && EncoderKeys(ExampleSnapshot(root, a, b, c))
  {
    ExampleSnapshotWhole(root, a, b, c);
    ExampleKeysOk(ExampleSnapshot(root, a, b, c));
  }

  lemma ExampleSnapshotWhole(root: ChasmNode, a: ChasmNode, b: ChasmNode, c: ChasmNode)
    ensures WholeTree(ExampleSnapshot(root, a, b, c))
  {
    var incoming := ExampleSnapshot(root, a, b, c);
    DecodesOfExample();
    forall k, p | k in incoming && Decoded(k).Ok? && p <= Decoded(k).value
      ensures exists l :: l in incoming && Decoded(l) == Ok(p)
    {
      assert p == ["a", "b", "c"][..|p|];
      assert "" in incoming && "a" in incoming && "a$b" in incoming && "a$b$c" in incoming;
      assert |p| == 0 || p == ["a"] || p == ["a", "b"] || p == ["a", "b", "c"];
    }
    assert "" in incoming;
  }

  lemma ExampleKeysOk(incoming: Records)
    requires incoming.Keys <= {"", "a", "a$b", "a$b$c"} &&
             forall k | k in incoming :: !incoming[k].attributes.Collection?
    ensures EncoderKeys(incoming)
  {
    DecodesOfExample();
    JoinsOfExample();
    forall k | k in incoming && Decoded(k).Ok?
      ensures k == Join(Decoded(k).value, Separator(ParentIsCollection(incoming, Decoded(k).value)))
    {
      assert !ParentIsCollection(incoming, Decoded(k).value);
    }
  }

  lemma JoinsOfExample()
    ensures Join([], NAME_SEPARATOR) == "" && Join(["a"], NAME_SEPARATOR) == "a" &&
            Join(["a", "b"], NAME_SEPARATOR) == "a$b"
    ensures Join(["a", "b"], COLLECTION_SEPARATOR) == "a#b" && Join(["a", "b", "c"], NAME_SEPARATOR) == "a$b$c"
  {
    assert Escape("a") == "a" && Escape("b") == "b" && Escape("c") == "c";
    assert ["a", "b", "c"][1..] == ["b", "c"] && ["a", "b"][1..] == ["b"] && ["b", "c"][1..] == ["c"];
    assert Join(["b"], NAME_SEPARATOR) == "b" && Join(["b"], COLLECTION_SEPARATOR) == "b" &&
           Join(["c"], NAME_SEPARATOR) == "c";
    assert Join(["b", "c"], NAME_SEPARATOR) == "b$c";
  }

  /** Such a record can exist between two whole trees with the keys of the encoder.  Where the
      collection has become a component, its item is deleted under its old key and created
      under the new one, and the item's own child, unchanged and under one key in both, goes
      with it: in no order does the standby arrive at the snapshot. */
  lemma OrphanExample(root: ChasmNode, a: ChasmNode, a': ChasmNode, b: ChasmNode, b': ChasmNode, c: ChasmNode,
                      order: seq<string>, result: Nodes)
    requires forall cn | cn in {a, a', b, b', c} :: CompareVT(cn.lastUpdate, ZERO_VT) > 0
    requires a.attributes.Collection? && forall cn | cn in {root, a', b, b', c} :: cn.attributes.Component?
    requires AppliedSnapshot(ExampleTree(root, a, b, c), ExampleSnapshot(root, a', b', c), order, result)
    ensures !Converged(result, ExampleSnapshot(root, a', b', c))
  {
    ExampleTreeOk(root, a, b, c);
    ExampleSnapshotOk(root, a', b', c);
    ExampleHasOrphan(root, a, a', b, b', c);
    OrphanDiverges(ExampleTree(root, a, b, c), ExampleSnapshot(root, a', b', c), order, result, "a$b$c");
  }

  lemma ExampleHasOrphan(root: ChasmNode, a: ChasmNode, a': ChasmNode, b: ChasmNode, b': ChasmNode, c: ChasmNode)
    requires forall cn | cn in {a, b, c} :: CompareVT(cn.lastUpdate, ZERO_VT) > 0
    ensures var nodes := ExampleTree(root, a, b, c);
            Orphan(RecordsAt(nodes, nodes.Keys, ZERO_VT), ExampleSnapshot(root, a', b', c), "a$b$c")
  {
    var nodes := ExampleTree(root, a, b, c);
    ExampleTreeOk(root, a, b, c);
    ExampleOrphan(RecordsAt(nodes, nodes.Keys, ZERO_VT), ExampleSnapshot(root, a', b', c));
  }

  lemma OrphanDiverges(nodes: Nodes, incoming: Records, order: seq<string>, result: Nodes, k: string)
    requires PrefixClosed(nodes) && AllSerialized(nodes) && WellKeyed(nodes) && Versioned(nodes) && WholeTree(incoming)
    requires AppliedSnapshot(nodes, incoming, order, result) &&
             Orphan(RecordsAt(nodes, nodes.Keys, ZERO_VT), incoming, k)
    ensures !Converged(result, incoming)
  {
    SnapshotConverges(nodes, incoming, order, result);
  }

  lemma ExampleOrphan(current: Records, incoming: Records)
    requires "a#b" in current && "a#b" !in incoming && "a$b$c" in current && "a$b$c" in incoming
    requires current["a$b$c"].lastUpdate == incoming["a$b$c"].lastUpdate
    ensures Orphan(current, incoming, "a$b$c")
  {
    DecodesOfExample();
    assert "a#b" in SnapshotDeletions(current, incoming);
    assert ["a", "b"] in Paths(SnapshotDeletions(current, incoming)) && ["a", "b"] <= ["a", "b", "c"];
  }

  /** A root and one child, and a snapshot in which the child has changed. */
  function ExamplePair(root: ChasmNode, a: ChasmNode): Nodes {
    map[[] := Node(Some(root), None, NeedDeserialize, Some("")), ["a"] :=
        Node(Some(a), None, NeedDeserialize, Some("a"))]
  }

  lemma ExamplePairOk(root: ChasmNode, a: ChasmNode, a': ChasmNode)
    requires forall cn | cn in {root, a, a'} :: CompareVT(cn.lastUpdate, ZERO_VT) > 0
    requires !root.attributes.Collection? && !a'.attributes.Collection? && a'.lastUpdate != a.lastUpdate
    ensures var nodes, incoming := ExamplePair(root, a), map["" := root, "a" := a'];
            && PrefixClosed(nodes) && AllSerialized(nodes) && WellKeyed(nodes) && Versioned(nodes)
            && WholeTree(incoming) && EncoderKeys(incoming) && VersionsDetermineRecords(nodes, incoming)
            && NoOrphans(nodes, incoming)
  {
    var nodes, incoming := ExamplePair(root, a), map["" := root, "a" := a'];
    ExamplePairTree(root, a);
    ExamplePairSnapshot(root, a');
    ExamplePairDiff(root, a, a');
    assert Paths({}) == {};
    DecodesOfExample();
  }

  lemma ExamplePairTree(root: ChasmNode, a: ChasmNode)
    requires CompareVT(a.lastUpdate, ZERO_VT) > 0
    ensures var nodes := ExamplePair(root, a);
            PrefixClosed(nodes) && AllSerialized(nodes) && WellKeyed(nodes) && Versioned(nodes)
  {
    var nodes := ExamplePair(root, a);
    DecodesOfExample();
    forall p, f | Child(p, f) in nodes
      ensures p in nodes
    {
      assert p == Child(p, f)[..|p|] && ["a"][..0] == [];
    }
  }

  lemma ExamplePairDiff(root: ChasmNode, a: ChasmNode, a': ChasmNode)
    requires CompareVT(root.lastUpdate, ZERO_VT) > 0 && CompareVT(a.lastUpdate, ZERO_VT) > 0 &&
             a'.lastUpdate != a.lastUpdate
    ensures var nodes, incoming := ExamplePair(root, a), map["" := root, "a" := a'];
            var current := RecordsAt(nodes, nodes.Keys, ZERO_VT);
            SnapshotUpdates(current, incoming).Keys == {"a"} && SnapshotDeletions(current, incoming) == {}
  {
    ExamplePairRecords(root, a);
    SameVersion(a.lastUpdate, a'.lastUpdate);
    SameVersion(root.lastUpdate, root.lastUpdate);
  }

  lemma ExamplePairRecords(root: ChasmNode, a: ChasmNode)
    requires CompareVT(root.lastUpdate, ZERO_VT) > 0 && CompareVT(a.lastUpdate, ZERO_VT) > 0
    ensures var nodes := ExamplePair(root, a); RecordsAt(nodes, nodes.Keys, ZERO_VT) == map["" := root, "a" := a]
  {
    var nodes := ExamplePair(root, a);
    DecodesOfExample();
    assert [] in nodes.Keys && Newer(nodes[[]], ZERO_VT) && Key(nodes, []) == "";
    assert ["a"] in nodes.Keys && Newer(nodes[["a"]], ZERO_VT) && Key(nodes, ["a"]) == "a";
    assert KeysAt(nodes, nodes.Keys, ZERO_VT) == {"", "a"};
  }

  lemma ExamplePairSnapshot(root: ChasmNode, a: ChasmNode)
    requires !root.attributes.Collection? && !a.attributes.Collection?
    ensures WholeTree(map["" := root, "a" := a]) && EncoderKeys(map["" := root, "a" := a])
  {
    var incoming := map["" := root, "a" := a];
    DecodesOfExample();
    forall k, p | k in incoming && Decoded(k).Ok? && p <= Decoded(k).value
      ensures exists l :: l in incoming && Decoded(l) == Ok(p)
    {
      assert p == ["a"][..|p|];
      assert "" in incoming && "a" in incoming && (|p| == 0 || p == ["a"]);
    }
    assert "" in incoming;
    ExampleKeysOk(incoming);
  }

  ghost predicate NoOrphans(nodes: Nodes, incoming: Records) {
    forall k :: !Orphan(RecordsAt(nodes, nodes.Keys, ZERO_VT), incoming, k)
  }

  /** Where a version determines a record and nothing is orphaned, the records are reproduced. */
  lemma RecordsReproduced(nodes: Nodes, incoming: Records, order: seq<string>, result: Nodes)
    requires PrefixClosed(nodes) && AllSerialized(nodes) && WellKeyed(nodes) && Versioned(nodes) && WholeTree(incoming)
    requires AppliedSnapshot(nodes, incoming, order, result)
    requires NoOrphans(nodes, incoming) && VersionsDetermineRecords(nodes, incoming)
    ensures Converged(result, incoming)
    ensures forall k | k in incoming :: Stripped(result[Decoded(k).value]) == Some(Strip(incoming[k]))
  {
    SnapshotConverges(nodes, incoming, order, result);
    var cached := ApplySnapshotSetting(nodes, incoming, order, result);
    forall k | k in incoming
      ensures Stripped(result[Decoded(k).value]) == Some(Strip(incoming[k]))
    {
      RecordArrives(nodes, incoming, order, cached, result, k);
      assert !Orphan(RecordsAt(nodes, nodes.Keys, ZERO_VT), incoming, k);
    }
  }

  /** When both clusters write every position under the same key, ApplySnapshot always
      converges, and where a version determines a record it reproduces the records. */
  lemma SnapshotConvergesOnSameKeys(nodes: Nodes, incoming: Records, order: seq<string>, result: Nodes)
    requires PrefixClosed(nodes) && AllSerialized(nodes) && WellKeyed(nodes) && Versioned(nodes) && WholeTree(incoming)
    requires AppliedSnapshot(nodes, incoming, order, result)
    requires SameKeys(RecordsAt(nodes, nodes.Keys, ZERO_VT), incoming)
    ensures Converged(result, incoming)
    ensures VersionsDetermineRecords(nodes, incoming) ==>
      forall k | k in incoming :: Stripped(result[Decoded(k).value]) == Some(Strip(incoming[k]))
  {
    SameKeysNoOrphans(nodes, incoming);
    SnapshotConverges(nodes, incoming, order, result);
    if VersionsDetermineRecords(nodes, incoming) {
      RecordsReproduced(nodes, incoming, order, result);
    }
  }

  lemma SameKeysNoOrphans(nodes: Nodes, incoming: Records)
    requires WholeTree(incoming) && SameKeys(RecordsAt(nodes, nodes.Keys, ZERO_VT), incoming)
    ensures NoOrphans(nodes, incoming)
  {
    forall k
      ensures !Orphan(RecordsAt(nodes, nodes.Keys, ZERO_VT), incoming, k)
    {
      NoOrphanOnSameKeys(RecordsAt(nodes, nodes.Keys, ZERO_VT), incoming, k);
    }
  }

  lemma NoOrphanOnSameKeys(current: Records, incoming: Records, k: string)
    requires WholeTree(incoming) && SameKeys(current, incoming)
    ensures !Orphan(current, incoming, k)
  {
    if k in incoming {
      NothingDeletedAbove(current, incoming, k);
    }
  }

  /** Where keys agree, no position of the snapshot lies at or below a deleted one. */
  lemma NothingDeletedAbove(current: Records, incoming: Records, k: string)
    requires WholeTree(incoming) && SameKeys(current, incoming) && k in incoming
    ensures !Covered(Paths(SnapshotDeletions(current, incoming)), Decoded(k).value)
  {
    forall d | d <= Decoded(k).value
      ensures d !in Paths(SnapshotDeletions(current, incoming))
    {
      var l :| l in incoming && Decoded(l) == Ok(d);
      assert forall c | c in current && Decoded(c) == Ok(d) :: c == l;
    }
  }

  // ----- Applying a snapshot again

  ghost predicate ParentIsCollection(incoming: Records, q: Path) {
    q != [] && exists l :: l in incoming && Decoded(l) == Ok(Parent(q)) && incoming[l].attributes.Collection?
  }

  /** The keys are those the encoder gives the nodes of the incoming tree. */
  ghost predicate EncoderKeys(incoming: Records) {
    forall k | k in incoming && Decoded(k).Ok? ::
      k == Join(Decoded(k).value, Separator(ParentIsCollection(incoming, Decoded(k).value)))
  }

  /** The key that a node kept by the deletions has cached, if any, is the incoming one. */
  lemma KeptKey(nodes: Nodes, incoming: Records, cached: Nodes, k: string)
    requires WellKeyed(nodes) && Versioned(nodes) && WholeTree(incoming) && SameButCaches(nodes, cached)
    requires k in incoming &&
             Decoded(k).value in RemainingNodes(cached,
                                                Paths(SnapshotDeletions(RecordsAt(nodes, nodes.Keys, ZERO_VT),
                                                                        incoming)))
    ensures var e := cached[Decoded(k).value].encodedPath; e == None || e == Some(k)
  {
    var q := Decoded(k).value;
    CurrentRecord(nodes, q);
    CachingKeepsKeys(nodes, cached);
    if q == [] {
      OnlyRootDecodesToRoot(k);
      OnlyRootDecodesToRoot(Key(nodes, q));
    } else {
      DeletedIsCovered(RecordsAt(nodes, nodes.Keys, ZERO_VT), incoming, Key(nodes, q), q);
    }
  }

  lemma RootKept(current: Records, incoming: Records)
    requires WholeTree(incoming)
    ensures [] !in Paths(SnapshotDeletions(current, incoming))
  {
    var l :| l in incoming && Decoded(l) == Ok([]);
    OnlyRootDecodesToRoot(l);
    forall k | k in SnapshotDeletions(current, incoming)
      ensures Decoded(k) != Ok([])
    {
      OnlyRootDecodesToRoot(k);
    }
  }

  lemma ResultKey(nodes: Nodes, incoming: Records, order: seq<string>, cached: Nodes, result: Nodes, k: string)
    requires Setting(nodes, incoming, order, cached, result) && k in incoming
    requires Decoded(k).value in result
    ensures var e := result[Decoded(k).value].encodedPath; e == None || e == Some(k)
  {
    var current := RecordsAt(nodes, nodes.Keys, ZERO_VT);
    var rest := RemainingNodes(cached, Paths(SnapshotDeletions(current, incoming)));
    var q := Decoded(k).value;
    RootKept(current, incoming);
    if q in rest {
      KeptKey(nodes, incoming, cached, k);
    }
    if Touched(order, q) {
      var l :| l in order && Decoded(l) == Ok(q);
      assert l == k;
    }
  }

  lemma ComputedKey(incoming: Records, result: Nodes, k: string)
    requires WholeTree(incoming) && EncoderKeys(incoming) && k in incoming && Decoded(k).value in result
    requires forall l | l in incoming ::
      Decoded(l).value in result && result[Decoded(l).value].serialized.Some? &&
      Strip(result[Decoded(l).value].serialized.value) == Strip(incoming[l])
    ensures var q := Decoded(k).value;
            k == Join(q, Separator(q != [] && Parent(q) in result && result[Parent(q)].IsMap()))
  {
    var q := Decoded(k).value;
    if q != [] {
      var l :| l in incoming && Decoded(l) == Ok(Parent(q));
      StripKeepsVersion(result[Parent(q)].serialized.value, incoming[l]);
      assert forall m | m in incoming && Decoded(m) == Ok(Parent(q)) :: m == l;
    }
  }

  /** A tree and a snapshot of which a version determines each record. */
  ghost predicate Comparable(nodes: Nodes, incoming: Records) {
    && PrefixClosed(nodes) && AllSerialized(nodes) && WellKeyed(nodes) && Versioned(nodes) && WholeTree(incoming)
    && VersionsDetermineRecords(nodes, incoming) && EncoderKeys(incoming)
  }

  /** The nodes of the result have the keys of the snapshot. */
  lemma ResultKeys(nodes: Nodes, incoming: Records, order: seq<string>, result: Nodes)
    requires Comparable(nodes, incoming) && NoOrphans(nodes, incoming) &&
             AppliedSnapshot(nodes, incoming, order, result)
    ensures Converged(result, incoming)
    ensures forall k | k in incoming :: Decoded(k).value in result && Key(result, Decoded(k).value) == k
  {
    RecordsReproduced(nodes, incoming, order, result);
    var cached := ApplySnapshotSetting(nodes, incoming, order, result);
    forall k | k in incoming
      ensures Decoded(k).value in result && Key(result, Decoded(k).value) == k
    {
      assert Decoded(k).value in Paths(incoming.Keys);
      ResultKey(nodes, incoming, order, cached, result, k);
      ComputedKey(incoming, result, k);
    }
  }

  /** Computing the difference to the same snapshot again finds nothing to update and nothing to
      delete, exactly if the first application has orphaned no record. */
  lemma SecondSnapshotIsEmpty(nodes: Nodes, incoming: Records, order: seq<string>, result: Nodes)
    requires Comparable(nodes, incoming) && AppliedSnapshot(nodes, incoming, order, result)
    requires forall k | k in incoming :: CompareVT(incoming[k].lastUpdate, ZERO_VT) > 0
    ensures var current := RecordsAt(result, result.Keys, ZERO_VT);
            SnapshotUpdates(current, incoming) == map[] && SnapshotDeletions(current, incoming) == {} <==>
              NoOrphans(nodes, incoming)
  {
    if NoOrphans(nodes, incoming) {
      ResultKeys(nodes, incoming, order, result);
      EmptyDifference(incoming, result);
    } else {
      var k :| Orphan(RecordsAt(nodes, nodes.Keys, ZERO_VT), incoming, k);
      OrphanIsMissing(nodes, incoming, order, result, k);
    }
  }

  lemma OrphanIsMissing(nodes: Nodes, incoming: Records, order: seq<string>, result: Nodes, k: string)
    requires Comparable(nodes, incoming) && AppliedSnapshot(nodes, incoming, order, result)
    requires Orphan(RecordsAt(nodes, nodes.Keys, ZERO_VT), incoming, k)
    ensures k in SnapshotUpdates(RecordsAt(result, result.Keys, ZERO_VT), incoming)
  {
    var cached := ApplySnapshotSetting(nodes, incoming, order, result);
    RecordArrives(nodes, incoming, order, cached, result, k);
    var current := RecordsAt(result, result.Keys, ZERO_VT);
    forall q | q in result && Decoded(Key(result, q)) == Ok(q) && Key(result, q) == k
      ensures !Newer(result[q], ZERO_VT)
    {
      assert q == Decoded(k).value;
    }
    assert k !in current;
  }

  lemma InCurrent(incoming: Records, result: Nodes, k: string)
    requires Decodable(incoming) && Converged(result, incoming) && k in incoming
    requires CompareVT(incoming[k].lastUpdate, ZERO_VT) > 0
    requires Decoded(k).value in result && Key(result, Decoded(k).value) == k
    ensures var current := RecordsAt(result, result.Keys, ZERO_VT);
            k in current && CompareVT(current[k].lastUpdate, incoming[k].lastUpdate) == 0
  {
    var q := Decoded(k).value;
    assert Newer(result[q], ZERO_VT) && q in result.Keys;
    assert k in KeysAt(result, result.Keys, ZERO_VT);
  }

  lemma InIncoming(incoming: Records, result: Nodes, k: string)
    requires Decodable(incoming) && Converged(result, incoming)
    requires forall l | l in incoming :: Decoded(l).value in result && Key(result, Decoded(l).value) == l
    requires k in RecordsAt(result, result.Keys, ZERO_VT)
    ensures k in incoming
  {
    var q :| q in result && Decoded(Key(result, q)) == Ok(q) && Key(result, q) == k;
    assert q in Paths(incoming.Keys);
  }

  lemma EmptyDifference(incoming: Records, result: Nodes)
    requires Decodable(incoming) && Converged(result, incoming)
    requires forall k | k in incoming :: CompareVT(incoming[k].lastUpdate, ZERO_VT) > 0
    requires forall k | k in incoming :: Decoded(k).value in result && Key(result, Decoded(k).value) == k
    ensures var current := RecordsAt(result, result.Keys, ZERO_VT);
            SnapshotUpdates(current, incoming) == map[] && SnapshotDeletions(current, incoming) == {}
  {
    var current := RecordsAt(result, result.Keys, ZERO_VT);
    forall k | k in incoming
      ensures k in current && CompareVT(current[k].lastUpdate, incoming[k].lastUpdate) == 0
    {
      InCurrent(incoming, result, k);
    }
    forall k | k in current
      ensures k in incoming
    {
      InIncoming(incoming, result, k);
    }
    assert SnapshotUpdates(current, incoming).Keys == {};
  }
}
