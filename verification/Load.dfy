/** Loading a tree from the database (chasm/tree.go, NewTreeFromDB), and the round trip with
    what CloseTransaction persists. */
module Load {
  import opened Basics
  import opened PathEncoder
  import opened Tasks
  import opened ChasmTree
  import opened Replication
  import opened CloseTree
  import opened Runs
  import opened Persistence
  import opened Steps

  function LoadedNode(key: string, record: ChasmNode): Node {
    Node(Some(record), None, NeedDeserialize, Some(key))
  }

  /** The tree after the records under the keys `order` have been put into it. */
  function LoadedAll(order: seq<string>, records: Records): Nodes
    requires forall k | k in order :: k in records && Decoded(k).Ok?
  {
    if order == [] then map[[] := NEW_NODE]
    else
      var last := order[|order| - 1];
      Placed(LoadedAll(order[..|order| - 1], records), Decoded(last).value, last, records[last])
  }

  /** What the loaded tree is, whatever the order. */
  ghost predicate LoadOutcome(order: seq<string>, records: Records, nodes: Nodes)
    requires forall k | k in order :: k in records && Decoded(k).Ok?
  {
    && PrefixClosed(nodes)
    && (forall p :: p in nodes <==> p == [] || Above(order, p))
    && (forall k | k in order ::
          Decoded(k).value in nodes &&
          nodes[Decoded(k).value] == Node(Some(records[k]), None, NeedDeserialize, Some(k)))
    && (forall p | p in nodes && !Touched(order, p) :: nodes[p] == NEW_NODE)
  }

  lemma PlacedClosed(nodes: Nodes, q: Path, key: string, record: ChasmNode)
    requires PrefixClosed(nodes)
    ensures PrefixClosed(Placed(nodes, q, key, record))
    ensures forall p :: p in Placed(nodes, q, key, record) <==> p in nodes || p <= q
  {
    var nodes' := Placed(nodes, q, key, record);
    forall p | p <= q
      ensures p in Prefixes(q)
    {
      assert p == q[..|p|];
    }
    forall p, c | Child(p, c) in nodes'
      ensures p in nodes'
    {
      assert p <= Child(p, c);
    }
  }

  lemma PlacedNodes(nodes: Nodes, q: Path, key: string, record: ChasmNode)
    requires q in nodes ==> nodes[q] == NEW_NODE
    ensures q in Placed(nodes, q, key, record) && Placed(nodes, q, key, record)[q] == LoadedNode(key, record)
    ensures forall p | p in Placed(nodes, q, key, record) && p != q ::
              Placed(nodes, q, key, record)[p] == if p in nodes then nodes[p] else NEW_NODE
  {
  }

  lemma LoadStepPositions(order: seq<string>, last: string, records: Records, before: Nodes)
    requires last in records && Decoded(last).Ok?
    requires forall p :: p in before <==> p == [] || Above(order, p)
    requires PrefixClosed(before)
    ensures var after := Placed(before, Decoded(last).value, last, records[last]);
            PrefixClosed(after) && forall p :: p in after <==> p == [] || Above(order + [last], p)
  {
    PlacedClosed(before, Decoded(last).value, last, records[last]);
    forall p
      ensures Above(order + [last], p) <==> Above(order, p) || p <= Decoded(last).value
    {
      AboveOneMore(order, last, p);
    }
  }

  lemma LoadStep(order: seq<string>, last: string, records: Records, before: Nodes)
    requires OneKeyPerPath(records) && last in records && Decoded(last).Ok? && last !in order
    requires forall k | k in order :: k in records && Decoded(k).Ok?
    requires LoadOutcome(order, records, before)
    ensures LoadOutcome(order + [last], records, Placed(before, Decoded(last).value, last, records[last]))
  {
    var q := Decoded(last).value;
    var after := Placed(before, q, last, records[last]);
    LoadStepPositions(order, last, records, before);
    assert !Touched(order, q);
    PlacedNodes(before, q, last, records[last]);
    forall k | k in order + [last]
      ensures Decoded(k).value in after && after[Decoded(k).value] == LoadedNode(k, records[k])
    {
      if k != last {
        assert k in order && Decoded(k).value != q;
        assert Above(order + [last], Decoded(k).value);
      }
    }
    forall p | p in after && !Touched(order + [last], p)
      ensures after[p] == NEW_NODE
    {
      TouchedOneMore(order, last, p);
    }
  }

  /** The loaded tree does not depend on the order in which the map of records is iterated. */
  lemma {:induction false} LoadedOutcome(order: seq<string>, records: Records)
    requires OneKeyPerPath(records) && NoRepeats(order)
    requires forall k | k in order :: k in records && Decoded(k).Ok?
    ensures LoadOutcome(order, records, LoadedAll(order, records))
  {
    if order == [] {
    } else {
      var n := |order| - 1;
      NoRepeatsInit(order);
      LoadedOutcome(order[..n], records);
      LoadStep(order[..n], order[n], records, LoadedAll(order[..n], records));
    }
  }

  /** The tree without what is only in memory. */
  function Unread(nodes: Nodes): Nodes {
    map q | q in nodes && nodes[q].serialized.Some? :: LoadedNode(Key(nodes, q), nodes[q].serialized.value)
  }

  lemma ImageHasOneKeyPerPath(nodes: Nodes, records: Records)
    requires FullImage(nodes, records)
    ensures Decodable(records) && OneKeyPerPath(records)
    ensures forall k | k in records :: KeyOfNode(nodes, k)
  {
  }

  lemma RoundTripPositions(nodes: Nodes, records: Records, order: seq<string>, p: Path)
    requires PrefixClosed(nodes) && FullImage(nodes, records) && Enumerates(order, records.Keys)
    requires p in nodes ==> Decoded(Key(nodes, p)) == Ok(p)
    ensures p in nodes <==> p == [] || Above(order, p)
  {
    if p in nodes {
      assert Key(nodes, p) in order && p <= Decoded(Key(nodes, p)).value;
    }
    if Above(order, p) {
      var k :| k in order && Decoded(k).Ok? && p <= Decoded(k).value;
      assert KeyOfNode(nodes, k);
      PrefixInNodes(nodes, p, Decoded(k).value);
    }
  }

  /** Loading what is persisted for a tree gives that tree again: the same positions, records
      and keys, with no value read. */
  lemma LoadRoundTrip(nodes: Nodes, records: Records, order: seq<string>)
    requires PrefixClosed(nodes) && FullImage(nodes, records) && Enumerates(order, records.Keys)
    requires forall q | q in nodes :: Decoded(Key(nodes, q)) == Ok(q)
    ensures (forall k | k in order :: k in records && Decoded(k).Ok?) && LoadedAll(order, records) == Unread(nodes)
  {
    ImageHasOneKeyPerPath(nodes, records);
    LoadedOutcome(order, records);
    var loaded := LoadedAll(order, records);
    forall p
      ensures p in loaded <==> p in nodes
    {
      RoundTripPositions(nodes, records, order, p);
    }
    forall p | p in nodes
      ensures loaded[p] == Unread(nodes)[p]
    {
      assert Key(nodes, p) in order;
    }
    SameMap(loaded, Unread(nodes));
  }

  lemma UnreadKeys(nodes: Nodes)
    requires forall q | q in nodes :: nodes[q].serialized.Some? && Decoded(Key(nodes, q)) == Ok(q)
    ensures var loaded := Unread(nodes);
            && loaded.Keys == nodes.Keys && (forall q | q in nodes :: Key(loaded, q) == Key(nodes, q))
            && CachedKeysDecode(loaded)
  {
  }

  /** A loaded tree is ready for a transaction. */
  lemma LoadedIsFresh(nodes: Nodes, records: Records)
    requires FullImage(nodes, records) && forall q | q in nodes :: Decoded(Key(nodes, q)) == Ok(q)
    ensures FullImage(Unread(nodes), records) && TxInv(Unread(nodes), {}, records)
  {
    UnreadKeys(nodes);
    forall k | k in records
      ensures KeyOfNode(Unread(nodes), k)
    {
      assert KeyOfNode(nodes, k);
    }
    FreshTransaction(Unread(nodes), records);
  }

  // ----- The code

  /** The record of the root in an empty tree. */
  function EmptyRoot(workflowArchetype: int, next: VersionedTransition): ChasmNode {
    ChasmNode(next, ZERO_VT, 0, Component(workflowArchetype, false, TaskLists([], [])))
  }

  function EmptyTree(workflowArchetype: int, next: VersionedTransition): Nodes {
    map[[] := Node(Some(EmptyRoot(workflowArchetype, next)), None, NeedDeserialize, None)]
  }

  /** NewEmptyTree, with the archetype of a workflow. */
  method NewEmptyTree(workflowArchetype: int, next: VersionedTransition) returns (t: Tree)
    ensures fresh(t) && t.Valid() && t.nodes == EmptyTree(workflowArchetype, next)
    ensures t.updatedNodes == map[] && t.deletedNodes == {} && t.systemUpdatedNodes == map[]
    ensures !t.isActiveStateDirty && !t.needsPointerResolution
    ensures t.nodes.Keys == {[]} && t.nodes[[]].value == None && t.nodes[[]].state == NeedDeserialize &&
            t.nodes[[]].serialized ==
              Some(ChasmNode(next, VT(0, 0), 0, Component(workflowArchetype, false, TaskLists([], []))))
  {
    t := new Tree();
    t.nodes := t.nodes[[] := NEW_NODE.(serialized := Some(EmptyRoot(workflowArchetype, next)))];
    t.SetValueState([], NeedDeserialize);
  }

  /** The tree after loading the records `done`, in the order `order`. */
  ghost predicate LoadState(root: Tree, records: Records, done: set<string>, order: seq<string>)
    reads root
  {
    && root.Valid() && Enumerates(order, done)
    && (forall k | k in order :: k in records && Decoded(k).Ok?)
    && root.nodes == LoadedAll(order, records)
    && forall q | q in root.nodes :: root.nodes[q].value == None
  }

  method LoadOne(root: Tree, records: Records, k: string, path: Path, ghost done: set<string>, ghost order: seq<string>)
    requires LoadState(root, records, done, order) && k in records && k !in done && Decoded(k) == Ok(path)
    modifies root
    ensures LoadState(root, records, done + {k}, order + [k])
  {
    EnumeratesOneMore(order, done, k);
    assert [] + path == path;
    assert (order + [k])[..|order|] == order;
    root.SetSerializedNode([], path, k, records[k]);
  }

  /** The loop of NewTreeFromDB. */
  method LoadRecords(root: Tree, records: Records) returns (r: Result<()>, ghost order: seq<string>)
    requires LoadState(root, records, {}, [])
    modifies root
    ensures r.Ok? <==> Decodable(records)
    ensures r.Ok? ==> LoadState(root, records, records.Keys, order)
  {
    order := [];
    var keys := records.Keys;
    var todo := keys;
    ghost var done: set<string> := {};
    while todo != {}
      invariant todo !! done && todo + done == keys && LoadState(root, records, done, order)
    {
      var k :| k in todo;
      var path := Decode(k);
      if path.Err? {
        return Err(path.error), order;
      }
      LoadOne(root, records, k, path.value, done, order);
      order := order + [k];
      todo, done := todo - {k}, done + {k};
    }
    assert done == keys;
    return Ok(()), order;
  }

  /** The tree that NewTreeFromDB makes of the records, taking them in the given order. */
  ghost predicate LoadedFrom(records: Records, order: seq<string>, workflowArchetype: int, next: VersionedTransition,
                             nodes: Nodes) {
    if records == map[] then nodes == EmptyTree(workflowArchetype, next)
    else Decodable(records) && Enumerates(order, records.Keys) && nodes == LoadedAll(order, records)
  }

  /** NewTreeFromDB, without the search attributes and the memo. */
  method NewTreeFromDB(records: Records, workflowArchetype: int, next: VersionedTransition)
    returns (r: Result<Tree>, ghost order: seq<string>)
    ensures r.Ok? <==> Decodable(records)
    ensures r.Ok? ==> fresh(r.value) && r.value.Valid()
    ensures r.Ok? ==> LoadedFrom(records, order, workflowArchetype, next, r.value.nodes)
  {
    order := [];
    if |records| == 0 {
      assert records == map[];
      var empty := NewEmptyTree(workflowArchetype, next);
      return Ok(empty), [];
    }
    var root := new Tree();
    var loaded;
    loaded, order := LoadRecords(root, records);
    match loaded {
      case Ok(_) => r := Ok(root);
      case Err(e) => r := Err(e);
    }
  }

  // ----- Between two transactions

  lemma UnreadTasks(nodes: Nodes, last: VersionedTransition)
    requires forall q | q in nodes :: nodes[q].serialized.Some?
    requires Quiet(nodes, last)
    ensures CompsOf(Unread(nodes)) == CompsOf(nodes) && Quiet(Unread(nodes), last)
  {
    forall q | q in nodes
      ensures QuietNode(Unread(nodes)[q], last)
    {
      assert QuietNode(nodes[q], last);
    }
  }

  /** A process that loses its memory between two transactions and loads the tree from what is
      persisted, be it nothing, has the same tree, and can go on where the last transaction
      ended. */
  lemma ReloadBetweenTransactions(t: Tree, backend: Backend, records: Records, last: VersionedTransition,
                                  order: seq<string>, workflowArchetype: int, next: VersionedTransition, nodes: Nodes)
    requires AtRest(t, backend, records, last) && LoadedFrom(records, order, workflowArchetype, next, nodes)
    ensures nodes.Keys == t.nodes.Keys && (records != map[] ==> nodes == Unread(t.nodes))
    ensures FullImage(nodes, Image(nodes, records)) && TxInv(nodes, {}, Image(nodes, records)) && Quiet(nodes, last)
    ensures Inv(ClusterOf(nodes, backend.timers, backend.emitted, last))
  {
    forall q | q in t.nodes
      ensures Decoded(Key(t.nodes, q)) == Ok(q) && t.nodes[q].serialized.Some?
    {
      assert Clean(t.nodes[q]) && NodePersisted(t.nodes, t.deletedNodes, Image(t.nodes, records), q);
    }
    if records == map[] {
      assert Unwritten(t.nodes, records);
      EmptyTreeAtRest(workflowArchetype, next, nodes, ClusterOf(t.nodes, backend.timers, backend.emitted, last));
    } else {
      LoadRoundTrip(t.nodes, records, order);
      LoadedIsFresh(t.nodes, records);
      UnreadTasks(t.nodes, last);
    }
  }

  /** Whatever is at rest can be loaded. */
  lemma RestingIsDecodable(t: Tree, backend: Backend, records: Records, last: VersionedTransition)
    requires AtRest(t, backend, records, last)
    ensures Decodable(records)
  {
    forall k | k in records
      ensures Decoded(k).Ok?
    {
      assert KeyOfNode(t.nodes, k);
    }
  }

  lemma EmptyTreeAtRest(workflowArchetype: int, next: VersionedTransition, nodes: Nodes, s: Cluster)
    requires nodes == EmptyTree(workflowArchetype, next) && Inv(s) && CompareVT(ZERO_VT, s.last) <= 0
    ensures FullImage(nodes, Image(nodes, map[])) && TxInv(nodes, {}, Image(nodes, map[])) && Quiet(nodes, s.last)
    ensures Inv(ClusterOf(nodes, s.timers, s.log, s.last)) && Unwritten(nodes, map[])
  {
    assert Key(nodes, []) == "" && Decoded("") == Ok([]);
    var none := s.(comps := map[]);
    InvAfterSync(s, none);
    InvAfterSync(none, ClusterOf(nodes, s.timers, s.log, s.last));
  }
}
