/** Closing a transaction (chasm/tree.go): serializing what has changed, and the mutation that
    is persisted. */
module Transaction {
  import opened Basics
  import opened PathEncoder
  import opened Tasks
  import opened ChasmTree

  // ----- andAllChildren

  /** The positions of the tree at and below `p`, parents first. */
  method PreOrder(t: Tree, p: Path, ghost h: nat) returns (order: seq<Path>)
    requires t.Valid() && p in t.nodes
    requires forall q | q in t.nodes && p <= q :: |q| <= |p| + h
    ensures Enumerates(order, Below(t.nodes, p))
    decreases h
  {
    order := [p];
    var todo := Children(t.nodes, p);
    ghost var names, done: set<string> := todo, {};
    assert BelowChildren(t.nodes, p, {}) == {};
    while todo != {}
      invariant todo !! done && todo + done == names
      invariant Enumerates(order, {p} + BelowChildren(t.nodes, p, done))
    {
      var c :| c in todo;
      ChildrenAt(t.nodes, p, c);
      BelowOneMore(t.nodes, p, done, c);
      UnderOneMore(p, done, c);
      var below := PreOrder(t, Child(p, c), h - 1);
      EnumeratesUnion(order, {p} + BelowChildren(t.nodes, p, done), below, Below(t.nodes, Child(p, c)));
      order := order + below;
      todo, done := todo - {c}, done + {c};
      assert ({p} + BelowChildren(t.nodes, p, done - {c})) + Below(t.nodes, Child(p, c)) ==
             {p} + BelowChildren(t.nodes, p, done);
    }
    assert done == names;
    BelowSplits(t.nodes, p);
  }

  lemma EnumeratesUnion<T>(a: seq<T>, s: set<T>, b: seq<T>, r: set<T>)
    requires Enumerates(a, s) && Enumerates(b, r) && s !! r
    ensures Enumerates(a + b, s + r)
  {
    forall i, j | 0 <= i < j < |a + b|
      ensures (a + b)[i] != (a + b)[j]
    {
      if i < |a| <= j {
        assert a[i] in s && b[j - |a|] in r;
      }
    }
  }

  // ----- serialize

  /** What the registry and the serializer give for the value of a node. */
  datatype Codec = Codec(typeOf: Path -> int, encode: Path -> Blob)

  predicate Dirty(n: Node) {
    n.state.Rank() >= NeedSerialize.Rank()
  }

  /** The node has a value that serialize accepts. */
  predicate Serializable(n: Node) {
    && n.state == NeedSerialize && n.serialized.Some?
    && (n.serialized.value.attributes.Pointer? ==> n.value.Some? && n.value.value.PathValue?)
  }

  function Rewritten(n: Node, q: Path, next: VersionedTransition, codec: Codec): ChasmNode
    requires Serializable(n)
  {
    var r := n.serialized.value.(lastUpdate := next);
    match r.attributes
    case Component(_, detached, tasks) =>
      r.(data := codec.encode(q), attributes := Component(codec.typeOf(q), detached, tasks))
    case Data => r.(data := codec.encode(q))
    case Collection => r
    case Pointer(_) => r.(attributes := Pointer(n.value.value.path))
  }

  function RewrittenNode(n: Node, q: Path, next: VersionedTransition, codec: Codec): Node
    requires Serializable(n)
  {
    n.(serialized := Some(Rewritten(n, q, next, codec)), state := Synced)
  }

  /** The node after closeTransactionSerializeNodes. */
  function Serialized(nodes: Nodes, q: Path, next: VersionedTransition, codec: Codec): Node
    requires q in nodes
  {
    var n := nodes[q];
    if Serializable(n) then
      RewrittenNode(n, q, next, codec).(encodedPath := Some(Key(nodes, q)))
    else n
  }

  /** The keys of the dirty nodes among `paths`. */
  function DirtyKeys(nodes: Nodes, paths: set<Path>): set<string> {
    set q | q in paths && q in nodes && Dirty(nodes[q]) :: Key(nodes, q)
  }

  /** How far closeTransactionSerializeNodes has got after visiting `done`. */
  ghost predicate SerializedSoFar(start: Nodes, done: set<Path>, next: VersionedTransition, codec: Codec,
                                  nodes: Nodes) {
    && nodes.Keys == start.Keys
    && (forall q | q in done && q in start && Dirty(start[q]) ::
          Serializable(start[q]) && Decoded(Key(start, q)) == Ok(q))
    && (forall q | q in start :: nodes[q] == if q in done then Serialized(start, q, next, codec) else start[q])
  }

  lemma SerializingKeepsKeys(start: Nodes, done: set<Path>, next: VersionedTransition, codec: Codec, nodes: Nodes)
    requires SerializedSoFar(start, done, next, codec, nodes)
    ensures forall q | q in start :: Key(nodes, q) == Key(start, q)
    ensures PrefixClosed(start) ==> PrefixClosed(nodes)
    ensures forall v | Index(start, v) :: Index(nodes, v)
  {
    forall q | q in start
      ensures nodes[q].IsMap() == start[q].IsMap() && nodes[q].IndexedId() == start[q].IndexedId()
      ensures nodes[q].encodedPath == start[q].encodedPath || nodes[q].encodedPath == Some(Key(start, q))
    {
    }
  }

  /** A dirty node is written and entered into the mutation. */
  method SerializeAndEnter(t: Tree, q: Path, next: VersionedTransition, codec: Codec) returns (ok: bool)
    requires t.Valid() && q in t.nodes && t.nodes[q].state == NeedSerialize
    modifies t`nodes, t`updatedNodes, t`deletedNodes
    ensures ok <==> Serializable(old(t.nodes)[q]) && Encodable(old(t.nodes), q)
    ensures ok ==> t.Valid() && t.nodes == old(t.nodes)[q := Serialized(old(t.nodes), q, next, codec)]
    ensures ok ==> t.updatedNodes == old(t.updatedNodes)[Key(old(t.nodes), q) := q]
    ensures ok ==> t.deletedNodes == old(t.deletedNodes) - {Key(old(t.nodes), q)}
  {
    ok := Serialize(t, q, next, codec);
    if !ok {
      return;
    }
    var r := t.GetEncodedPath(q);
    ok := r.Ok?;
    if ok {
      t.updatedNodes := t.updatedNodes[r.value := q];
      t.deletedNodes := t.deletedNodes - {r.value};
    }
  }

  lemma SerializedOneMore(start: Nodes, done: set<Path>, q: Path, next: VersionedTransition, codec: Codec,
                          before: Nodes, after: Nodes)
    requires SerializedSoFar(start, done, next, codec, before) && q in start && q !in done
    requires Dirty(start[q]) ==> Serializable(start[q]) && Decoded(Key(start, q)) == Ok(q)
    requires after == before[q := Serialized(start, q, next, codec)]
    ensures SerializedSoFar(start, done + {q}, next, codec, after)
  {
  }

  method SerializeNode(t: Tree, q: Path, next: VersionedTransition, codec: Codec, ghost start: Nodes,
                       ghost done: set<Path>)
    returns (ok: bool)
    requires t.Valid() && q in t.nodes && q !in done && SerializedSoFar(start, done, next, codec, t.nodes) &&
             CachedKeysDecode(start)
    modifies t`nodes, t`updatedNodes, t`deletedNodes
    ensures ok ==> t.Valid() && SerializedSoFar(start, done + {q}, next, codec, t.nodes)
    ensures ok ==> t.updatedNodes == if Dirty(start[q]) then old(t.updatedNodes)[Key(start, q) := q]
                                     else old(t.updatedNodes)
    ensures ok ==> t.deletedNodes == if Dirty(start[q]) then old(t.deletedNodes) - {Key(start, q)}
                                     else old(t.deletedNodes)
    ensures ok <==> (Dirty(start[q]) ==> Serializable(start[q]) && Encodable(start, q))
  {
    var n := t.nodes[q];
    ghost var before := t.nodes;
    SerializingKeepsKeys(start, done, next, codec, t.nodes);
    if n.state.Rank() > NeedSerialize.Rank() {
      return false;
    }
    if n.state.Rank() < NeedSerialize.Rank() {
      assert t.nodes == before[q := Serialized(start, q, next, codec)];
      SerializedOneMore(start, done, q, next, codec, before, t.nodes);
      return true;
    }
    ok := SerializeAndEnter(t, q, next, codec);
    if ok {
      KeyDecodes(start, q);
      SerializedOneMore(start, done, q, next, codec, before, t.nodes);
    }
  }

  /** The record that a node has when its value has been written: the version of the transaction,
      its old initial version, and by its kind the encoded value, the type and the old detached
      flag of a component, or the path that is the value of a pointer. */
  predicate WrittenAs(n: Node, q: Path, next: VersionedTransition, codec: Codec, r: ChasmNode)
    requires n.serialized.Some?
  {
    var before := n.serialized.value;
    && r.lastUpdate == next && r.initial == before.initial
    && match before.attributes
       case Component(_, detached, _) =>
         && r.attributes.Component? && r.attributes.typeId == codec.typeOf(q) && r.attributes.detached == detached
         && r.data == codec.encode(q)
       case Data => r.attributes == Data && r.data == codec.encode(q)
       case Collection => r.attributes == Collection && r.data == before.data
       case Pointer(_) =>
         n.value.Some? && n.value.value.PathValue? && r.attributes == Pointer(n.value.value.path) &&
           r.data == before.data
  }

  /** The node has been written, and but for its record and state it is as it was; a component
      keeps its tasks. */
  predicate WrittenNode(before: Node, after: Node, q: Path, next: VersionedTransition, codec: Codec)
    requires before.serialized.Some?
  {
    && after.serialized.Some? && WrittenAs(before, q, next, codec, after.serialized.value)
    && after.state == Synced && after.value == before.value
    && (before.IsComponent() ==> after.serialized.value.attributes.tasks == before.serialized.value.attributes.tasks)
  }

  /** serialize, on a node that is to be serialized. */
  method Serialize(t: Tree, q: Path, next: VersionedTransition, codec: Codec) returns (ok: bool)
    requires t.Valid() && q in t.nodes && t.nodes[q].state == NeedSerialize
    modifies t`nodes
    ensures t.Valid() && ok == Serializable(old(t.nodes)[q])
    ensures var n := old(t.nodes)[q];
            ok <==> n.serialized.Some? && (n.IsPointer() ==> n.value.Some? && n.value.value.PathValue?)
    ensures t.nodes == if ok then old(t.nodes)[q := RewrittenNode(old(t.nodes)[q], q, next, codec)] else old(t.nodes)
    ensures ok ==> WrittenNode(old(t.nodes)[q], t.nodes[q], q, next, codec)
    ensures ok ==> Key(t.nodes, q) == Key(old(t.nodes), q) && Encodable(t.nodes, q) == Encodable(old(t.nodes), q)
  {
    ok := Serializable(t.nodes[q]);
    if ok {
      var before := t.nodes;
      t.nodes := t.nodes[q := RewrittenNode(t.nodes[q], q, next, codec)];
      assert t.nodes.Keys == before.Keys;
      assert forall r | r in t.nodes :: t.nodes[r].IndexedId() == before[r].IndexedId();
    }
  }

  /** Every dirty node can be written. */
  ghost predicate AllSerializable(nodes: Nodes) {
    forall q | q in nodes && Dirty(nodes[q]) :: Serializable(nodes[q]) && Encodable(nodes, q)
  }

  /** The entries of the mutation for the dirty nodes. */
  ghost predicate DirtyEntries(start: Nodes, done: set<Path>, before: map<string, Path>, after: map<string, Path>) {
    && (forall k | k in before && k !in DirtyKeys(start, done) :: k in after && after[k] == before[k])
    && (forall k | k in after :: k in before || k in DirtyKeys(start, done))
    && (forall q | q in done && q in start && Dirty(start[q]) :: Key(start, q) in after && after[Key(start, q)] == q)
  }

  lemma DirtyKeysOneMore(start: Nodes, done: set<Path>, q: Path)
    requires q in start
    ensures DirtyKeys(start, done + {q}) == DirtyKeys(start, done) + if Dirty(start[q]) then {Key(start, q)} else {}
  {
  }

  lemma DirtyEntriesOneMore(start: Nodes, done: set<Path>, q: Path, before: map<string, Path>, mid: map<string, Path>)
    requires q in start && q !in done && DirtyEntries(start, done, before, mid)
    requires forall r | r in done + {q} && r in start && Dirty(start[r]) :: Decoded(Key(start, r)) == Ok(r)
    ensures DirtyEntries(start, done + {q}, before, if Dirty(start[q]) then mid[Key(start, q) := q] else mid)
  {
    DirtyKeysOneMore(start, done, q);
    var after := if Dirty(start[q]) then mid[Key(start, q) := q] else mid;
    forall r | r in done + {q} && r in start && Dirty(start[r])
      ensures Key(start, r) in after && after[Key(start, r)] == r
    {
      if r != q && Dirty(start[q]) {
        assert Key(start, r) != Key(start, q);
      }
    }
  }

  /** The whole state of closeTransactionSerializeNodes after visiting `done`. */
  ghost predicate SerializeProgress(start: Nodes, entries: map<string, Path>, deleted: set<string>, done: set<Path>,
                                    next: VersionedTransition, codec: Codec,
                                    nodes: Nodes, entries': map<string, Path>, deleted': set<string>)
  {
    && SerializedSoFar(start, done, next, codec, nodes)
    && (forall q | q in done && q in start && Dirty(start[q]) :: Encodable(start, q))
    && DirtyEntries(start, done, entries, entries')
    && deleted' == deleted - DirtyKeys(start, done)
  }

  method SerializeOneMore(t: Tree, q: Path, next: VersionedTransition, codec: Codec, ghost start: Nodes,
                          ghost entries: map<string, Path>, ghost deleted: set<string>, ghost done: set<Path>)
    returns (ok: bool)
    requires t.Valid() && q in start && q !in done && CachedKeysDecode(start)
    requires SerializeProgress(start, entries, deleted, done, next, codec, t.nodes, t.updatedNodes, t.deletedNodes)
    modifies t`nodes, t`updatedNodes, t`deletedNodes
    ensures ok ==> t.Valid()
    ensures ok ==>
            SerializeProgress(start, entries, deleted, done + {q}, next, codec, t.nodes, t.updatedNodes, t.deletedNodes)
    ensures ok <==> (Dirty(start[q]) ==> Serializable(start[q]) && Encodable(start, q))
  {
    ghost var mid, deleted1 := t.updatedNodes, t.deletedNodes;
    ok := SerializeNode(t, q, next, codec, start, done);
    if ok {
      SerializeProgressStep(start, entries, deleted, done, q, next, codec, t.nodes, mid, deleted1);
    }
  }

  lemma SerializeProgressStep(start: Nodes, entries: map<string, Path>, deleted: set<string>, done: set<Path>, q: Path,
                              next: VersionedTransition, codec: Codec, nodes: Nodes, mid: map<string, Path>,
                              deleted1: set<string>)
    requires q in start && q !in done && SerializedSoFar(start, done + {q}, next, codec, nodes)
    requires forall r | r in done + {q} && r in start && Dirty(start[r]) :: Encodable(start, r)
    requires DirtyEntries(start, done, entries, mid) && deleted1 == deleted - DirtyKeys(start, done)
    ensures SerializeProgress(start, entries, deleted, done + {q}, next, codec, nodes,
                              if Dirty(start[q]) then mid[Key(start, q) := q] else mid,
                              if Dirty(start[q]) then deleted1 - {Key(start, q)} else deleted1)
  {
    DirtyEntriesOneMore(start, done, q, entries, mid);
    DirtyKeysOneMore(start, done, q);
  }

  ghost function FirstOf(order: seq<Path>, i: nat): set<Path>
    requires i <= |order|
  {
    set j | 0 <= j < i :: order[j]
  }

  lemma FirstOfAll(order: seq<Path>, paths: set<Path>)
    requires Enumerates(order, paths)
    ensures FirstOf(order, 0) == {} && FirstOf(order, |order|) == paths
    ensures forall i: nat | i <= |order| :: FirstOf(order, i) <= paths
  {
  }

  /** The traversal of the whole tree. */
  method WholePreOrder(t: Tree) returns (order: seq<Path>)
    requires t.Valid()
    ensures Enumerates(order, t.nodes.Keys)
  {
    assert Below(t.nodes, []) == t.nodes.Keys;
    order := PreOrder(t, [], LongestPath(t.nodes));
  }

  lemma FirstOneMore(order: seq<Path>, i: nat)
    requires i < |order| && NoRepeats(order)
    ensures FirstOf(order, i + 1) == FirstOf(order, i) + {order[i]} && order[i] !in FirstOf(order, i)
  {
  }

  method SerializeNodes(t: Tree, next: VersionedTransition, codec: Codec) returns (ok: bool)
    requires t.Valid() && CachedKeysDecode(t.nodes)
    modifies t`nodes, t`updatedNodes, t`deletedNodes
    ensures ok <==> AllSerializable(old(t.nodes))
    ensures ok ==> t.Valid() && SerializedSoFar(old(t.nodes), old(t.nodes).Keys, next, codec, t.nodes)
    ensures ok ==> DirtyEntries(old(t.nodes), old(t.nodes).Keys, old(t.updatedNodes), t.updatedNodes)
    ensures ok ==> t.deletedNodes == old(t.deletedNodes) - DirtyKeys(old(t.nodes), old(t.nodes).Keys)
  {
    ghost var start, entries, deleted := t.nodes, t.updatedNodes, t.deletedNodes;
    var order := WholePreOrder(t);
    FirstOfAll(order, start.Keys);
    ok := true;
    for i := 0 to |order|
      invariant t.Valid()
      invariant SerializeProgress(start, entries, deleted, FirstOf(order, i), next, codec, t.nodes, t.updatedNodes,
                                  t.deletedNodes)
    {
      FirstOneMore(order, i);
      ok := SerializeOneMore(t, order[i], next, codec, start, entries, deleted, FirstOf(order, i));
      if !ok {
        return;
      }
    }
  }
}
