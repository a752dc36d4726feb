/** The in-memory tree (chasm/tree.go): its nodes by position, the index from component
    values to nodes, and the mutation that a transaction gathers. */
module ChasmTree {
  import opened Basics
  import opened PathEncoder
  import opened PathKeys
  import opened Tasks

  // ----- Persisted records

  datatype Attributes =
    | Component(typeId: int, detached: bool, tasks: TaskLists)
    | Data
    | Collection
    | Pointer(target: Path)

  datatype ChasmNode = ChasmNode(initial: VersionedTransition, lastUpdate: VersionedTransition, data: Blob,
                                 attributes: Attributes)

  /** Records under their encoded paths, as they are persisted and replicated. */
  type Records = map<string, ChasmNode>

  // ----- In-memory values

  datatype FieldType = ComponentField | DataField | PointerField | DeferredPointerField

  /** A node's value: a component or data object with its identity, the path held by a
      pointer, or the object a deferred pointer still refers to.  Of a component only the
      fields that hold children are modelled. */
  datatype Value =
    | Object(id: nat, fields: map<string, Field>)
    | PathValue(path: Path)
    | Deferred(target: nat)

  datatype Field =
    | SubField(content: Content)
    | NilMap
    | SubMap(items: map<string, Content>)

  /** The content of a field: cleared, a value that has no node yet, or the child node. */
  datatype Content =
    | Empty
    | Fresh(kind: FieldType, value: Value, detached: bool)
    | Attached
    | AttachedDeferred(target: nat)

  datatype ValueState = Undefined | NeedDeserialize | Synced | NeedSerialize | NeedSyncStructure
  {
    function Rank(): nat {
      match this
      case Undefined => 0
      case NeedDeserialize => 1
      case Synced => 2
      case NeedSerialize => 3
      case NeedSyncStructure => 4
    }
  }

  datatype Node = Node(serialized: Option<ChasmNode>, value: Option<Value>, state: ValueState,
                       encodedPath: Option<string>)
  {
    predicate IsComponent() {
      serialized.Some? && serialized.value.attributes.Component?
    }

    predicate IsData() {
      serialized.Some? && serialized.value.attributes.Data?
    }

    predicate IsMap() {
      serialized.Some? && serialized.value.attributes.Collection?
    }

    predicate IsPointer() {
      serialized.Some? && serialized.value.attributes.Pointer?
    }

    /** The identity under which the node's value is indexed, if it is. */
    function IndexedId(): Option<nat> {
      if (IsComponent() || IsData()) && value.Some? && value.value.Object? then Some(value.value.id) else None
    }
  }

  /** newNode, before anything is put into it. */
  const NEW_NODE := Node(None, None, Undefined, None)

  // ----- Positions

  type Nodes = map<Path, Node>

  function Child(p: Path, c: string): Path {
    p + [c]
  }

  function Parent(p: Path): Path
    requires p != []
  {
    p[..|p| - 1]
  }

  ghost predicate PrefixClosed(nodes: Nodes) {
    [] in nodes && forall p, c | Child(p, c) in nodes :: p in nodes
  }

  function Children(nodes: Nodes, p: Path): set<string> {
    set q | q in nodes && |q| == |p| + 1 && p <= q :: q[|p|]
  }

  lemma ChildrenAt(nodes: Nodes, p: Path, c: string)
    ensures c in Children(nodes, p) <==> Child(p, c) in nodes
  {
    if c in Children(nodes, p) {
      var q :| q in nodes && |q| == |p| + 1 && p <= q && q[|p|] == c;
      assert q == Child(p, c);
    }
    assert Child(p, c)[|p|] == c;
  }

  lemma {:induction false} PrefixInNodes(nodes: Nodes, p: Path, q: Path)
    requires PrefixClosed(nodes) && q in nodes && p <= q
    ensures p in nodes
    decreases |q|
  {
    if p == q {
    } else {
      assert q == Child(Parent(q), q[|q| - 1]);
      PrefixInNodes(nodes, p, Parent(q));
    }
  }

  /** The encoded path: cached, or computed from the position and the kind of the parent. */
  function Key(nodes: Nodes, p: Path): string
    requires p in nodes
  {
    if nodes[p].encodedPath.Some? then nodes[p].encodedPath.value
    else Join(p, Separator(p != [] && Parent(p) in nodes && nodes[Parent(p)].IsMap()))
  }

  /** The node has a cached encoded path, or one can be computed. */
  predicate Encodable(nodes: Nodes, p: Path) {
    p in nodes && (nodes[p].encodedPath.Some? || ValidPath(p))
  }

  // ----- The index

  /** The index holds exactly the values of the component and data nodes of the tree. */
  ghost predicate Index(nodes: Nodes, valueToNode: map<nat, Path>) {
    && (forall p | p in nodes && nodes[p].IndexedId().Some? ::
          nodes[p].IndexedId().value in valueToNode && valueToNode[nodes[p].IndexedId().value] == p)
    && (forall id | id in valueToNode :: valueToNode[id] in nodes && nodes[valueToNode[id]].IndexedId() == Some(id))
  }

  // ----- Subtrees

  /** The node at `q` lies strictly below `p`, under one of the children `names`. */
  predicate UnderChild(p: Path, names: set<string>, q: Path) {
    |q| > |p| && p <= q && q[|p|] in names
  }

  function WithoutChildren<T>(nodes: map<Path, T>, p: Path, names: set<string>): map<Path, T> {
    map q | q in nodes && !UnderChild(p, names, q) :: nodes[q]
  }

  /** The tree after `delete` on the node at `p`; the root itself stays, without value. */
  function Deleted(nodes: Nodes, p: Path): Nodes
    requires [] in nodes
  {
    if p == [] then map[[] := nodes[[]].(value := None, encodedPath := Some(Key(nodes, [])))]
    else map q | q in nodes && !(p <= q) :: nodes[q]
  }

  function KeysBelow(nodes: Nodes, p: Path): set<string> {
    set q | q in nodes && p <= q :: Key(nodes, q)
  }

  function Prefixes(q: Path): set<Path> {
    set i | 0 <= i <= |q| :: q[..i]
  }

  /** The tree with a record put at `q`, and empty nodes above it where there were none. */
  function Placed(nodes: Nodes, q: Path, key: string, serialized: ChasmNode): Nodes {
    var n := if q in nodes then nodes[q] else NEW_NODE;
    nodes + (map r | r in Prefixes(q) && r !in nodes :: NEW_NODE) +
      map[q := n.(serialized := Some(serialized), state := NeedDeserialize, encodedPath := Some(key))]
  }

  lemma PrefixesInNodes(nodes: Nodes, q: Path)
    requires PrefixClosed(nodes) && q in nodes
    ensures forall r | r in Prefixes(q) :: r in nodes
    ensures q in Prefixes(q)
  {
    forall r | r in Prefixes(q)
      ensures r in nodes
    {
      PrefixInNodes(nodes, r, q);
    }
    assert q[..|q|] == q;
  }

  /** Placing below `p` may first create the child on the way. */
  lemma PlacedViaChild(nodes: Nodes, p: Path, child: Path, q: Path, key: string, serialized: ChasmNode)
    requires PrefixClosed(nodes) && p in nodes && |child| == |p| + 1 && p <= child && child <= q
    ensures var nodes' := if child in nodes then nodes else nodes[child := NEW_NODE];
            && PrefixClosed(nodes')
            && Placed(nodes', q, key, serialized) == Placed(nodes, q, key, serialized)
            && (forall v | Index(nodes, v) :: Index(nodes', v))
  {
    var nodes' := if child in nodes then nodes else nodes[child := NEW_NODE];
    assert child == q[..|child|];
    forall r, c | Child(r, c) in nodes'
      ensures r in nodes'
    {
      if Child(r, c) == child {
        assert r == child[..|p|] == p;
      }
    }
  }

  function CachedBlobs(tasks: TaskLists): set<Blob> {
    (set t | t in tasks.pure :: t.data) + (set t | t in tasks.side :: t.data)
  }

  /** The node has a task with this payload. */
  ghost predicate HasPayload(n: Node, b: Blob) {
    n.serialized.Some? && n.serialized.value.attributes.Component? &&
    var tasks := n.serialized.value.attributes.tasks;
    (exists t | t in tasks.side :: t.data == b) || (exists t | t in tasks.pure :: t.data == b)
  }

  /** The payloads of the tasks of a node. */
  function BlobsOf(n: Node): set<Blob> {
    if n.IsComponent() then CachedBlobs(n.serialized.value.attributes.tasks) else {}
  }

  ghost function BlobsAt(nodes: Nodes, paths: set<Path>): set<Blob> {
    set q, b | q in paths && q in nodes && b in BlobsOf(nodes[q]) :: b
  }

  lemma BlobsOfTasks(n: Node, b: Blob)
    ensures b in BlobsOf(n) <==> HasPayload(n, b)
  {
  }

  lemma BlobsBelow(nodes: Nodes, p: Path, b: Blob)
    ensures b in BlobsAt(nodes, Below(nodes, p)) <==> exists q :: q in nodes && p <= q && HasPayload(nodes[q], b)
  {
    if b in BlobsAt(nodes, Below(nodes, p)) {
      var q :| q in Below(nodes, p) && q in nodes && b in BlobsOf(nodes[q]);
      BlobsOfTasks(nodes[q], b);
    }
    if q :| q in nodes && p <= q && HasPayload(nodes[q], b) {
      BlobsOfTasks(nodes[q], b);
      assert q in Below(nodes, p);
    }
  }

  /** Placing a record changes the node at `q`, and makes the missing ones above it, empty. */
  lemma PlacedExactly(nodes: Nodes, q: Path, key: string, serialized: ChasmNode)
    ensures var after := Placed(nodes, q, key, serialized);
            && (forall r :: r in after <==> r in nodes || r <= q)
            && q in after && after[q].serialized == Some(serialized) && after[q].state == NeedDeserialize
            && after[q].encodedPath == Some(key) && after[q].value == (if q in nodes then nodes[q].value else None)
            && forall r | r in after && r != q ::
                 after[r] == if r in nodes then nodes[r] else Node(None, None, Undefined, None)
  {
    forall r
      ensures r in Prefixes(q) <==> r <= q
    {
      if r <= q {
        assert r == q[..|r|];
      }
    }
  }

  /** Deleting a node takes it and all below it out of the tree, but for the root, which loses its
      value; the keys are those of these nodes, and so are the payloads. */
  lemma DeletedExactly(nodes: Nodes, p: Path)
    requires PrefixClosed(nodes) && p in nodes
    ensures var after := Deleted(nodes, p);
            && (forall q :: q in after <==> q in nodes && (!(p <= q) || q == []))
            && (forall q | q in after && q != p :: after[q] == nodes[q])
            && (p == [] ==> after[p].serialized == nodes[p].serialized && after[p].value == None)
    ensures forall k :: k in KeysBelow(nodes, p) <==> exists q :: q in nodes && p <= q && Key(nodes, q) == k
    ensures forall b :: b in BlobsAt(nodes, Below(nodes, p)) <==>
              exists q :: q in nodes && p <= q && HasPayload(nodes[q], b)
  {
    forall b {
      BlobsBelow(nodes, p, b);
    }
  }

  lemma BlobsAtUnion(nodes: Nodes, a: set<Path>, b: set<Path>)
    ensures BlobsAt(nodes, a + b) == BlobsAt(nodes, a) + BlobsAt(nodes, b)
  {
  }

  lemma BlobsOneMore(nodes: Nodes, p: Path, done: set<string>, c: string)
    requires PrefixClosed(nodes) && Child(p, c) in nodes && c !in done
    ensures var rest := WithoutChildren(nodes, p, done);
            BlobsAt(nodes, BelowChildren(nodes, p, done + {c})) ==
            BlobsAt(nodes, BelowChildren(nodes, p, done)) + BlobsAt(rest, Below(rest, Child(p, c)))
  {
    var rest := WithoutChildren(nodes, p, done);
    BelowOneMore(nodes, p, done, c);
    BlobsAtUnion(nodes, BelowChildren(nodes, p, done), Below(nodes, Child(p, c)));
    UnderOneMore(p, done, c);
    assert Below(rest, Child(p, c)) == Below(nodes, Child(p, c));
    assert forall q | q in Below(rest, Child(p, c)) :: rest[q] == nodes[q];
  }

  /** A node with the subtrees of its children makes up its subtree. */
  lemma BlobsInSteps(nodes: Nodes, p: Path)
    requires PrefixClosed(nodes) && p in nodes
    ensures BlobsAt(nodes, Below(nodes, p)) == BlobsAt(nodes, BelowChildren(nodes, p, Children(nodes, p))) +
            BlobsOf(nodes[p])
  {
    BelowSplits(nodes, p);
    BlobsAtUnion(nodes, {p}, BelowChildren(nodes, p, Children(nodes, p)));
  }

  class Tree {
    var nodes: Nodes
    var updatedNodes: map<string, Path>
    var deletedNodes: set<string>
    var systemUpdatedNodes: map<string, Path>
    var valueToNode: map<nat, Path>
    var taskValueCache: set<Blob>
    var isActiveStateDirty: bool
    var needsPointerResolution: bool

    ghost predicate Valid()
      reads this
    {
      PrefixClosed(nodes) && Index(nodes, valueToNode)
    }

    /** The index leads from the identity of an object to the component or data node that has it
        as its value, and from no other. */
    lemma IndexIsExact(id: nat, p: Path)
      requires Valid()
      ensures id in valueToNode && valueToNode[id] == p <==>
              p in nodes && nodes[p].serialized.Some? && nodes[p].value.Some? && nodes[p].value.value.Object? &&
              nodes[p].value.value.id == id &&
              (nodes[p].serialized.value.attributes.Component? || nodes[p].serialized.value.attributes.Data?)
    {
      assert p in nodes && nodes[p].IndexedId() == Some(id) ==> id in valueToNode && valueToNode[id] == p;
    }

    /** newTreeHelper. */
    constructor ()
      ensures Valid()
      ensures nodes == map[[] := NEW_NODE] && valueToNode == map[]
      ensures updatedNodes == map[] && deletedNodes == {} && systemUpdatedNodes == map[] && taskValueCache == {}
      ensures !isActiveStateDirty && !needsPointerResolution
    {
      nodes, valueToNode, taskValueCache := map[[] := NEW_NODE], map[], {};
      updatedNodes, deletedNodes, systemUpdatedNodes := map[], {}, map[];
      isActiveStateDirty, needsPointerResolution := false, false;
    }

    // ----- Values and paths

    /** Sets the value of a node and keeps the index in step. */
    method SetValue(p: Path, value: Option<Value>)
      requires Valid() && p in nodes
      requires (nodes[p].IsComponent() || nodes[p].IsData()) && value.Some? && value.value.Object? &&
               value.value.id in valueToNode ==>
        valueToNode[value.value.id] == p
      modifies `nodes, `valueToNode
      ensures Valid()
      ensures nodes == old(nodes)[p := old(nodes)[p].(value := value)]
    {
      var n := nodes[p];
      if n.IsComponent() || n.IsData() {
        if n.value.Some? && n.value.value.Object? {
          valueToNode := valueToNode - {n.value.value.id};
        }
        if value.Some? && value.value.Object? {
          valueToNode := valueToNode[value.value.id := p];
        }
      }
      nodes := nodes[p := n.(value := value)];
      assert PrefixClosed(nodes);
    }

    method SetValueState(p: Path, state: ValueState)
      requires Valid() && p in nodes
      modifies `nodes, `isActiveStateDirty
      ensures Valid()
      ensures nodes == old(nodes)[p := old(nodes)[p].(state := state)]
      ensures isActiveStateDirty == (old(isActiveStateDirty) || state.Rank() >= NeedSerialize.Rank())
      ensures isActiveStateDirty == (old(isActiveStateDirty) || state == NeedSerialize || state == NeedSyncStructure)
    {
      nodes := nodes[p := nodes[p].(state := state)];
      if state.Rank() >= NeedSerialize.Rank() {
        isActiveStateDirty := true;
      }
      assert PrefixClosed(nodes);
    }

    /** The cached key of a node, or the one that the encoder gives it. */
    method ComputeKey(p: Path) returns (r: Result<string>)
      requires Valid() && p in nodes
      ensures r.Ok? ==> r.value == Key(nodes, p)
      ensures r.Ok? <==> Encodable(nodes, p)
      ensures if nodes[p].encodedPath.Some? then r == Ok(nodes[p].encodedPath.value)
              else r == Encoded(p, p != [] && Parent(p) in nodes && nodes[Parent(p)].IsMap())
    {
      if nodes[p].encodedPath.Some? {
        return Ok(nodes[p].encodedPath.value);
      }
      if p != [] {
        assert p == Child(Parent(p), p[|p| - 1]);
      }
      r := Encode(p != [] && nodes[Parent(p)].IsMap(), p);
    }

    method GetEncodedPath(p: Path) returns (r: Result<string>)
      requires Valid() && p in nodes
      modifies `nodes
      ensures Valid()
      ensures r.Ok? ==> r.value == Key(old(nodes), p)
      ensures r.Ok? <==> Encodable(old(nodes), p)
      ensures var n := old(nodes)[p];
              if n.encodedPath.Some? then r == Ok(n.encodedPath.value)
              else r == Encoded(p, p != [] && Parent(p) in old(nodes) && old(nodes)[Parent(p)].IsMap())
      ensures nodes == if r.Ok? then old(nodes)[p := old(nodes)[p].(encodedPath := Some(r.value))] else old(nodes)
    {
      r := ComputeKey(p);
      if r.Ok? {
        nodes := nodes[p := nodes[p].(encodedPath := Some(r.value))];
      }
      assert PrefixClosed(nodes);
    }

    // ----- Finding and placing nodes

    /** findNode, below the node at `p`. */
    method FindNode(p: Path, path: Path) returns (found: bool)
      requires Valid() && p in nodes
      ensures found <==> p + path in nodes
      decreases |path|
    {
      if |path| == 0 {
        assert p + path == p;
        return true;
      }
      var child := Child(p, path[0]);
      assert p + path == child + path[1..];
      if child !in nodes {
        if p + path in nodes {
          PrefixInNodes(nodes, child, p + path);
        }
        return false;
      }
      found := FindNode(child, path[1..]);
    }

    /** setSerializedNode, below the node at `p`: nodes missing on the way are created empty. */
    method SetSerializedNode(p: Path, nodePath: Path, encodedPath: string, serialized: ChasmNode)
      requires Valid() && p in nodes
      requires p + nodePath in nodes ==> nodes[p + nodePath].value == None
      modifies `nodes, `isActiveStateDirty
      ensures Valid()
      ensures nodes == Placed(old(nodes), p + nodePath, encodedPath, serialized)
      ensures isActiveStateDirty == old(isActiveStateDirty)
      decreases |nodePath|
    {
      if |nodePath| == 0 {
        assert p + nodePath == p;
        PrefixesInNodes(nodes, p);
        nodes := nodes[p := nodes[p].(serialized := Some(serialized), encodedPath := Some(encodedPath))];
        SetValueState(p, NeedDeserialize);
        return;
      }
      var child := Child(p, nodePath[0]);
      assert p + nodePath == child + nodePath[1..];
      PlacedViaChild(nodes, p, child, p + nodePath, encodedPath, serialized);
      if child !in nodes {
        nodes := nodes[child := NEW_NODE];
      }
      SetSerializedNode(child, nodePath[1..], encodedPath, serialized);
    }

    // ----- Deletion

    /** delete: removes the node at `p` and everything below it; `h` bounds the height of that. */
    method Delete(p: Path, ghost h: nat) returns (ok: bool)
      requires Valid() && p in nodes
      requires forall q | q in nodes && p <= q :: |q| <= |p| + h
      modifies `nodes, `valueToNode, `deletedNodes, `taskValueCache
      ensures ok ==> Valid()
      ensures ok ==> nodes == Deleted(old(nodes), p)
      ensures ok ==> deletedNodes == old(deletedNodes) + KeysBelow(old(nodes), p)
      ensures ok ==> taskValueCache == old(taskValueCache) - BlobsAt(old(nodes), Below(old(nodes), p))
      ensures ok <==> forall q | q in old(nodes) && p <= q :: Encodable(old(nodes), q)
      decreases h, 1
    {
      var names := Children(nodes, p);
      ok := DeleteAll(p, names, h);
      if !ok {
        return;
      }
      OnlyChildrenBelow(old(nodes), p);
      BlobsInSteps(old(nodes), p);
      DeletedInSteps(old(nodes), p);
      ok := DeleteLeaf(p);
    }

    method CleanupCachedTasks(n: Node)
      modifies `taskValueCache
      ensures taskValueCache == old(taskValueCache) - BlobsOf(n)
      ensures forall b :: b in taskValueCache <==> b in old(taskValueCache) && !HasPayload(n, b)
    {
      forall b {
        BlobsOfTasks(n, b);
      }
      if !n.IsComponent() {
        return;
      }
      var tasks := n.serialized.value.attributes.tasks;
      for i := 0 to |tasks.pure|
        invariant taskValueCache == old(taskValueCache) - set t | t in tasks.pure[..i] :: t.data
      {
        taskValueCache := taskValueCache - {tasks.pure[i].data};
        assert tasks.pure[..i + 1] == tasks.pure[..i] + [tasks.pure[i]];
      }
      assert tasks.pure[..|tasks.pure|] == tasks.pure;
      for i := 0 to |tasks.side|
        invariant taskValueCache ==
                  old(taskValueCache) - (set t | t in tasks.pure :: t.data) - set t | t in tasks.side[..i] :: t.data
      {
        taskValueCache := taskValueCache - {tasks.side[i].data};
        assert tasks.side[..i + 1] == tasks.side[..i] + [tasks.side[i]];
      }
      assert tasks.side[..|tasks.side|] == tasks.side;
    }

    /** The rest of delete, when the node at `p` has no children any more. */
    method DeleteLeaf(p: Path) returns (ok: bool)
      requires Valid() && p in nodes
      requires forall q | q in nodes && p <= q :: q == p
      modifies `nodes, `valueToNode, `deletedNodes, `taskValueCache
      ensures ok ==> Valid()
      ensures ok ==> nodes == Deleted(old(nodes), p)
      ensures ok ==> deletedNodes == old(deletedNodes) + {Key(old(nodes), p)}
      ensures ok ==> taskValueCache == old(taskValueCache) - BlobsOf(old(nodes)[p])
      ensures ok <==> Encodable(old(nodes), p)
    {
      var n := nodes[p];
      var key := ComputeKey(p);
      if key.Err? {
        return false;
      }
      RemovingLeaf(nodes, valueToNode, p);
      nodes := if p == [] then nodes[p := n.(value := None, encodedPath := Some(key.value))] else nodes - {p};
      if n.IndexedId().Some? {
        valueToNode := valueToNode - {n.IndexedId().value};
      }
      deletedNodes := deletedNodes + {key.value};
      CleanupCachedTasks(n);
      ok := true;
    }

    /** Deletes the children `names` of the node at `p`. */
    method DeleteAll(p: Path, names: set<string>, ghost h: nat) returns (ok: bool)
      requires Valid() && p in nodes && names <= Children(nodes, p)
      requires forall q | q in nodes && p <= q :: |q| <= |p| + h
      modifies `nodes, `valueToNode, `deletedNodes, `taskValueCache
      ensures ok ==> Valid()
      ensures ok ==> nodes == WithoutChildren(old(nodes), p, names)
      ensures ok ==> deletedNodes == old(deletedNodes) + KeysUnder(old(nodes), p, names)
      ensures ok ==> taskValueCache == old(taskValueCache) - BlobsAt(old(nodes), BelowChildren(old(nodes), p, names))
      ensures ok <==> EncodableUnder(old(nodes), p, names)
      decreases h, 0
    {
      ok := true;
      ghost var start, deleted, done: set<string> := nodes, deletedNodes, {};
      var todo := names;
      assert WithoutChildren(start, p, {}) == start && KeysUnder(start, p, {}) == {} &&
             BelowChildren(start, p, {}) == {};
      while todo != {}
        invariant todo !! done && todo + done == names && Valid()
        invariant DeletedSome(start, deleted, p, done, nodes, deletedNodes)
        invariant taskValueCache == old(taskValueCache) - BlobsAt(start, BelowChildren(start, p, done))
      {
        var c :| c in todo;
        ChildrenAt(start, p, c);
        DeletingOneMore(start, p, done, c);
        EncodableOneMore(start, p, done, c);
        BlobsOneMore(start, p, done, c);
        ok := Delete(Child(p, c), h - 1);
        if !ok {
          EncodableSubset(start, p, done + {c}, names);
          return;
        }
        todo, done := todo - {c}, done + {c};
      }
      assert done == names;
    }
  }

  /** The state of the loop over the children in delete. */
  ghost predicate DeletedSome(start: Nodes, deleted: set<string>, p: Path, done: set<string>, nodes: Nodes,
                              deleted': set<string>) {
    && nodes == WithoutChildren(start, p, done)
    && deleted' == deleted + KeysUnder(start, p, done)
    && EncodableUnder(start, p, done)
  }

  function KeysUnder(nodes: Nodes, p: Path, names: set<string>): set<string> {
    set q | q in nodes && UnderChild(p, names, q) :: Key(nodes, q)
  }

  lemma RemovingLeaf(nodes: Nodes, valueToNode: map<nat, Path>, p: Path)
    requires PrefixClosed(nodes) && Index(nodes, valueToNode) && p in nodes
    requires forall q | q in nodes && p <= q :: q == p
    ensures PrefixClosed(Deleted(nodes, p))
    ensures Index(Deleted(nodes, p), if nodes[p].IndexedId().Some? then valueToNode - {nodes[p].IndexedId().value}
                  else valueToNode)
    ensures p != [] ==> Deleted(nodes, p) == nodes - {p}
    ensures p == [] ==> Deleted(nodes, p) == nodes[[] := nodes[[]].(value := None, encodedPath := Some(Key(nodes, [])))]
  {
    var rest := Deleted(nodes, p);
    if p == [] {
      assert forall q | q in nodes :: p <= q;
    } else {
      forall q, c | Child(q, c) in rest
        ensures q in rest
      {
        assert p == q ==> p <= Child(q, c);
      }
    }
  }

  lemma DeletingOneMore(nodes: Nodes, p: Path, done: set<string>, c: string)
    requires PrefixClosed(nodes) && Child(p, c) in nodes && c !in done
    ensures var rest := WithoutChildren(nodes, p, done);
            && Child(p, c) in rest
            && [] in rest
            && Deleted(rest, Child(p, c)) == WithoutChildren(nodes, p, done + {c})
            && KeysUnder(nodes, p, done + {c}) == KeysUnder(nodes, p, done) + KeysBelow(rest, Child(p, c))
            && forall q | q in rest && Child(p, c) <= q ::
                 q in nodes && UnderChild(p, {c}, q) && Encodable(rest, q) == Encodable(nodes, q)
  {
    var rest := WithoutChildren(nodes, p, done);
    UnderOneMore(p, done, c);
    KeysOfRest(nodes, p, done, c);
  }

  ghost predicate EncodableUnder(nodes: Nodes, p: Path, names: set<string>) {
    forall q | q in nodes && UnderChild(p, names, q) :: Encodable(nodes, q)
  }

  lemma EncodableOneMore(nodes: Nodes, p: Path, done: set<string>, c: string)
    requires EncodableUnder(nodes, p, done) && c !in done && PrefixClosed(nodes) && Child(p, c) in nodes
    ensures var rest := WithoutChildren(nodes, p, done);
            EncodableUnder(nodes, p, done + {c}) <==> forall q | q in rest && Child(p, c) <= q :: Encodable(rest, q)
  {
    UnderOneMore(p, done, c);
    DeletingOneMore(nodes, p, done, c);
  }

  lemma EncodableSubset(nodes: Nodes, p: Path, some: set<string>, names: set<string>)
    requires some <= names
    ensures EncodableUnder(nodes, p, names) ==> EncodableUnder(nodes, p, some)
  {
  }

  lemma UnderOneMore(p: Path, done: set<string>, c: string)
    ensures forall q :: UnderChild(p, done + {c}, q) <==> UnderChild(p, done, q) || Child(p, c) <= q
    ensures forall q | Child(p, c) <= q :: UnderChild(p, {c}, q) && (c !in done ==> !UnderChild(p, done, q))
  {
    forall q | |q| > |p| && p <= q && q[|p|] == c
      ensures Child(p, c) <= q
    {
    }
  }

  lemma KeysOfRest(nodes: Nodes, p: Path, done: set<string>, c: string)
    requires PrefixClosed(nodes) && c !in done
    ensures KeysBelow(WithoutChildren(nodes, p, done), Child(p, c)) == set q | q in nodes &&
            Child(p, c) <= q :: Key(nodes, q)
  {
    var rest := WithoutChildren(nodes, p, done);
    UnderOneMore(p, done, c);
    forall q | q in nodes && Child(p, c) <= q
      ensures q in rest && Key(rest, q) == Key(nodes, q)
    {
      assert q == Child(Parent(q), q[|q| - 1]);
      assert !UnderChild(p, done, Parent(q));
    }
  }

  lemma OnlyChildrenBelow(nodes: Nodes, p: Path)
    requires PrefixClosed(nodes)
    ensures forall q | q in nodes && p <= q && q != p :: UnderChild(p, Children(nodes, p), q)
  {
    forall q | q in nodes && p <= q && q != p
      ensures UnderChild(p, Children(nodes, p), q)
    {
      assert Child(p, q[|p|]) <= q;
      PrefixInNodes(nodes, Child(p, q[|p|]), q);
      ChildrenAt(nodes, p, q[|p|]);
    }
  }

  lemma DeletedInSteps(nodes: Nodes, p: Path)
    requires PrefixClosed(nodes) && p in nodes
    ensures var rest := WithoutChildren(nodes, p, Children(nodes, p));
            && p in rest
            && Deleted(rest, p) == Deleted(nodes, p)
            && KeysBelow(nodes, p) == KeysUnder(nodes, p, Children(nodes, p)) + {Key(rest, p)}
  {
    OnlyChildrenBelow(nodes, p);
  }

  ghost function Below(nodes: Nodes, p: Path): set<Path> {
    set q | q in nodes && p <= q
  }

  ghost function BelowChildren(nodes: Nodes, p: Path, names: set<string>): set<Path> {
    set q | q in nodes && UnderChild(p, names, q)
  }

  lemma BelowSplits(nodes: Nodes, p: Path)
    requires PrefixClosed(nodes) && p in nodes
    ensures Below(nodes, p) == {p} + BelowChildren(nodes, p, Children(nodes, p))
  {
    OnlyChildrenBelow(nodes, p);
  }

  lemma BelowOneMore(nodes: Nodes, p: Path, done: set<string>, c: string)
    ensures BelowChildren(nodes, p, done + {c}) == BelowChildren(nodes, p, done) + Below(nodes, Child(p, c))
  {
    UnderOneMore(p, done, c);
  }

  /** A bound on the length of the paths. */
  ghost function LongestPath(nodes: Nodes): (h: nat)
    ensures forall q | q in nodes :: |q| <= h
  {
    if nodes == map[] then 0
    else
      var p :| p in nodes;
      var h := LongestPath(nodes - {p});
      assert forall q | q in nodes :: q == p || q in nodes - {p};
      if |p| > h then |p| else h
  }

  // ----- Keys

  ghost predicate CachedKeysDecode(nodes: Nodes) {
    forall q | q in nodes && nodes[q].encodedPath.Some? :: Decoded(nodes[q].encodedPath.value) == Ok(q)
  }

  lemma KeyDecodes(nodes: Nodes, q: Path)
    requires q in nodes && Encodable(nodes, q) && CachedKeysDecode(nodes)
    ensures Decoded(Key(nodes, q)) == Ok(q)
  {
    if nodes[q].encodedPath.None? {
      RoundTrip(q, q != [] && Parent(q) in nodes && nodes[Parent(q)].IsMap());
    }
  }
}
