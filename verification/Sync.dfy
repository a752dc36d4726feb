/** Synchronising the tree with the values of its components (chasm/tree.go,
    syncSubComponents): what becomes of each position. */
module Sync {
  import opened Basics
  import opened PathEncoder
  import opened Tasks
  import opened ChasmTree

  // ----- New nodes

  /** initSerializedNode and initSerializedCollectionNode, in the transaction that writes `next`. */
  function InitialRecord(attributes: Attributes, next: VersionedTransition): ChasmNode {
    ChasmNode(next, ZERO_VT, 0, attributes)
  }

  function InitialAttributes(kind: FieldType, detached: bool): Attributes {
    match kind
    case ComponentField => Component(0, detached, TaskLists([], []))
    case DataField => Data
    case PointerField => Pointer([])
    case DeferredPointerField => Pointer([])
  }

  /** The node that syncSubField makes of a field value. */
  function NewChild(kind: FieldType, value: Value, detached: bool, next: VersionedTransition): Node {
    Node(Some(InitialRecord(InitialAttributes(kind, detached), next)), Some(value),
         if kind == ComponentField then NeedSyncStructure else NeedSerialize, None)
  }

  function NewCollection(next: VersionedTransition): Node {
    Node(Some(InitialRecord(Collection, next)), None, NeedSyncStructure, None)
  }

  // ----- Settled values

  function SettledContent(c: Content): Content {
    match c
    case Fresh(kind, value, _) => if kind == DeferredPointerField && value.Deferred? then AttachedDeferred(value.target)
                                  else Attached
    case _ => c
  }

  function SettledField(f: Field): Field {
    match f
    case SubField(c) => SubField(SettledContent(c))
    case NilMap => f
    case SubMap(items) => SubMap(map k | k in items :: SettledContent(items[k]))
  }

  function SettledValue(v: Value): Value {
    if v.Object? then v.(fields := map f | f in v.fields :: SettledField(v.fields[f])) else v
  }

  predicate Unsynced(n: Node) {
    n.state == NeedSyncStructure && n.value.Some? && n.value.value.Object?
  }

  function Settled(n: Node): Node {
    if Unsynced(n) then n.(value := Some(SettledValue(n.value.value)), state := NeedSerialize) else n
  }

  function Lowered(n: Node): Node {
    if n.state.Rank() > NeedSerialize.Rank() then n.(state := NeedSerialize) else n
  }

  // ----- The result, position by position

  function Same(nodes: Nodes, q: Path): Option<Node> {
    if q in nodes then Some(nodes[q]) else None
  }

  /** The node at `q` after syncing the subtree at `p`, if there is one then. */
  function SyncedNode(nodes: Nodes, p: Path, q: Path, next: VersionedTransition): Option<Node>
    requires p in nodes && p <= q
    decreases |q| - |p|, 2
  {
    if q == p then Some(Settled(nodes[p]))
    else if Unsynced(nodes[p]) then FieldNode(nodes, nodes[p].value.value.fields, p, q, next)
    else if Child(p, q[|p|]) in nodes then SyncedNode(nodes, Child(p, q[|p|]), q, next)
    else None
  }

  /** The node at `q`, below a component at `p` with the given fields. */
  function FieldNode(nodes: Nodes, fields: map<string, Field>, p: Path, q: Path,
                     next: VersionedTransition): Option<Node>
    requires p <= q && p != q
    decreases |q| - |p|, 1
  {
    if q[|p|] in fields then FieldAt(nodes, fields[q[|p|]], Child(p, q[|p|]), q, next) else None
  }

  /** The node at `q`, at or below the child that a field has at `child`. */
  function FieldAt(nodes: Nodes, field: Field, child: Path, q: Path, next: VersionedTransition): Option<Node>
    requires child <= q
    decreases |q| - |child|, 5
  {
    match field
    case SubField(content) => ContentNode(nodes, content, child, q, next)
    case NilMap => None
    case SubMap(items) => ItemNode(nodes, items, child, q, next)
  }

  /** The field has a child after sync. */
  predicate KeptField(field: Field) {
    match field
    case SubField(content) => !content.Empty?
    case NilMap => false
    case SubMap(items) => items != map[]
  }

  /** The node at `q`, at or below a collection at `p` with the given items. */
  function ItemNode(nodes: Nodes, items: map<string, Content>, p: Path, q: Path,
                    next: VersionedTransition): Option<Node>
    requires p <= q
    decreases |q| - |p|, 4
  {
    if items == map[] then None
    else if q == p then Some(Lowered(if p in nodes then nodes[p] else NewCollection(next)))
    else if q[|p|] in items then ContentNode(nodes, items[q[|p|]], Child(p, q[|p|]), q, next)
    else None
  }

  /** The node at `q`, at or below the child that a field or an item with this content has
      at `child`. */
  function ContentNode(nodes: Nodes, content: Content, child: Path, q: Path, next: VersionedTransition): Option<Node>
    requires child <= q
    decreases |q| - |child|, 3
  {
    match content
    case Empty => None
    case Fresh(kind, value, detached) =>
      if q == child then Some(Settled(NewChild(kind, value, detached, next)))
      else if kind == ComponentField && value.Object? then FieldNode(nodes, value.fields, child, q, next)
      else None
    case Attached =>
      if child in nodes && nodes[child].IsComponent() && nodes[child].value.Some? then SyncedNode(nodes, child, q, next)
      else Same(nodes, q)
    case AttachedDeferred(_) => Same(nodes, q)
  }

  // ----- What is assumed of the values

  /** A value that has no node yet: nothing in it has one either, and values match the kinds
      of their fields. */
  predicate FreshValue(kind: FieldType, v: Value)
    decreases v
  {
    match kind
    case ComponentField => v.Object? && forall f | f in v.fields :: FreshField(v.fields[f])
    case DataField => v.Object? && v.fields == map[]
    case PointerField => v.PathValue?
    case DeferredPointerField => v.Deferred?
  }

  predicate FreshField(f: Field)
    decreases f
  {
    match f
    case SubField(c) => FreshContent(c)
    case NilMap => true
    case SubMap(items) => forall k | k in items :: FreshContent(items[k])
  }

  predicate FreshContent(c: Content)
    decreases c
  {
    match c
    case Empty => true
    case Fresh(kind, value, _) => FreshValue(kind, value)
    case _ => false
  }

  /** A value without node is never put where a child still is; an attached one has its node. */
  predicate ContentOk(nodes: Nodes, c: Content, child: Path) {
    match c
    case Empty => true
    case Fresh(kind, value, _) => child !in nodes && FreshValue(kind, value)
    case Attached => child in nodes && !nodes[child].IsMap()
    case AttachedDeferred(_) => child in nodes && nodes[child].IsPointer()
  }

  predicate FieldOk(nodes: Nodes, f: Field, child: Path) {
    match f
    case SubField(c) => ContentOk(nodes, c, child)
    case NilMap => true
    case SubMap(items) =>
      && (child in nodes ==> nodes[child].IsMap() && nodes[child].value == None)
      && forall k | k in items :: ContentOk(nodes, items[k], Child(child, k))
  }

  predicate NodeOk(nodes: Nodes, q: Path)
    requires q in nodes
  {
    nodes[q].state == NeedSyncStructure ==>
      nodes[q].IsComponent() && Unsynced(nodes[q]) &&
        forall f | f in nodes[q].value.value.fields :: FieldOk(nodes, nodes[q].value.value.fields[f], Child(q, f))
  }

  /** No value is attached twice: every object has its one position, `home`. */
  predicate ValueAtHome(v: Value, p: Path, home: map<nat, Path>)
    decreases v
  {
    v.Object? ==>
      && v.id in home && home[v.id] == p
      && forall f | f in v.fields :: FieldAtHome(v.fields[f], Child(p, f), home)
  }

  predicate FieldAtHome(f: Field, child: Path, home: map<nat, Path>)
    decreases f
  {
    match f
    case SubField(c) => ContentAtHome(c, child, home)
    case NilMap => true
    case SubMap(items) => forall k | k in items :: ContentAtHome(items[k], Child(child, k), home)
  }

  predicate ContentAtHome(c: Content, child: Path, home: map<nat, Path>)
    decreases c
  {
    c.Fresh? ==> ValueAtHome(c.value, child, home)
  }

  predicate AllAtHome(nodes: Nodes, home: map<nat, Path>) {
    forall q | q in nodes && nodes[q].value.Some? :: ValueAtHome(nodes[q].value.value, q, home)
  }

  // ----- Properties of the result

  /** `after` is `before` as far as sync is concerned: at most its fields have been settled. */
  predicate SettledFrom(before: Node, after: Node) {
    after == before || after == Settled(before)
  }

  /** A node that sync has created in the transaction that writes `next`: not yet written, to be
      serialized. */
  predicate NewlyMade(n: Node, next: VersionedTransition) {
    && n.serialized.Some? && n.state == NeedSerialize && n.encodedPath == None
    && n.serialized.value.initial == next && n.serialized.value.lastUpdate == ZERO_VT && n.serialized.value.data == 0
    && match n.serialized.value.attributes
       case Component(typeId, _, tasks) => typeId == 0 && tasks == TaskLists([], [])
       case Pointer(target) => target == []
       case _ => true
  }

  /** Every position of the result holds the node that was there, or a new one where there
      was none. */
  lemma {:induction false} SyncedNodeOrigin(nodes: Nodes, p: Path, q: Path, next: VersionedTransition)
    requires PrefixClosed(nodes) && p in nodes && p <= q
    requires forall r | r in nodes && p <= r :: NodeOk(nodes, r)
    ensures var n := SyncedNode(nodes, p, q, next);
            n.Some? ==> if q in nodes then SettledFrom(nodes[q], n.value) else NewlyMade(n.value, next)
    decreases |q| - |p|, 2
  {
    if q == p {
    } else if Unsynced(nodes[p]) {
      assert NodeOk(nodes, p);
      FieldNodeOrigin(nodes, nodes[p].value.value.fields, p, q, next);
    } else if Child(p, q[|p|]) in nodes {
      SyncedNodeOrigin(nodes, Child(p, q[|p|]), q, next);
    }
  }

  lemma {:induction false} FieldNodeOrigin(nodes: Nodes, fields: map<string, Field>, p: Path, q: Path,
                                           next: VersionedTransition)
    requires PrefixClosed(nodes) && p <= q && p != q
    requires forall r | r in nodes && p <= r :: NodeOk(nodes, r)
    requires forall f | f in fields :: FieldOk(nodes, fields[f], Child(p, f))
    ensures var n := FieldNode(nodes, fields, p, q, next);
            n.Some? ==> if q in nodes then SettledFrom(nodes[q], n.value) else NewlyMade(n.value, next)
    decreases |q| - |p|, 1
  {
    var child := Child(p, q[|p|]);
    if q[|p|] in fields {
      match fields[q[|p|]]
      case SubField(content) => ContentNodeOrigin(nodes, content, child, q, next);
      case NilMap =>
      case SubMap(items) =>
        assert FieldOk(nodes, fields[q[|p|]], child);
        assert FieldNode(nodes, fields, p, q, next) == ItemNode(nodes, items, child, q, next);
        if q != child && q[|child|] in items {
          ContentNodeOrigin(nodes, items[q[|child|]], Child(child, q[|child|]), q, next);
        }
    }
  }

  lemma {:induction false} ContentNodeOrigin(nodes: Nodes, content: Content, child: Path, q: Path,
                                             next: VersionedTransition)
    requires PrefixClosed(nodes) && child <= q
    requires forall r | r in nodes && child <= r :: NodeOk(nodes, r)
    requires ContentOk(nodes, content, child)
    ensures var n := ContentNode(nodes, content, child, q, next);
            n.Some? ==> if q in nodes then SettledFrom(nodes[q], n.value) else NewlyMade(n.value, next)
    decreases |q| - |child|, 3
  {
    match content
    case Empty =>
    case Fresh(kind, value, detached) =>
      if q in nodes {
        PrefixInNodes(nodes, child, q);
      } else if q != child && kind == ComponentField && value.Object? {
        NothingThere(nodes, child);
        FreshFieldsOk(nodes, value, child);
        FieldNodeOrigin(nodes, value.fields, child, q, next);
      }
    case Attached =>
      if nodes[child].IsComponent() && nodes[child].value.Some? {
        SyncedNodeOrigin(nodes, child, q, next);
      }
    case AttachedDeferred(_) =>
  }

  ghost predicate NothingBelow(nodes: Nodes, p: Path) {
    forall r | r in nodes && p <= r :: r == p
  }

  lemma NothingThere(nodes: Nodes, p: Path)
    requires PrefixClosed(nodes) && p !in nodes
    ensures forall r | r in nodes :: !(p <= r)
    ensures NothingBelow(nodes, p)
  {
    forall r | r in nodes
      ensures !(p <= r)
    {
      if p <= r {
        PrefixInNodes(nodes, p, r);
      }
    }
  }

  /** Where there are no nodes, a fresh value satisfies what sync assumes of fields. */
  lemma FreshFieldsOk(nodes: Nodes, v: Value, p: Path)
    requires NothingBelow(nodes, p) && FreshValue(ComponentField, v)
    ensures forall f | f in v.fields :: FieldOk(nodes, v.fields[f], Child(p, f))
  {
    forall f | f in v.fields
      ensures FieldOk(nodes, v.fields[f], Child(p, f))
    {
      assert FreshField(v.fields[f]);
      assert p <= Child(p, f);
      match v.fields[f]
      case SubField(c) =>
      case NilMap =>
      case SubMap(items) =>
        forall k | k in items
          ensures ContentOk(nodes, items[k], Child(Child(p, f), k))
        {
          assert FreshContent(items[k]);
          assert p <= Child(Child(p, f), k);
        }
    }
  }

  /** What becomes of the positions below a fresh value depends on the value alone. */
  lemma {:induction false} FreshFieldNode(nodes1: Nodes, nodes2: Nodes, fields: map<string, Field>, p: Path, q: Path,
                                          next: VersionedTransition)
    requires p <= q && p != q && NothingBelow(nodes1, p) && NothingBelow(nodes2, p)
    requires forall f | f in fields :: FreshField(fields[f])
    ensures FieldNode(nodes1, fields, p, q, next) == FieldNode(nodes2, fields, p, q, next)
    decreases |q| - |p|, 0
  {
    var child := Child(p, q[|p|]);
    if q[|p|] in fields {
      assert FreshField(fields[q[|p|]]);
      assert p <= child && child !in nodes1 && child !in nodes2;
      match fields[q[|p|]]
      case SubField(content) => FreshContentNode(nodes1, nodes2, content, child, q, next);
      case NilMap =>
      case SubMap(items) =>
        assert FieldNode(nodes1, fields, p, q, next) == ItemNode(nodes1, items, child, q, next);
        assert FieldNode(nodes2, fields, p, q, next) == ItemNode(nodes2, items, child, q, next);
        if q != child && q[|child|] in items {
          assert FreshContent(items[q[|child|]]);
          FreshContentNode(nodes1, nodes2, items[q[|child|]], Child(child, q[|child|]), q, next);
        }
    }
  }

  lemma {:induction false} FreshContentNode(nodes1: Nodes, nodes2: Nodes, c: Content, child: Path, q: Path,
                                            next: VersionedTransition)
    requires child <= q && NothingBelow(nodes1, child) && NothingBelow(nodes2, child) && FreshContent(c)
    ensures ContentNode(nodes1, c, child, q, next) == ContentNode(nodes2, c, child, q, next)
    decreases |q| - |child|, 1
  {
    if c.Fresh? && q != child && c.kind == ComponentField && c.value.Object? {
      FreshFieldNode(nodes1, nodes2, c.value.fields, child, q, next);
    }
  }

  // ----- The result depends only on the subtree

  ghost predicate Agree(nodes1: Nodes, nodes2: Nodes, p: Path) {
    forall q | p <= q :: Same(nodes1, q) == Same(nodes2, q)
  }

  lemma AgreeBelow(nodes1: Nodes, nodes2: Nodes, p: Path, child: Path)
    requires Agree(nodes1, nodes2, p) && p <= child
    ensures Agree(nodes1, nodes2, child)
    ensures child in nodes1 <==> child in nodes2
    ensures child in nodes1 ==> nodes1[child] == nodes2[child]
  {
    assert Same(nodes1, child) == Same(nodes2, child);
    forall q | child <= q
      ensures Same(nodes1, q) == Same(nodes2, q)
    {
      assert p <= q;
    }
  }

  lemma {:induction false} SyncedNodeLocal(nodes1: Nodes, nodes2: Nodes, p: Path, q: Path, next: VersionedTransition)
    requires Agree(nodes1, nodes2, p) && p in nodes1 && p in nodes2 && p <= q
    ensures SyncedNode(nodes1, p, q, next) == SyncedNode(nodes2, p, q, next)
    decreases |q| - |p|, 2
  {
    AgreeBelow(nodes1, nodes2, p, p);
    if q != p {
      var child := Child(p, q[|p|]);
      AgreeBelow(nodes1, nodes2, p, child);
      if Unsynced(nodes1[p]) {
        FieldNodeLocal(nodes1, nodes2, nodes1[p].value.value.fields, p, q, next);
      } else if child in nodes1 {
        SyncedNodeLocal(nodes1, nodes2, child, q, next);
      }
    }
  }

  lemma {:induction false} FieldNodeLocal(nodes1: Nodes, nodes2: Nodes, fields: map<string, Field>, p: Path, q: Path,
                                          next: VersionedTransition)
    requires p <= q && p != q && Agree(nodes1, nodes2, Child(p, q[|p|]))
    ensures FieldNode(nodes1, fields, p, q, next) == FieldNode(nodes2, fields, p, q, next)
    decreases |q| - |p|, 1
  {
    var child := Child(p, q[|p|]);
    if q[|p|] in fields {
      match fields[q[|p|]]
      case SubField(content) => ContentNodeLocal(nodes1, nodes2, content, child, q, next);
      case NilMap =>
      case SubMap(items) => ItemNodeLocal(nodes1, nodes2, items, child, q, next);
    }
  }

  lemma {:induction false} ItemNodeLocal(nodes1: Nodes, nodes2: Nodes, items: map<string, Content>, p: Path, q: Path,
                                         next: VersionedTransition)
    requires p <= q && Agree(nodes1, nodes2, p)
    ensures ItemNode(nodes1, items, p, q, next) == ItemNode(nodes2, items, p, q, next)
    decreases |q| - |p|, 4
  {
    AgreeBelow(nodes1, nodes2, p, p);
    if q != p && q[|p|] in items {
      AgreeBelow(nodes1, nodes2, p, Child(p, q[|p|]));
      ContentNodeLocal(nodes1, nodes2, items[q[|p|]], Child(p, q[|p|]), q, next);
    }
  }

  lemma {:induction false} ContentNodeLocal(nodes1: Nodes, nodes2: Nodes, content: Content, child: Path, q: Path,
                                            next: VersionedTransition)
    requires child <= q && Agree(nodes1, nodes2, child)
    ensures ContentNode(nodes1, content, child, q, next) == ContentNode(nodes2, content, child, q, next)
    decreases |q| - |child|, 3
  {
    AgreeBelow(nodes1, nodes2, child, child);
    AgreeBelow(nodes1, nodes2, child, q);
    match content
    case Empty =>
    case Fresh(kind, value, _) =>
      if q != child && kind == ComponentField && value.Object? {
        AgreeBelow(nodes1, nodes2, child, Child(child, q[|child|]));
        FieldNodeLocal(nodes1, nodes2, value.fields, child, q, next);
      }
    case Attached =>
      if child in nodes1 && nodes1[child].IsComponent() && nodes1[child].value.Some? {
        SyncedNodeLocal(nodes1, nodes2, child, q, next);
      }
    case AttachedDeferred(_) =>
  }
}
