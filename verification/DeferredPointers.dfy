/** Which deferred pointers resolveDeferredPointers finds (chasm/tree.go): those in the fields of
    components, but not those held as the items of a collection. */
module DeferredPointers {
  import opened Basics
  import opened PathEncoder
  import opened Tasks
  import opened ChasmTree
  import opened Sync
  import opened SyncApply
  import opened SyncFacts
  import opened Transaction
  import opened Persistence
  import opened Pointers
  import opened Execution
  import opened Transitions

  predicate IsDeferred(n: Node) {
    n.value.Some? && n.value.value.Deferred?
  }

  /** The node above a deferred pointer: a collection, or a component whose field says so. */
  predicate SaysDeferred(parent: Node, f: string, target: nat) {
    || parent.IsMap()
    || (HasFields(parent) && f in parent.value.value.fields &&
        parent.value.value.fields[f] == SubField(AttachedDeferred(target)))
  }

  /** The application has cleared or dropped the field, and sync has not come to it yet. */
  predicate Dropped(parent: Node, f: string) {
    && parent.state == NeedSyncStructure && HasFields(parent)
    && (f in parent.value.value.fields ==> parent.value.value.fields[f] == SubField(Empty))
  }

  ghost predicate DeferredAtOk(nodes: Nodes, q: Path)
    requires q in nodes && IsDeferred(nodes[q])
  {
    && q != [] && Parent(q) in nodes && nodes[q].IsPointer() && Dirty(nodes[q])
    && (SaysDeferred(nodes[Parent(q)], q[|q| - 1], nodes[q].value.value.target) ||
        Dropped(nodes[Parent(q)], q[|q| - 1]))
  }

  /** At any time in a transaction: deferred pointers are new, and what is above them agrees. */
  ghost predicate DeferredOk(nodes: Nodes) {
    forall q | q in nodes && IsDeferred(nodes[q]) :: DeferredAtOk(nodes, q)
  }

  /** A deferred pointer among the items of a collection. */
  predicate DeferredItem(nodes: Nodes, q: Path) {
    q in nodes && IsDeferred(nodes[q]) && q != [] && Parent(q) in nodes && nodes[Parent(q)].IsMap()
  }

  // ----- Where sync creates deferred pointers

  predicate FieldMakes(fields: map<string, Field>, f: string, target: nat) {
    && f in fields && fields[f].SubField? && MakesDeferred(fields[f].content, target)
  }

  predicate MakesDeferred(c: Content, target: nat) {
    c.Fresh? && c.kind == DeferredPointerField && c.value == Deferred(target)
  }

  predicate ParentSays(parent: Option<Node>, f: string, target: nat) {
    parent.Some? && SaysDeferred(parent.value, f, target)
  }

  predicate NewDeferred(n: Option<Node>) {
    n.Some? && IsDeferred(n.value)
  }

  lemma {:induction false} NewDeferredSynced(nodes: Nodes, p: Path, q: Path, next: VersionedTransition)
    requires PrefixClosed(nodes) && p in nodes && p <= q && NodesOk(nodes, p) && q !in nodes &&
             NewDeferred(SyncedNode(nodes, p, q, next))
    ensures var n := SyncedNode(nodes, p, q, next).value;
            n.IsPointer() && Dirty(n) &&
              ParentSays(SyncedNode(nodes, p, Parent(q), next), q[|q| - 1], n.value.value.target)
    decreases |q| - |p|, 2
  {
    assert NodeOk(nodes, p);
    if Unsynced(nodes[p]) {
      NewDeferredField(nodes, nodes[p].value.value.fields, p, q, next);
      assert SyncedNode(nodes, p, p, next) == Some(Settled(nodes[p]));
    } else {
      NewDeferredSynced(nodes, Child(p, q[|p|]), q, next);
    }
  }

  lemma {:induction false} NewDeferredField(nodes: Nodes, fields: map<string, Field>, p: Path, q: Path,
                                            next: VersionedTransition)
    requires PrefixClosed(nodes) && p <= q && p != q && NodesOk(nodes, p) && q !in nodes &&
             NewDeferred(FieldNode(nodes, fields, p, q, next))
    requires forall f | f in fields :: FieldOk(nodes, fields[f], Child(p, f))
    ensures var n := FieldNode(nodes, fields, p, q, next).value;
            && n.IsPointer() && Dirty(n)
            && if |q| == |p| + 1 then FieldMakes(fields, q[|q| - 1], n.value.value.target)
               else ParentSays(FieldNode(nodes, fields, p, Parent(q), next), q[|q| - 1], n.value.value.target)
    decreases |q| - |p|, 1
  {
    var child := Child(p, q[|p|]);
    assert FieldOk(nodes, fields[q[|p|]], child);
    match fields[q[|p|]]
    case SubField(content) =>
      assert FieldNode(nodes, fields, p, q, next) == FieldAt(nodes, fields[q[|p|]], child, q, next);
      NewDeferredContent(nodes, content, child, q, next);
      if q != child {
        assert FieldNode(nodes, fields, p, Parent(q), next) == FieldAt(nodes, fields[q[|p|]], child, Parent(q), next);
      }
    case NilMap =>
    case SubMap(items) =>
      assert FieldNode(nodes, fields, p, q, next) == FieldAt(nodes, fields[q[|p|]], child, q, next) ==
             ItemNode(nodes, items, child, q, next);
      if q != child {
        var item := Child(child, q[|child|]);
        assert FieldNode(nodes, fields, p, Parent(q), next) == ItemNode(nodes, items, child, Parent(q), next);
        NewDeferredContent(nodes, items[q[|child|]], item, q, next);
      }
  }

  lemma {:induction false} NewDeferredContent(nodes: Nodes, content: Content, child: Path, q: Path,
                                              next: VersionedTransition)
    requires PrefixClosed(nodes) && child <= q && NodesOk(nodes, child) && q !in nodes &&
             ContentOk(nodes, content, child)
    requires NewDeferred(ContentNode(nodes, content, child, q, next))
    ensures var n := ContentNode(nodes, content, child, q, next).value;
            && n.IsPointer() && Dirty(n)
            && if q == child then MakesDeferred(content, n.value.value.target)
               else ParentSays(ContentNode(nodes, content, child, Parent(q), next), q[|q| - 1], n.value.value.target)
    decreases |q| - |child|, 3
  {
    match content
    case Empty =>
    case Fresh(kind, value, detached) =>
      if q != child {
        NothingThere(nodes, child);
        FreshFieldsOk(nodes, value, child);
        NewDeferredField(nodes, value.fields, child, q, next);
      }
    case Attached => NewDeferredSynced(nodes, child, q, next);
    case AttachedDeferred(_) =>
  }

  // ----- What sync leaves

  /** A field that has been cleared or dropped has no node once sync has come to it. */
  lemma DroppedIsGone(before: Nodes, after: Nodes, next: VersionedTransition, p: Path, f: string)
    requires PrefixClosed(before) && NodesOk(before, []) && WholeSync(before, after, next)
    requires p in before && p in after && after[p] == Settled(before[p]) && Dropped(before[p], f)
    ensures Child(p, f) !in after
  {
    assert NodeOk(before, p);
    ChildrenMatchFields(before, after, next, p, f);
  }

  lemma OldDeferred(before: Nodes, after: Nodes, next: VersionedTransition, q: Path)
    requires PrefixClosed(before) && PrefixClosed(after) && NodesOk(before, []) && WholeSync(before, after, next)
    requires q in after && IsDeferred(after[q]) && q in before && DeferredOk(before)
    ensures DeferredAtOk(after, q)
  {
    SyncOrigin(before, after, next, q);
    assert after[q] == before[q];
    var p, f := Parent(q), q[|q| - 1];
    assert DeferredAtOk(before, q) && q == Child(p, f);
    SyncOrigin(before, after, next, p);
    if Dropped(before[p], f) && after[p] != before[p] {
      DroppedIsGone(before, after, next, p, f);
    }
  }

  lemma NewDeferredOk(before: Nodes, after: Nodes, next: VersionedTransition, q: Path)
    requires PrefixClosed(before) && PrefixClosed(after) && NodesOk(before, []) && WholeSync(before, after, next)
    requires q in after && IsDeferred(after[q]) && q !in before
    ensures DeferredAtOk(after, q)
  {
    assert Same(after, q) == SyncedNode(before, [], q, next);
    NewDeferredSynced(before, [], q, next);
    assert Same(after, Parent(q)) == SyncedNode(before, [], Parent(q), next);
  }

  /** Deferred pointers are new and agree with what is above them after any sync as well. */
  lemma SyncKeepsDeferredOk(before: Nodes, after: Nodes, next: VersionedTransition)
    requires PrefixClosed(before) && PrefixClosed(after) && NodesOk(before, []) && WholeSync(before, after, next)
    requires DeferredOk(before)
    ensures DeferredOk(after)
    ensures NothingToSync(after) ==> forall q | q in after && IsDeferred(after[q]) ::
              q != [] && Parent(q) in after && SaysDeferred(after[Parent(q)], q[|q| - 1], after[q].value.value.target)
  {
    forall q | q in after && IsDeferred(after[q])
      ensures DeferredAtOk(after, q)
    {
      if q in before {
        OldDeferred(before, after, next, q);
      } else {
        NewDeferredOk(before, after, next, q);
      }
    }
  }

  /** A write to the component at `p` leaves the fields of deferred pointers alone, or clears
      them. */
  predicate SparesDeferred(nodes: Nodes, p: Path, value: Value) {
    value.Object? &&
    forall f | f in value.fields && Child(p, f) in nodes && IsDeferred(nodes[Child(p, f)]) ::
      value.fields[f] == SubField(Empty) ||
        value.fields[f] == SubField(AttachedDeferred(nodes[Child(p, f)].value.value.target))
  }

  function WrittenWith(nodes: Nodes, p: Path, value: Value): Nodes
    requires p in nodes
  {
    nodes[p := nodes[p].(value := Some(value), state := NeedSyncStructure)]
  }

  lemma WriteKeepsDeferredOk(nodes: Nodes, p: Path, value: Value)
    requires DeferredOk(nodes) && p in nodes && nodes[p].IsComponent() && SparesDeferred(nodes, p, value)
    ensures DeferredOk(WrittenWith(nodes, p, value))
  {
    var nodes' := WrittenWith(nodes, p, value);
    forall q | q in nodes' && IsDeferred(nodes'[q])
      ensures DeferredAtOk(nodes', q)
    {
      assert DeferredAtOk(nodes, q);
      assert q == Child(Parent(q), q[|q| - 1]);
    }
  }

  // ----- Through a transaction

  /** A step on the values that makes nothing deferred and changes no component with fields,
      such as a value read or a data node written; or a write to a component. */
  ghost predicate SparingStep(x: Nodes, y: Nodes) {
    || (exists p, n ::
          p in x && y == x[p := n] && !HasFields(x[p]) && !IsDeferred(x[p]) && !IsDeferred(n) &&
          n.IsMap() == x[p].IsMap())
    || (exists p, value :: p in x && x[p].IsComponent() && SparesDeferred(x, p, value) && y == WrittenWith(x, p, value))
  }

  lemma SparingStepKeepsDeferredOk(x: Nodes, y: Nodes)
    requires DeferredOk(x) && SparingStep(x, y)
    ensures DeferredOk(y)
  {
    if p, value :| p in x && x[p].IsComponent() && SparesDeferred(x, p, value) && y == WrittenWith(x, p, value) {
      WriteKeepsDeferredOk(x, p, value);
    } else {
      forall q | q in y && IsDeferred(y[q])
        ensures DeferredAtOk(y, q)
      {
        assert DeferredAtOk(x, q);
      }
    }
  }

  /** No write of the transaction puts something else where a deferred pointer is. */
  ghost predicate SparesAll(moments: seq<Moment>, next: VersionedTransition) {
    forall i | 0 < i < |moments| ::
      SparingStep(moments[i - 1].nodes, moments[i].nodes) || SyncStep(moments[i - 1], moments[i], next)
  }

  lemma {:induction false} TransactionKeepsDeferredOk(moments: seq<Moment>, next: VersionedTransition, n: nat)
    requires SparesAll(moments, next) && n < |moments| && DeferredOk(moments[0].nodes)
    ensures DeferredOk(moments[n].nodes)
  {
    if n == 0 {
    } else {
      TransactionKeepsDeferredOk(moments, next, n - 1);
      if SparingStep(moments[n - 1].nodes, moments[n].nodes) {
        SparingStepKeepsDeferredOk(moments[n - 1].nodes, moments[n].nodes);
      } else {
        SyncKeepsDeferredOk(moments[n - 1].nodes, moments[n].nodes, next);
      }
    }
  }

  // ----- What resolving leaves

  /** Resolving leaves exactly the deferred pointers that are items of collections. */
  lemma DeferredAfterResolving(start: Nodes, index: map<nat, Path>, nodes: Nodes, q: Path)
    requires PrefixClosed(start) && DeferredOk(start) && NothingToSync(start) &&
             ResolvedSoFar(start, index, start.Keys, nodes)
    ensures q in nodes && IsDeferred(nodes[q]) <==> DeferredItem(start, q)
  {
    if q in start {
      assert nodes[q] == ResolvedNode(start, index, start.Keys, q);
      if DeferredAt(start, start.Keys, q) {
        assert q == Child(Parent(q), q[|q| - 1]) && Resolvable(start, index, Parent(q), q[|q| - 1]);
      }
      assert IsDeferred(start[q]) ==> DeferredAtOk(start, q);
    }
  }

  /** So none is left exactly if no collection has a deferred pointer as an item; and if one
      has, serialization fails. */
  lemma NoDeferredLeft(start: Nodes, index: map<nat, Path>, nodes: Nodes)
    requires PrefixClosed(start) && DeferredOk(start) && NothingToSync(start) &&
             ResolvedSoFar(start, index, start.Keys, nodes)
    ensures (forall q | q in nodes :: !IsDeferred(nodes[q])) <==> forall q :: !DeferredItem(start, q)
    ensures (exists q :: DeferredItem(start, q)) ==> !AllSerializable(nodes)
  {
    forall q
      ensures q in nodes && IsDeferred(nodes[q]) <==> DeferredItem(start, q)
    {
      DeferredAfterResolving(start, index, nodes, q);
    }
    if q :| DeferredItem(start, q) {
      ResolvedKinds(start, index, start.Keys, nodes);
      assert DeferredAtOk(start, q);
      assert nodes[q].IsPointer() && Dirty(nodes[q]) && !Serializable(nodes[q]);
    }
  }

  lemma WrittenIsNotDeferred(nodes: Nodes, q: Path)
    requires q in nodes && (Dirty(nodes[q]) ==> Serializable(nodes[q])) &&
             (IsDeferred(nodes[q]) ==> DeferredAtOk(nodes, q))
    ensures !IsDeferred(nodes[q])
  {
  }

  /** So a close with such an item fails. */
  lemma ClosedWithoutDeferredItems(before: Nodes, synced: Nodes, resolved: Nodes, next: VersionedTransition,
                                   codec: Codec, mutation: Mutation, nodes: Nodes)
    requires PrefixClosed(before) && PrefixClosed(synced) && NodesOk(before, []) && DeferredOk(before)
    requires NothingLost(before, synced, resolved, next, codec, mutation, nodes)
    ensures forall q :: !DeferredItem(synced, q)
    ensures forall q | q in resolved :: !IsDeferred(resolved[q])
  {
    NothingLeftToSync(before, synced, next);
    SyncKeepsDeferredOk(before, synced, next);
    if resolved == synced {
      forall q | q in synced
        ensures !IsDeferred(synced[q])
      {
        WrittenIsNotDeferred(synced, q);
      }
    } else {
      var index :| Index(synced, index) && ResolvedSoFar(synced, index, synced.Keys, resolved);
      NoDeferredLeft(synced, index, resolved);
    }
  }

  /** A transaction that starts without deferred pointers, however often it synchronises the
      tree, is closed only when all that it has made are resolved. */
  lemma TxLeavesNoneDeferred(tx: Tx, a: Nodes, b: Nodes, last: VersionedTransition, next: VersionedTransition)
    requires tx.Leads(a, b, last, next) && SparesAll(tx.moments, next) && forall q | q in a :: !IsDeferred(a[q])
    ensures forall q :: !DeferredItem(tx.synced.nodes, q)
    ensures forall q | q in tx.resolved :: !IsDeferred(tx.resolved[q])
  {
    var n := |tx.moments| - 1;
    assert DeferredOk(a);
    TransactionKeepsDeferredOk(tx.moments, next, n);
    ClosedWithoutDeferredItems(tx.moments[n].nodes, tx.synced.nodes, tx.resolved, next, tx.codec, tx.mutation, b);
  }

  // ----- A collection with a deferred pointer

  lemma DeferredItemPreventsClose(before: Nodes, synced: Nodes, resolved: Nodes, next: VersionedTransition,
                                  codec: Codec, mutation: Mutation, nodes: Nodes, q: Path)
    requires PrefixClosed(before) && PrefixClosed(synced) && NodesOk(before, []) && DeferredOk(before) &&
             DeferredItem(synced, q)
    ensures !NothingLost(before, synced, resolved, next, codec, mutation, nodes)
  {
    if NothingLost(before, synced, resolved, next, codec, mutation, nodes) {
      ClosedWithoutDeferredItems(before, synced, resolved, next, codec, mutation, nodes);
    }
  }

  /** A component whose map field `a` has got an item `b`: a pointer to an object without node. */
  function DeferredExample(root: ChasmNode, target: nat): Nodes {
    map[[] :=
        Node(Some(root),
             Some(Object(0, map["a" := SubMap(map["b" := Fresh(DeferredPointerField, Deferred(target), false)])])),
             NeedSyncStructure, Some(""))]
  }

  lemma DeferredExampleOk(root: ChasmNode, target: nat)
    requires root.attributes.Component?
    ensures var before := DeferredExample(root, target);
            PrefixClosed(before) && NodesOk(before, []) && DeferredOk(before)
  {
    var before := DeferredExample(root, target);
    assert Child([], "a") == ["a"] && Child(["a"], "b") == ["a", "b"];
  }

  /** Such a transaction cannot be closed, although every value in it is admissible and even if
      the object that is pointed to gets its node: the item stays deferred. */
  lemma DeferredItemExample(root: ChasmNode, target: nat, synced: Nodes, next: VersionedTransition, resolved: Nodes,
                            codec: Codec, mutation: Mutation, nodes: Nodes)
    requires root.attributes.Component? && PrefixClosed(synced) &&
             WholeSync(DeferredExample(root, target), synced, next)
    ensures DeferredItem(synced, ["a", "b"])
    ensures !NothingLost(DeferredExample(root, target), synced, resolved, next, codec, mutation, nodes)
  {
    var before := DeferredExample(root, target);
    DeferredExampleOk(root, target);
    DeferredExampleSynced(root, target, synced, next);
    DeferredItemPreventsClose(before, synced, resolved, next, codec, mutation, nodes, ["a", "b"]);
  }

  lemma DeferredExampleSynced(root: ChasmNode, target: nat, synced: Nodes, next: VersionedTransition)
    requires root.attributes.Component? && WholeSync(DeferredExample(root, target), synced, next)
    ensures DeferredItem(synced, ["a", "b"])
  {
    var before, item := DeferredExample(root, target), Fresh(DeferredPointerField, Deferred(target), false);
    var items := map["b" := item];
    assert Child([], "a") == ["a"] && Child(["a"], "b") == ["a", "b"] && Parent(["a", "b"]) == ["a"];
    assert ["a", "b"][0] == "a" && ["a", "b"][1] == "b";
    assert Same(synced, ["a"]) == SyncedNode(before, [], ["a"], next) == ItemNode(before, items, ["a"], ["a"], next);
    assert Same(synced, ["a", "b"]) == SyncedNode(before, [], ["a", "b"], next) ==
           ItemNode(before, items, ["a"], ["a", "b"], next);
    ItemAtKey(before, items, ["a"], "b", next);
  }

  lemma ItemAtKey(nodes: Nodes, items: map<string, Content>, p: Path, k: string, next: VersionedTransition)
    requires k in items
    ensures ItemNode(nodes, items, p, Child(p, k), next) == ContentNode(nodes, items[k], Child(p, k), Child(p, k), next)
  {
  }
}
