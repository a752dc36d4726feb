/** resolveDeferredPointers (chasm/tree.go): pointers to objects become pointers to the
    positions of the nodes that hold them. */
module Pointers {
  import opened Basics
  import opened PathEncoder
  import opened Tasks
  import opened ChasmTree
  import opened Transaction

  predicate HasFields(n: Node) {
    n.IsComponent() && n.value.Some? && n.value.value.Object?
  }

  /** The field holds a deferred pointer to the object `target`. */
  function DeferredTarget(f: Field): Option<nat> {
    if f.SubField? then
      match f.content
      case AttachedDeferred(target) => Some(target)
      case Fresh(DeferredPointerField, Deferred(target), _) => Some(target)
      case _ => None
    else None
  }

  function DeferredFields(v: Value): set<string>
    requires v.Object?
  {
    set f | f in v.fields && DeferredTarget(v.fields[f]).Some?
  }

  /** The value after its deferred pointers `names` have been resolved. */
  function ResolvedValue(v: Value, names: set<string>): Value
    requires v.Object?
  {
    v.(fields := map f | f in v.fields :: if f in names &&
       DeferredTarget(v.fields[f]).Some? then SubField(Attached) else v.fields[f])
  }

  function PointedTo(n: Node, target: nat, index: map<nat, Path>): Node {
    if target in index then n.(value := Some(PathValue(index[target]))) else n
  }

  /** The deferred pointer at `f` of the component at `p` can be resolved: it has a node, and
      the index knows its target. */
  predicate Resolvable(nodes: Nodes, index: map<nat, Path>, p: Path, f: string)
    requires p in nodes && HasFields(nodes[p]) && f in DeferredFields(nodes[p].value.value)
  {
    && Child(p, f) in nodes && nodes[Child(p, f)].IsPointer()
    && nodes[p].value.value.fields[f].content.AttachedDeferred?
    && DeferredTarget(nodes[p].value.value.fields[f]).value in index
  }

  /** `q` is the node of a deferred pointer of a component among `done`. */
  predicate DeferredAt(nodes: Nodes, done: set<Path>, q: Path) {
    q != [] && Parent(q) in done && Parent(q) in nodes && HasFields(nodes[Parent(q)]) &&
    q[|q| - 1] in DeferredFields(nodes[Parent(q)].value.value)
  }

  /** The node at `q` after the deferred pointers of the components `done` are resolved. */
  function ResolvedNode(nodes: Nodes, index: map<nat, Path>, done: set<Path>, q: Path): Node
    requires q in nodes
  {
    if q in done && HasFields(nodes[q]) then
      nodes[q].(value := Some(ResolvedValue(nodes[q].value.value, DeferredFields(nodes[q].value.value))))
    else if DeferredAt(nodes, done, q) then
      PointedTo(nodes[q], DeferredTarget(nodes[Parent(q)].value.value.fields[q[|q| - 1]]).value, index)
    else nodes[q]
  }

  ghost predicate ResolvedSoFar(start: Nodes, index: map<nat, Path>, done: set<Path>, nodes: Nodes) {
    && nodes.Keys == start.Keys
    && (forall q | q in start :: nodes[q] == ResolvedNode(start, index, done, q))
    && AllResolvable(start, index, done)
  }

  ghost predicate AllResolvable(nodes: Nodes, index: map<nat, Path>, done: set<Path>) {
    forall p, f | p in done && p in nodes && HasFields(nodes[p]) && f in DeferredFields(nodes[p].value.value) ::
      Resolvable(nodes, index, p, f)
  }

  // ----- One component

  /** The tree after the fields `names` of the component at `p` have been resolved. */
  function WithResolved(nodes: Nodes, index: map<nat, Path>, p: Path, names: set<string>): Nodes
    requires p in nodes && HasFields(nodes[p])
  {
    map q | q in nodes ::
      if q == p then nodes[p].(value := Some(ResolvedValue(nodes[p].value.value, names)))
      else if q != [] && Parent(q) == p && q[|q| - 1] in names &&
        q[|q| - 1] in DeferredFields(nodes[p].value.value) then
        PointedTo(nodes[q], DeferredTarget(nodes[p].value.value.fields[q[|q| - 1]]).value, index)
      else nodes[q]
  }

  lemma ResolvingOneMore(nodes: Nodes, index: map<nat, Path>, p: Path, done: set<string>, f: string)
    requires p in nodes && HasFields(nodes[p]) && f in DeferredFields(nodes[p].value.value) && f !in done
    requires Resolvable(nodes, index, p, f)
    ensures var mid := WithResolved(nodes, index, p, done);
            && mid[p].value == Some(ResolvedValue(nodes[p].value.value, done))
            && mid[Child(p, f)] == nodes[Child(p, f)]
            && WithResolved(nodes, index, p, done + {f}) ==
               mid[p :=
                   mid[p].(value :=
                           Some(mid[p].value.value.(fields := mid[p].value.value.fields[f := SubField(Attached)])))]
                  [Child(p, f) :=
                   mid[Child(p, f)].(value :=
                                     Some(PathValue(index[DeferredTarget(nodes[p].value.value.fields[f]).value])))]
  {
    var mid := WithResolved(nodes, index, p, done);
    var v := nodes[p].value.value;
    assert Parent(Child(p, f)) == p;
    assert ResolvedValue(v, done).(fields := ResolvedValue(v, done).fields[f := SubField(Attached)]) ==
           ResolvedValue(v, done + {f});
    forall q | q in nodes && q != p && q != Child(p, f)
      ensures WithResolved(nodes, index, p, done + {f})[q] == mid[q]
    {
      if q != [] && Parent(q) == p {
        assert q == Child(p, q[|q| - 1]);
      }
    }
  }

  lemma ResolvingKeepsIndex(nodes: Nodes, index: map<nat, Path>, p: Path, names: set<string>)
    requires p in nodes && HasFields(nodes[p]) && PrefixClosed(nodes) && Index(nodes, index) &&
             names <= DeferredFields(nodes[p].value.value)
    requires forall f | f in names :: Resolvable(nodes, index, p, f)
    ensures PrefixClosed(WithResolved(nodes, index, p, names)) && Index(WithResolved(nodes, index, p, names), index)
  {
    var nodes' := WithResolved(nodes, index, p, names);
    forall q | q in nodes
      ensures nodes'[q].IndexedId() == nodes[q].IndexedId()
    {
      if q != p && q != [] && Parent(q) == p && q[|q| - 1] in names {
        assert q == Child(p, q[|q| - 1]);
        assert nodes[q].IsPointer();
      }
    }
  }

  method ResolveComponent(t: Tree, p: Path) returns (ok: bool)
    requires t.Valid() && p in t.nodes && HasFields(t.nodes[p])
    modifies t`nodes
    ensures ok ==> t.Valid() &&
                   t.nodes == WithResolved(old(t.nodes), t.valueToNode, p, DeferredFields(old(t.nodes)[p].value.value))
    ensures ok <==> forall f | f in DeferredFields(old(t.nodes)[p].value.value) ::
                      Resolvable(old(t.nodes), t.valueToNode, p, f)
    ensures ok ==> NothingDeferred(t.nodes[p].value)
  {
    ghost var start := t.nodes;
    var names := DeferredFields(t.nodes[p].value.value);
    var todo := names;
    ghost var done: set<string> := {};
    ok := true;
    assert WithResolved(start, t.valueToNode, p, {}) == start by {
      assert ResolvedValue(start[p].value.value, {}) == start[p].value.value;
    }
    while todo != {}
      invariant todo !! done && todo + done == names
      invariant t.nodes == WithResolved(start, t.valueToNode, p, done)
      invariant forall f | f in done :: Resolvable(start, t.valueToNode, p, f)
    {
      var f :| f in todo;
      var v := t.nodes[p].value.value;
      var child := Child(p, f);
      if child !in t.nodes || !t.nodes[child].IsPointer() || !v.fields[f].content.AttachedDeferred? ||
         DeferredTarget(v.fields[f]).value !in t.valueToNode {
        NotResolvable(start, t.valueToNode, p, done, f);
        return false;
      }
      StillDeferred(start, t.valueToNode, p, done, f);
      ResolvingOneMore(start, t.valueToNode, p, done, f);
      var target := t.valueToNode[DeferredTarget(v.fields[f]).value];
      t.nodes := t.nodes[p := t.nodes[p].(value := Some(v.(fields := v.fields[f := SubField(Attached)])))]
                        [child := t.nodes[child].(value := Some(PathValue(target)))];
      todo, done := todo - {f}, done + {f};
    }
    assert done == names;
    ResolvingKeepsIndex(start, t.valueToNode, p, names);
    AllAttached(start[p].value.value);
  }

  /** No field of the component holds a deferred pointer, with a node or without. */
  predicate NothingDeferred(value: Option<Value>) {
    && value.Some? && value.value.Object?
    && forall f | f in value.value.fields && value.value.fields[f].SubField? ::
         var content := value.value.fields[f].content;
         !content.AttachedDeferred? &&
           !(content.Fresh? && content.kind == DeferredPointerField && content.value.Deferred?)
  }

  lemma AllAttached(v: Value)
    requires v.Object?
    ensures NothingDeferred(Some(ResolvedValue(v, DeferredFields(v))))
  {
    forall f | f in v.fields
      ensures f in DeferredFields(v) <==> DeferredTarget(v.fields[f]).Some?
    {
    }
  }

  lemma StillDeferred(nodes: Nodes, index: map<nat, Path>, p: Path, done: set<string>, f: string)
    requires p in nodes && HasFields(nodes[p]) && f in DeferredFields(nodes[p].value.value) && f !in done
    requires var mid := WithResolved(nodes, index, p, done);
             && mid[p].value.value.fields[f].SubField?
             && Child(p, f) in mid && mid[Child(p, f)].IsPointer()
             && mid[p].value.value.fields[f].content.AttachedDeferred?
             && DeferredTarget(mid[p].value.value.fields[f]).value in index
    ensures Resolvable(nodes, index, p, f)
    ensures WithResolved(nodes, index, p, done)[p].value.value.fields[f] == nodes[p].value.value.fields[f]
  {
  }

  lemma NotResolvable(nodes: Nodes, index: map<nat, Path>, p: Path, done: set<string>, f: string)
    requires p in nodes && HasFields(nodes[p]) && f in DeferredFields(nodes[p].value.value) && f !in done
    requires var mid := WithResolved(nodes, index, p, done);
             && mid[p].value.value.fields[f] == nodes[p].value.value.fields[f]
             && (Child(p, f) in mid && mid[Child(p, f)].IsPointer() &&
                 mid[p].value.value.fields[f].content.AttachedDeferred? ==>
                 DeferredTarget(mid[p].value.value.fields[f]).value !in index)
    ensures !Resolvable(nodes, index, p, f)
  {
  }

  // ----- The whole tree

  /** Resolving does not make one node a component or a pointer, or stop it from being one. */
  lemma ResolvedKinds(start: Nodes, index: map<nat, Path>, done: set<Path>, nodes: Nodes)
    requires ResolvedSoFar(start, index, done, nodes)
    ensures forall q | q in start ::
              nodes[q].serialized == start[q].serialized && nodes[q].encodedPath == start[q].encodedPath &&
                                     nodes[q].state == start[q].state && nodes[q].IndexedId() == start[q].IndexedId()
    ensures forall q | q in start && q !in done && !start[q].IsPointer() :: nodes[q] == start[q]
  {
    forall q | q in start
      ensures nodes[q].IndexedId() == start[q].IndexedId()
      ensures q !in done && !start[q].IsPointer() ==> nodes[q] == start[q]
    {
      if DeferredAt(start, done, q) {
        assert q == Child(Parent(q), q[|q| - 1]);
        assert Resolvable(start, index, Parent(q), q[|q| - 1]);
      }
    }
  }

  lemma ResolvedOneMore(start: Nodes, index: map<nat, Path>, done: set<Path>, nodes: Nodes, p: Path, nodes': Nodes)
    requires ResolvedSoFar(start, index, done, nodes) && p in start && p !in done && HasFields(start[p]) &&
             nodes[p] == start[p]
    requires nodes' == WithResolved(nodes, index, p, DeferredFields(start[p].value.value))
    requires AllResolvable(start, index, done + {p})
    ensures ResolvedSoFar(start, index, done + {p}, nodes')
  {
    forall q | q in start
      ensures nodes'[q] == ResolvedNode(start, index, done + {p}, q)
    {
      assert nodes[q] == ResolvedNode(start, index, done, q);
      if q != p && DeferredAt(start, done + {p}, q) && Parent(q) == p {
        assert Child(p, q[|q| - 1]) == q;
        assert Resolvable(start, index, p, q[|q| - 1]);
      }
    }
  }

  lemma ResolvableElsewhere(start: Nodes, index: map<nat, Path>, done: set<Path>, nodes: Nodes, p: Path)
    requires ResolvedSoFar(start, index, done, nodes) && p in start && p !in done && HasFields(start[p]) &&
             nodes[p] == start[p]
    ensures (forall f | f in DeferredFields(start[p].value.value) :: Resolvable(nodes, index, p, f)) <==>
            AllResolvable(start, index, done + {p})
  {
    ResolvedKinds(start, index, done, nodes);
    forall f | f in DeferredFields(start[p].value.value)
      ensures Resolvable(nodes, index, p, f) <==> Resolvable(start, index, p, f)
    {
    }
    if AllResolvable(start, index, done + {p}) {
      assert p in done + {p};
    }
  }

  lemma AllResolvableFewer(nodes: Nodes, index: map<nat, Path>, some: set<Path>, all: set<Path>)
    requires some <= all
    ensures AllResolvable(nodes, index, all) ==> AllResolvable(nodes, index, some)
  {
  }

  method ResolveDeferredPointers(t: Tree) returns (ok: bool)
    requires t.Valid()
    modifies t`nodes
    ensures ok ==> t.Valid() && ResolvedSoFar(old(t.nodes), t.valueToNode, old(t.nodes).Keys, t.nodes)
    ensures ok <==> AllResolvable(old(t.nodes), t.valueToNode, old(t.nodes).Keys)
  {
    ghost var start := t.nodes;
    var order := WholePreOrder(t);
    ok := true;
    ResolvedNone(start, t.valueToNode, order);
    for i := 0 to |order|
      invariant t.Valid() && ResolvedSoFar(start, t.valueToNode, FirstOf(order, i), t.nodes)
    {
      ok := ResolveNext(t, order, i, start);
      if !ok {
        return;
      }
    }
    ResolvedAll(start, t.valueToNode, order, t.nodes);
  }

  lemma ResolvedNone(start: Nodes, index: map<nat, Path>, order: seq<Path>)
    ensures ResolvedSoFar(start, index, FirstOf(order, 0), start)
  {
    assert FirstOf(order, 0) == {};
  }

  lemma ResolvedAll(start: Nodes, index: map<nat, Path>, order: seq<Path>, nodes: Nodes)
    requires Enumerates(order, start.Keys) && ResolvedSoFar(start, index, FirstOf(order, |order|), nodes)
    ensures ResolvedSoFar(start, index, start.Keys, nodes) && AllResolvable(start, index, start.Keys)
  {
    FirstOfAll(order, start.Keys);
  }

  /** One iteration of that loop. */
  method ResolveNext(t: Tree, order: seq<Path>, i: nat, ghost start: Nodes) returns (ok: bool)
    requires t.Valid() && i < |order| && Enumerates(order, start.Keys)
    requires ResolvedSoFar(start, t.valueToNode, FirstOf(order, i), t.nodes)
    modifies t`nodes
    ensures ok ==> t.Valid() && ResolvedSoFar(start, t.valueToNode, FirstOf(order, i + 1), t.nodes)
    ensures AllResolvable(start, t.valueToNode, start.Keys) ==> ok
  {
    FirstOneMore(order, i);
    FirstOfAll(order, start.Keys);
    ok := ResolveNode(t, order[i], start, FirstOf(order, i));
  }

  lemma NothingToResolve(start: Nodes, index: map<nat, Path>, done: set<Path>, nodes: Nodes, p: Path)
    requires ResolvedSoFar(start, index, done, nodes) && p in start && !HasFields(start[p])
    ensures ResolvedSoFar(start, index, done + {p}, nodes)
  {
    assert forall q | q in start :: DeferredAt(start, done + {p}, q) == DeferredAt(start, done, q);
  }

  method ResolveNode(t: Tree, p: Path, ghost start: Nodes, ghost done: set<Path>) returns (ok: bool)
    requires t.Valid() && p in start && done <= start.Keys && p !in done &&
             ResolvedSoFar(start, t.valueToNode, done, t.nodes)
    modifies t`nodes
    ensures ok ==> t.Valid() && ResolvedSoFar(start, t.valueToNode, done + {p}, t.nodes)
    ensures AllResolvable(start, t.valueToNode, start.Keys) ==> ok
  {
    ghost var mid := t.nodes;
    AllResolvableFewer(start, t.valueToNode, done + {p}, start.Keys);
    ResolvedKinds(start, t.valueToNode, done, mid);
    ok := true;
    if !HasFields(t.nodes[p]) {
      NothingToResolve(start, t.valueToNode, done, mid, p);
      return;
    }
    ResolvableElsewhere(start, t.valueToNode, done, mid, p);
    ok := ResolveComponent(t, p);
    if ok {
      ResolvedOneMore(start, t.valueToNode, done, mid, p, t.nodes);
    }
  }

  // ----- Where resolved pointers lead

  /** The node at `child` holds the position of the node that holds `target`, if there is one. */
  predicate LeadsBack(nodes: Nodes, child: Path, target: Option<nat>) {
    target.Some? ==>
      && child in nodes && nodes[child].value.Some? && nodes[child].value.value.PathValue?
      && var found := nodes[child].value.value.path;
         found in nodes && nodes[found].IndexedId() == target
  }

  /** No deferred pointer is left, and the node of each holds the position of the node that
      holds its target. */
  lemma PointersLeadBack(start: Nodes, index: map<nat, Path>, nodes: Nodes, p: Path, f: string)
    requires Index(start, index) && ResolvedSoFar(start, index, start.Keys, nodes)
    requires p in start && HasFields(start[p]) && f in start[p].value.value.fields
    ensures HasFields(nodes[p]) && f in nodes[p].value.value.fields &&
            DeferredTarget(nodes[p].value.value.fields[f]).None?
    ensures LeadsBack(nodes, Child(p, f), DeferredTarget(start[p].value.value.fields[f]))
  {
    ResolvedKinds(start, index, start.Keys, nodes);
    if f in DeferredFields(start[p].value.value) {
      TargetLeadsBack(start, index, nodes, p, f);
    }
    NoTargetLeft(start[p].value.value, f);
  }

  /** Resolving makes exactly the deferred fields plain ones: no other field of a component
      changes, and nothing of a node but its value. */
  lemma OnlyDeferredChange(start: Nodes, index: map<nat, Path>, nodes: Nodes, p: Path)
    requires ResolvedSoFar(start, index, start.Keys, nodes) && p in start
    ensures p in nodes && nodes[p].(value := start[p].value) == start[p]
    ensures HasFields(start[p]) ==>
              && HasFields(nodes[p]) && nodes[p].value.value.id == start[p].value.value.id
              && nodes[p].value.value.fields.Keys == start[p].value.value.fields.Keys
              && forall f | f in start[p].value.value.fields ::
                   nodes[p].value.value.fields[f] ==
                   if DeferredTarget(start[p].value.value.fields[f]).Some? then SubField(Attached)
                   else start[p].value.value.fields[f]
    ensures !HasFields(start[p]) && nodes[p] != start[p] ==>
              && p != [] && Parent(p) in start && HasFields(start[Parent(p)])
              && p[|p| - 1] in start[Parent(p)].value.value.fields
              && DeferredTarget(start[Parent(p)].value.value.fields[p[|p| - 1]]).Some?
  {
  }

  lemma NoTargetLeft(v: Value, f: string)
    requires v.Object? && f in v.fields
    ensures f in DeferredFields(v) <==> DeferredTarget(v.fields[f]).Some?
    ensures DeferredTarget(ResolvedValue(v, DeferredFields(v)).fields[f]).None?
  {
  }

  lemma TargetLeadsBack(start: Nodes, index: map<nat, Path>, nodes: Nodes, p: Path, f: string)
    requires Index(start, index) && ResolvedSoFar(start, index, start.Keys, nodes)
    requires p in start && HasFields(start[p]) && f in DeferredFields(start[p].value.value)
    ensures LeadsBack(nodes, Child(p, f), DeferredTarget(start[p].value.value.fields[f]))
  {
    ResolvedKinds(start, index, start.Keys, nodes);
    assert Resolvable(start, index, p, f);
    var child := Child(p, f);
    assert Parent(child) == p && child[|child| - 1] == f;
    assert DeferredAt(start, start.Keys, child);
  }

  lemma SerializedFacts(nodes: Nodes, q: Path, next: VersionedTransition, codec: Codec)
    requires q in nodes
    ensures Serialized(nodes, q, next, codec).IndexedId() == nodes[q].IndexedId()
    ensures Serializable(nodes[q]) && nodes[q].IsPointer() ==>
      Serialized(nodes, q, next, codec).IsPointer() &&
      Serialized(nodes, q, next, codec).serialized.value.attributes.target == nodes[q].value.value.path
  {
  }

  /** The record that is then written names that position as its target. */
  lemma PersistedPointerLeadsBack(start: Nodes, index: map<nat, Path>, nodes: Nodes, p: Path, f: string,
                                  next: VersionedTransition, codec: Codec, written: Nodes)
    requires Index(start, index) && ResolvedSoFar(start, index, start.Keys, nodes) &&
             SerializedSoFar(nodes, nodes.Keys, next, codec, written)
    requires p in start && HasFields(start[p]) && f in start[p].value.value.fields &&
             DeferredTarget(start[p].value.value.fields[f]).Some?
    requires Child(p, f) in start && Dirty(start[Child(p, f)])
    ensures var child := written[Child(p, f)];
            && child.IsPointer() && child.serialized.value.attributes.target in written
            && written[child.serialized.value.attributes.target].IndexedId() ==
               DeferredTarget(start[p].value.value.fields[f])
  {
    PointersLeadBack(start, index, nodes, p, f);
    ResolvedKinds(start, index, start.Keys, nodes);
    assert Resolvable(start, index, p, f);
    var found := nodes[Child(p, f)].value.value.path;
    SerializedFacts(nodes, Child(p, f), next, codec);
    SerializedFacts(nodes, found, next, codec);
    assert written[Child(p, f)] == Serialized(nodes, Child(p, f), next, codec);
  }

  /** What a transaction assumes of the tree does not depend on pointers being resolved. */
  lemma ResolvingKeepsKeys(start: Nodes, index: map<nat, Path>, done: set<Path>, nodes: Nodes)
    requires ResolvedSoFar(start, index, done, nodes)
    ensures forall q | q in start :: Key(nodes, q) == Key(start, q)
  {
    ResolvedKinds(start, index, done, nodes);
  }
}
