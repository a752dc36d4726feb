/** The methods of syncSubComponents (chasm/tree.go), proved against the position-wise result
    of `Sync`. */
module SyncApply {
  import opened Basics
  import opened PathEncoder
  import opened Tasks
  import opened ChasmTree
  import opened Sync

  // ----- Bounds for termination

  /** `d` levels suffice for the nodes that a value without node will get. */
  predicate Fits(v: Value, d: nat)
    decreases v
  {
    v.Object? ==> forall f | f in v.fields :: d >= 1 && FieldFits(v.fields[f], d)
  }

  predicate FieldFits(f: Field, d: nat)
    decreases f
  {
    match f
    case SubField(c) => ContentFits(c, d)
    case NilMap => true
    case SubMap(items) => forall k | k in items :: d >= 2 && ContentFits(items[k], d - 1)
  }

  predicate ContentFits(c: Content, d: nat)
    decreases c
  {
    c.Fresh? ==> d >= 1 && Fits(c.value, d - 1)
  }

  predicate RankOk(nodes: Nodes, p: Path, rank: nat) {
    forall q | q in nodes && p <= q ::
      |q| <= |p| + rank && (nodes[q].value.Some? ==> Fits(nodes[q].value.value, rank - (|q| - |p|)))
  }

  // ----- What a step leaves alone, and what it deletes

  ghost predicate SameOutside(before: Nodes, after: Nodes, p: Path) {
    forall q | !(p <= q) :: Same(after, q) == Same(before, q)
  }

  /** The keys added to the deleted ones include those of all nodes that are gone below `p`,
      and stand only for positions below `p` where there is no node now. */
  ghost predicate DeletionsRecorded(before: Nodes, after: Nodes, p: Path, deleted: set<string>, deleted': set<string>) {
    && deleted <= deleted'
    && (forall q | q in before && p <= q && q !in after :: Key(before, q) in deleted')
    && (forall k | k in deleted' && k !in deleted ::
          Decoded(k).Ok? && p <= Decoded(k).value && Decoded(k).value !in after)
  }

  ghost predicate Ready(nodes: Nodes, home: map<nat, Path>) {
    CachedKeysDecode(nodes) && AllAtHome(nodes, home)
  }

  ghost predicate NodesOk(nodes: Nodes, p: Path) {
    forall r | r in nodes && p <= r :: NodeOk(nodes, r)
  }

  ghost predicate SyncedAt(before: Nodes, after: Nodes, p: Path, next: VersionedTransition)
    requires p in before
  {
    forall q | p <= q :: Same(after, q) == SyncedNode(before, p, q, next)
  }

  ghost predicate ContentSyncedAt(before: Nodes, after: Nodes, content: Content, child: Path,
                                  next: VersionedTransition) {
    forall q | child <= q :: Same(after, q) == ContentNode(before, content, child, q, next)
  }

  // ----- When sync succeeds

  /** The collections that come and go with an empty map in the value have an encoded path. */
  predicate ValueNamed(v: Value, p: Path)
    decreases v
  {
    v.Object? ==> forall f | f in v.fields :: FieldNamed(v.fields[f], Child(p, f))
  }

  predicate FieldNamed(f: Field, child: Path)
    decreases f
  {
    match f
    case SubField(c) => ContentNamed(c, child)
    case NilMap => true
    case SubMap(items) =>
      && (items == map[] ==> ValidPath(child))
      && forall k | k in items :: ContentNamed(items[k], Child(child, k))
  }

  predicate ContentNamed(c: Content, child: Path)
    decreases c
  {
    c.Fresh? ==> ValueNamed(c.value, child)
  }

  /** Whatever a sync of the subtree at `p` may delete has an encoded path. */
  ghost predicate AllNamed(nodes: Nodes, p: Path) {
    forall q | q in nodes && p <= q ::
      (q != p ==> Encodable(nodes, q)) && (nodes[q].value.Some? ==> ValueNamed(nodes[q].value.value, q))
  }

  lemma NamedLocal(before: Nodes, mid: Nodes, p: Path, child: Path)
    requires Agree(before, mid, child) && p <= child && p != child
    ensures AllNamed(before, p) ==> AllNamed(mid, child)
  {
    forall q | q in mid && child <= q
      ensures q in before && mid[q] == before[q] && p <= q && q != p
    {
      AgreeBelow(before, mid, child, q);
    }
  }

  lemma FreshNamed(before: Nodes, child: Path, value: Value, detached: bool, next: VersionedTransition)
    requires PrefixClosed(before) && child !in before
    ensures ValueNamed(value, child) ==>
            AllNamed(before[child := NewChild(ComponentField, value, detached, next)], child)
  {
    NothingThere(before, child);
  }

  lemma CollectionNamed(before: Nodes, attached: Nodes, child: Path, next: VersionedTransition)
    requires PrefixClosed(before)
    requires attached == if child in before then before else before[child := NewCollection(next)]
    ensures AllNamed(before, child) ==> AllNamed(attached, child)
  {
    if child !in before {
      NothingThere(before, child);
    }
  }

  /** What is left to be deleted when the fields or items have been gone through: old nodes, and
      collections that have come with an empty map. */
  lemma UnkeptNamed(before: Nodes, mid: Nodes, p: Path, keep: set<string>)
    requires UnkeptAsBefore(before, mid, p, keep)
    requires forall q | p <= q && q != p && q[|p|] !in keep && q in mid && q !in before :: ValidPath(q)
    ensures AllNamed(before, p) ==> EncodableUnder(mid, p, Children(mid, p) - keep)
  {
    forall q | q in mid && UnderChild(p, Children(mid, p) - keep, q)
      ensures AllNamed(before, p) ==> Encodable(mid, q)
    {
      assert q in before ==> mid[q] == before[q];
    }
  }

  // ----- The flag for resolving pointers

  predicate HoldsDeferred(n: Node) {
    n.value.Some? && n.value.value.Deferred?
  }

  /** The flag is not taken back, and it is set when a deferred pointer has come. */
  ghost predicate FlagKept(before: Nodes, flag: bool, after: Nodes, flag': bool) {
    && (flag ==> flag')
    && (flag' || forall q | q in after && HoldsDeferred(after[q]) :: q in before && HoldsDeferred(before[q]))
  }

  lemma FlagTwice(a: Nodes, flag: bool, b: Nodes, flag': bool, c: Nodes, flag'': bool)
    requires FlagKept(a, flag, b, flag') && FlagKept(b, flag', c, flag'')
    ensures FlagKept(a, flag, c, flag'')
  {
  }

  // ----- syncSubField

  /** A record that nothing has been written to: it has the version of the transaction as its
      initial one, no other version, and no data. */
  predicate IsBlank(n: Node, next: VersionedTransition, attributes: Attributes, state: ValueState) {
    n.serialized == Some(ChasmNode(next, ZERO_VT, 0, attributes)) && n.state == state
  }

  /** Creates the node of a value that has none yet. */
  method AttachChild(t: Tree, child: Path, kind: FieldType, value: Value, detached: bool, next: VersionedTransition,
                     ghost home: map<nat, Path>)
    requires t.Valid() && Ready(t.nodes, home)
    requires child != [] && Parent(child) in t.nodes && child !in t.nodes && FreshValue(kind, value) &&
             ValueAtHome(value, child, home)
    modifies t`nodes, t`valueToNode, t`isActiveStateDirty, t`needsPointerResolution
    ensures t.Valid() && Ready(t.nodes, home)
    ensures t.nodes == old(t.nodes)[child := NewChild(kind, value, detached, next)]
    ensures t.nodes[child].value == Some(value) && t.nodes[child].encodedPath == None
    ensures match kind
            case ComponentField =>
              IsBlank(t.nodes[child], next, Component(0, detached, TaskLists([], [])), NeedSyncStructure)
            case DataField => IsBlank(t.nodes[child], next, Data, NeedSerialize)
            case _ => IsBlank(t.nodes[child], next, Pointer([]), NeedSerialize)
    ensures t.needsPointerResolution == (old(t.needsPointerResolution) || kind == DeferredPointerField)
    ensures FlagKept(old(t.nodes), old(t.needsPointerResolution), t.nodes, t.needsPointerResolution)
    ensures t.isActiveStateDirty
  {
    ghost var before := t.nodes;
    ValueIsNew(t.nodes, t.valueToNode, child, value, home);
    if kind == DeferredPointerField {
      t.needsPointerResolution := true;
    }
    var state := if kind == ComponentField then NeedSyncStructure else NeedSerialize;
    AddNode(t, child, InitialAttributes(kind, detached), state, next, home);
    ghost var added := t.nodes[child];
    SetFirstValue(t, child, value, home);
    UpdateTwice(before, child, added, NewChild(kind, value, detached, next));
  }

  lemma ValueIsNew(nodes: Nodes, index: map<nat, Path>, child: Path, value: Value, home: map<nat, Path>)
    requires Index(nodes, index) && AllAtHome(nodes, home) && child !in nodes && ValueAtHome(value, child, home)
    ensures value.Object? ==> value.id !in index
  {
  }

  method SetFirstValue(t: Tree, q: Path, value: Value, ghost home: map<nat, Path>)
    requires t.Valid() && Ready(t.nodes, home) && q in t.nodes && ValueAtHome(value, q, home)
    requires value.Object? ==> value.id !in t.valueToNode
    modifies t`nodes, t`valueToNode
    ensures t.Valid() && Ready(t.nodes, home)
    ensures t.nodes == old(t.nodes)[q := old(t.nodes)[q].(value := Some(value))]
  {
    ReadyWithValue(t.nodes, q, value, home);
    t.SetValue(q, Some(value));
  }

  lemma ReadyWithValue(nodes: Nodes, q: Path, value: Value, home: map<nat, Path>)
    requires Ready(nodes, home) && q in nodes && ValueAtHome(value, q, home)
    ensures Ready(nodes[q := nodes[q].(value := Some(value))], home)
  {
  }

  lemma UpdateTwice(nodes: Nodes, child: Path, n: Node, m: Node)
    ensures nodes[child := n][child := m] == nodes[child := m]
  {
  }

  /** newNode with its initial record and state, linked to its parent. */
  method AddNode(t: Tree, child: Path, attributes: Attributes, state: ValueState, next: VersionedTransition,
                 ghost home: map<nat, Path>)
    requires t.Valid() && Ready(t.nodes, home) && child != [] && Parent(child) in t.nodes && child !in t.nodes
    requires state.Rank() >= NeedSerialize.Rank()
    modifies t`nodes, t`isActiveStateDirty
    ensures t.Valid() && Ready(t.nodes, home)
    ensures t.nodes == old(t.nodes)[child := Node(Some(InitialRecord(attributes, next)), None, state, None)]
    ensures IsBlank(t.nodes[child], next, attributes, state) && t.nodes[child].value == None
    ensures t.isActiveStateDirty
  {
    ghost var before := t.nodes;
    var n := Node(Some(InitialRecord(attributes, next)), None, Undefined, None);
    AddingLeaf(t.nodes, t.valueToNode, child, n);
    t.nodes := t.nodes[child := n];
    t.SetValueState(child, state);
    UpdateTwice(before, child, n, n.(state := state));
  }

  lemma AddingLeaf(nodes: Nodes, valueToNode: map<nat, Path>, child: Path, n: Node)
    requires PrefixClosed(nodes) && Index(nodes, valueToNode) && child !in nodes && child != [] &&
             Parent(child) in nodes
    requires n.IndexedId() == None
    ensures PrefixClosed(nodes[child := n]) && Index(nodes[child := n], valueToNode)
  {
    forall p, c | Child(p, c) == child
      ensures p == Parent(child)
    {
    }
  }

  ghost predicate ContentReady(nodes: Nodes, content: Content, child: Path, rank: nat, home: map<nat, Path>) {
    && child != [] && Parent(child) in nodes
    && ContentOk(nodes, content, child) && ContentAtHome(content, child, home)
    && NodesOk(nodes, child) && RankOk(nodes, child, rank)
    && (content.Fresh? ==> Fits(content.value, rank))
  }

  method SyncSubField(t: Tree, child: Path, content: Content, next: VersionedTransition, ghost rank: nat,
                      ghost home: map<nat, Path>)
    returns (ok: bool, keep: bool, content': Content)
    requires t.Valid() && Ready(t.nodes, home) && ContentReady(t.nodes, content, child, rank, home)
    modifies t`nodes, t`valueToNode, t`deletedNodes, t`taskValueCache, t`isActiveStateDirty, t`needsPointerResolution
    ensures ok ==> t.Valid() && Ready(t.nodes, home)
    ensures ok ==> keep == !content.Empty? && content' == SettledContent(content)
    ensures ok ==> SameOutside(old(t.nodes), t.nodes, child)
    ensures ok && keep ==> ContentSyncedAt(old(t.nodes), t.nodes, content, child, next)
    ensures ok && !keep ==> t.nodes == old(t.nodes)
    ensures ok ==> DeletionsRecorded(old(t.nodes), t.nodes, child, old(t.deletedNodes), t.deletedNodes)
    ensures ok ==> FlagKept(old(t.nodes), old(t.needsPointerResolution), t.nodes, t.needsPointerResolution)
    ensures AllNamed(old(t.nodes), child) && ContentNamed(content, child) ==> ok
    ensures old(t.isActiveStateDirty) ==> t.isActiveStateDirty
    decreases rank, 3, 1
  {
    ok, keep, content' := true, true, SettledContent(content);
    match content {
      case Empty =>
        keep := false;
      case Fresh(kind, value, detached) =>
        ok := SyncFresh(t, child, kind, value, detached, next, rank, home);
      case Attached =>
        if t.nodes[child].IsComponent() && t.nodes[child].value.Some? {
          ok := SyncSubComponents(t, child, next, rank, home);
        }
      case AttachedDeferred(_) =>
    }
  }

  /** A value without node: it gets one, and so does what is in it. */
  method SyncFresh(t: Tree, child: Path, kind: FieldType, value: Value, detached: bool, next: VersionedTransition,
                   ghost rank: nat, ghost home: map<nat, Path>)
    returns (ok: bool)
    requires t.Valid() && Ready(t.nodes, home) && ContentReady(t.nodes, Fresh(kind, value, detached), child, rank, home)
    modifies t`nodes, t`valueToNode, t`deletedNodes, t`taskValueCache, t`isActiveStateDirty, t`needsPointerResolution
    ensures ok ==> t.Valid() && Ready(t.nodes, home)
    ensures ok ==> FreshSynced(old(t.nodes), t.nodes, Fresh(kind, value, detached), child, next, old(t.deletedNodes),
                               t.deletedNodes)
    ensures ok ==> FlagKept(old(t.nodes), old(t.needsPointerResolution), t.nodes, t.needsPointerResolution)
    ensures ValueNamed(value, child) ==> ok
    ensures t.isActiveStateDirty
    decreases rank, 3, 0
  {
    ok := true;
    ghost var before := t.nodes;
    NothingThere(before, child);
    AttachChild(t, child, kind, value, detached, next, home);
    ghost var attached, flag := t.nodes, t.needsPointerResolution;
    if kind == ComponentField {
      FreshChildReady(before, child, value, detached, next, rank, home);
      FreshNamed(before, child, value, detached, next);
      ok := SyncSubComponents(t, child, next, rank, home);
      if ok {
        FreshChildSynced(before, t.nodes, child, value, detached, next, old(t.deletedNodes), t.deletedNodes);
        FlagTwice(before, old(t.needsPointerResolution), attached, flag, t.nodes, t.needsPointerResolution);
      }
    } else {
      LeafSynced(before, t.nodes, Fresh(kind, value, detached), child, next, t.deletedNodes);
    }
  }

  lemma FreshChildReady(before: Nodes, child: Path, value: Value, detached: bool, next: VersionedTransition, rank: nat,
                        home: map<nat, Path>)
    requires PrefixClosed(before) && child !in before && FreshValue(ComponentField, value)
    requires Fits(value, rank)
    ensures var nodes := before[child := NewChild(ComponentField, value, detached, next)];
            NodesOk(nodes, child) && RankOk(nodes, child, rank)
  {
    var nodes := before[child := NewChild(ComponentField, value, detached, next)];
    NothingThere(before, child);
    FreshFieldsOk(nodes, value, child);
  }

  /** What becomes of a value without node. */
  ghost predicate FreshSynced(before: Nodes, after: Nodes, content: Content, child: Path, next: VersionedTransition,
                              deleted: set<string>, deleted': set<string>) {
    && SameOutside(before, after, child) && ContentSyncedAt(before, after, content, child, next)
    && DeletionsRecorded(before, after, child, deleted, deleted')
  }

  lemma FreshChildSynced(before: Nodes, after: Nodes, child: Path, value: Value, detached: bool,
                         next: VersionedTransition, deleted: set<string>, deleted': set<string>)
    requires PrefixClosed(before) && child !in before && FreshValue(ComponentField, value)
    requires var nodes := before[child := NewChild(ComponentField, value, detached, next)];
             && SameOutside(nodes, after, child) && SyncedAt(nodes, after, child, next)
             && DeletionsRecorded(nodes, after, child, deleted, deleted')
    ensures FreshSynced(before, after, Fresh(ComponentField, value, detached), child, next, deleted, deleted')
  {
    var nodes := before[child := NewChild(ComponentField, value, detached, next)];
    NothingThere(before, child);
    forall q | child <= q
      ensures Same(after, q) == ContentNode(before, Fresh(ComponentField, value, detached), child, q, next)
    {
      if q != child {
        FreshFieldNode(before, nodes, value.fields, child, q, next);
      }
    }
  }

  lemma LeafSynced(before: Nodes, after: Nodes, content: Content, child: Path, next: VersionedTransition,
                   deleted: set<string>)
    requires PrefixClosed(before) && child !in before && content.Fresh? && content.kind != ComponentField
    requires after == before[child := NewChild(content.kind, content.value, content.detached, next)]
    ensures FreshSynced(before, after, content, child, next, deleted, deleted)
  {
    NothingThere(before, child);
  }

  /** No value at or below `p` has changed. */
  ghost predicate Idle(nodes: Nodes, p: Path) {
    forall q | q in nodes && p <= q :: nodes[q].state != NeedSyncStructure
  }

  method SyncSubComponents(t: Tree, p: Path, next: VersionedTransition, ghost rank: nat, ghost home: map<nat, Path>)
    returns (ok: bool)
    requires t.Valid() && Ready(t.nodes, home) && p in t.nodes && NodesOk(t.nodes, p) && RankOk(t.nodes, p, rank)
    modifies t`nodes, t`valueToNode, t`deletedNodes, t`taskValueCache, t`isActiveStateDirty, t`needsPointerResolution
    ensures ok ==> t.Valid() && Ready(t.nodes, home)
    ensures ok ==> SameOutside(old(t.nodes), t.nodes, p) && SyncedAt(old(t.nodes), t.nodes, p, next)
    ensures ok ==> DeletionsRecorded(old(t.nodes), t.nodes, p, old(t.deletedNodes), t.deletedNodes)
    ensures ok ==> FlagKept(old(t.nodes), old(t.needsPointerResolution), t.nodes, t.needsPointerResolution)
    ensures AllNamed(old(t.nodes), p) ==> ok
    ensures old(t.isActiveStateDirty) ==> t.isActiveStateDirty
    ensures Idle(old(t.nodes), p) ==> ok && t.isActiveStateDirty == old(t.isActiveStateDirty) &&
                                      t.deletedNodes == old(t.deletedNodes) &&
                                      t.needsPointerResolution == old(t.needsPointerResolution)
    decreases rank, 2
  {
    if t.nodes[p].state.Rank() < NeedSyncStructure.Rank() {
      ok := SyncChildren(t, p, next, rank, home);
    } else {
      ok := SyncComponent(t, p, next, rank, home);
    }
  }

  /** The deletions so far, below the children `done` of the node at `p`. */
  ghost predicate DeletionsUnder(before: Nodes, after: Nodes, p: Path, done: set<string>, deleted: set<string>,
                                 deleted': set<string>) {
    && deleted <= deleted'
    && (forall q | q in before && UnderChild(p, done, q) && q !in after :: Key(before, q) in deleted')
    && (forall k | k in deleted' && k !in deleted ::
          Decoded(k).Ok? && UnderChild(p, done, Decoded(k).value) && Decoded(k).value !in after)
  }

  /** Only positions below the children `done` of `p` have changed. */
  ghost predicate SameOutsideChildren(before: Nodes, after: Nodes, p: Path, done: set<string>) {
    forall q | !UnderChild(p, done, q) :: Same(after, q) == Same(before, q)
  }

  lemma DeletionsOneMore(before: Nodes, mid: Nodes, after: Nodes, p: Path, done: set<string>, c: string,
                         deleted: set<string>, deleted1: set<string>, deleted2: set<string>)
    requires c !in done
    requires SameOutsideChildren(before, mid, p, done) && DeletionsUnder(before, mid, p, done, deleted, deleted1)
    requires SameOutside(mid, after, Child(p, c)) && DeletionsRecorded(mid, after, Child(p, c), deleted1, deleted2)
    ensures SameOutsideChildren(before, after, p, done + {c})
    ensures DeletionsUnder(before, after, p, done + {c}, deleted, deleted2)
  {
    UnderOneMore(p, done, c);
    forall q | !UnderChild(p, done + {c}, q)
      ensures Same(after, q) == Same(before, q)
    {
      assert Same(after, q) == Same(mid, q) && Same(mid, q) == Same(before, q);
    }
    forall q | q in before && UnderChild(p, done + {c}, q) && q !in after
      ensures Key(before, q) in deleted2
    {
      if UnderChild(p, done, q) {
        assert Same(after, q) == Same(mid, q);
      } else {
        assert Same(mid, q) == Same(before, q);
        KeyUnchanged(before, mid, p, done, c, q);
      }
    }
    forall k | k in deleted2 && k !in deleted
      ensures Decoded(k).Ok? && UnderChild(p, done + {c}, Decoded(k).value) && Decoded(k).value !in after
    {
      if k in deleted1 {
        assert Same(after, Decoded(k).value) == Same(mid, Decoded(k).value);
      }
    }
  }

  lemma KeyUnchanged(before: Nodes, mid: Nodes, p: Path, done: set<string>, c: string, q: Path)
    requires c !in done && Child(p, c) <= q && q in before && q in mid
    requires SameOutsideChildren(before, mid, p, done)
    ensures Key(mid, q) == Key(before, q)
  {
    UnderOneMore(p, done, c);
    assert Same(mid, q) == Same(before, q);
    assert !UnderChild(p, done, Parent(q));
    assert Same(mid, Parent(q)) == Same(before, Parent(q));
  }

  /** How far the loop over the children has got. */
  ghost predicate ChildrenProgress(before: Nodes, after: Nodes, p: Path, done: set<string>, next: VersionedTransition,
                                   deleted: set<string>, deleted': set<string>) {
    && SameOutsideChildren(before, after, p, done) && ChildrenSynced(before, after, p, done, next)
    && DeletionsUnder(before, after, p, done, deleted, deleted')
  }

  /** The loop over the children of a node that is in sync itself. */
  method SyncChildren(t: Tree, p: Path, next: VersionedTransition, ghost rank: nat, ghost home: map<nat, Path>)
    returns (ok: bool)
    requires t.Valid() && Ready(t.nodes, home) && p in t.nodes && NodesOk(t.nodes, p) && RankOk(t.nodes, p, rank)
    requires t.nodes[p].state != NeedSyncStructure
    modifies t`nodes, t`valueToNode, t`deletedNodes, t`taskValueCache, t`isActiveStateDirty, t`needsPointerResolution
    ensures ok ==> t.Valid() && Ready(t.nodes, home)
    ensures ok ==> SameOutside(old(t.nodes), t.nodes, p) && SyncedAt(old(t.nodes), t.nodes, p, next)
    ensures ok ==> DeletionsRecorded(old(t.nodes), t.nodes, p, old(t.deletedNodes), t.deletedNodes)
    ensures ok ==> FlagKept(old(t.nodes), old(t.needsPointerResolution), t.nodes, t.needsPointerResolution)
    ensures AllNamed(old(t.nodes), p) ==> ok
    ensures old(t.isActiveStateDirty) ==> t.isActiveStateDirty
    ensures Idle(old(t.nodes), p) ==> ok && t.isActiveStateDirty == old(t.isActiveStateDirty) &&
                                      t.deletedNodes == old(t.deletedNodes) &&
                                      t.needsPointerResolution == old(t.needsPointerResolution)
    decreases rank, 1
  {
    ok := true;
    ghost var before, deleted := t.nodes, t.deletedNodes;
    var names := Children(t.nodes, p);
    var todo := names;
    while todo != {}
      invariant todo <= names && t.Valid() && Ready(t.nodes, home)
      invariant ChildrenProgress(before, t.nodes, p, names - todo, next, deleted, t.deletedNodes)
      invariant old(t.isActiveStateDirty) ==> t.isActiveStateDirty
      invariant Idle(before, p) ==> t.isActiveStateDirty == old(t.isActiveStateDirty) && t.deletedNodes == deleted &&
                                    t.needsPointerResolution == old(t.needsPointerResolution)
      invariant FlagKept(before, old(t.needsPointerResolution), t.nodes, t.needsPointerResolution)
    {
      var c :| c in todo;
      ghost var done, mid, flag := names - todo, t.nodes, t.needsPointerResolution;
      ok := SyncChild(t, p, c, next, before, done, deleted, rank, home);
      if !ok {
        return;
      }
      FlagTwice(before, old(t.needsPointerResolution), mid, flag, t.nodes, t.needsPointerResolution);
      todo := todo - {c};
      assert names - todo == done + {c};
    }
    assert names - todo == names;
    AllChildrenSynced(before, t.nodes, p, next, deleted, t.deletedNodes);
  }

  /** One iteration of that loop. */
  method SyncChild(t: Tree, p: Path, c: string, next: VersionedTransition, ghost before: Nodes, ghost done: set<string>,
                   ghost deleted: set<string>, ghost rank: nat, ghost home: map<nat, Path>)
    returns (ok: bool)
    requires t.Valid() && Ready(t.nodes, home) && c in Children(before, p) && c !in done
    requires NodesOk(before, p) && RankOk(before, p, rank)
    requires ChildrenProgress(before, t.nodes, p, done, next, deleted, t.deletedNodes)
    modifies t`nodes, t`valueToNode, t`deletedNodes, t`taskValueCache, t`isActiveStateDirty, t`needsPointerResolution
    ensures ok ==> t.Valid() && Ready(t.nodes, home)
    ensures ok ==> ChildrenProgress(before, t.nodes, p, done + {c}, next, deleted, t.deletedNodes)
    ensures ok ==> FlagKept(old(t.nodes), old(t.needsPointerResolution), t.nodes, t.needsPointerResolution)
    ensures AllNamed(before, p) ==> ok
    ensures old(t.isActiveStateDirty) ==> t.isActiveStateDirty
    ensures Idle(before, p) ==> ok && t.isActiveStateDirty == old(t.isActiveStateDirty) &&
                                t.deletedNodes == old(t.deletedNodes) &&
                                t.needsPointerResolution == old(t.needsPointerResolution)
    decreases rank, 0
  {
    ghost var mid, deleted1 := t.nodes, t.deletedNodes;
    ChildrenAt(before, p, c);
    ChildUntouched(before, mid, p, done, c, rank);
    IdleBelow(before, mid, p, c);
    NamedLocal(before, mid, p, Child(p, c));
    ok := SyncSubComponents(t, Child(p, c), next, rank - 1, home);
    if ok {
      DeletionsOneMore(before, mid, t.nodes, p, done, c, deleted, deleted1, t.deletedNodes);
      ChildrenSyncedOneMore(before, mid, t.nodes, p, done, c, next);
    }
  }

  ghost predicate ChildrenSynced(before: Nodes, after: Nodes, p: Path, done: set<string>, next: VersionedTransition) {
    forall q | UnderChild(p, done, q) ::
      Same(after, q) == if Child(p, q[|p|]) in before then SyncedNode(before, Child(p, q[|p|]), q, next) else None
  }

  lemma IdleBelow(before: Nodes, mid: Nodes, p: Path, c: string)
    requires Agree(before, mid, Child(p, c))
    ensures Idle(before, p) ==> Idle(mid, Child(p, c))
  {
    forall q | q in mid && Child(p, c) <= q
      ensures q in before && before[q] == mid[q] && p <= q
    {
      assert Same(before, q) == Same(mid, q);
    }
  }

  /** The child is as it was, so what is required of it still holds. */
  lemma ChildUntouched(before: Nodes, mid: Nodes, p: Path, done: set<string>, c: string, rank: nat)
    requires c !in done && SameOutsideChildren(before, mid, p, done)
    requires Child(p, c) in before && NodesOk(before, p) && RankOk(before, p, rank)
    ensures Agree(before, mid, Child(p, c)) && Child(p, c) in mid && rank > 0
    ensures NodesOk(mid, Child(p, c)) && RankOk(mid, Child(p, c), rank - 1)
  {
    UnderOneMore(p, done, c);
    var child := Child(p, c);
    assert p <= child;
    forall q | child <= q
      ensures Same(mid, q) == Same(before, q)
    {
    }
    AgreeBelow(before, mid, child, child);
    NodesOkLocal(before, mid, child);
    RankOkLocal(before, mid, p, child, rank);
  }

  lemma NodesOkLocal(before: Nodes, mid: Nodes, p: Path)
    requires Agree(before, mid, p) && NodesOk(before, p)
    ensures NodesOk(mid, p)
  {
    forall q | q in mid && p <= q
      ensures NodeOk(mid, q)
    {
      AgreeBelow(before, mid, p, q);
      assert NodeOk(before, q);
      if mid[q].state == NeedSyncStructure {
        forall f | f in mid[q].value.value.fields
          ensures FieldOk(mid, mid[q].value.value.fields[f], Child(q, f))
        {
          AgreeBelow(before, mid, p, Child(q, f));
          FieldOkLocal(before, mid, mid[q].value.value.fields[f], Child(q, f));
        }
      }
    }
  }

  lemma FieldOkLocal(before: Nodes, mid: Nodes, f: Field, child: Path)
    requires Agree(before, mid, child) && FieldOk(before, f, child)
    ensures FieldOk(mid, f, child)
  {
    AgreeBelow(before, mid, child, child);
    if f.SubMap? {
      forall k | k in f.items
        ensures ContentOk(mid, f.items[k], Child(child, k))
      {
        AgreeBelow(before, mid, child, Child(child, k));
      }
    }
  }

  lemma ChildrenSyncedOneMore(before: Nodes, mid: Nodes, after: Nodes, p: Path, done: set<string>, c: string,
                              next: VersionedTransition)
    requires c !in done && Child(p, c) in before && Child(p, c) in mid && Agree(before, mid, Child(p, c))
    requires ChildrenSynced(before, mid, p, done, next)
    requires SameOutside(mid, after, Child(p, c)) && SyncedAt(mid, after, Child(p, c), next)
    ensures ChildrenSynced(before, after, p, done + {c}, next)
  {
    UnderOneMore(p, done, c);
    forall q | UnderChild(p, done + {c}, q)
      ensures Same(after, q) == if Child(p, q[|p|]) in before then SyncedNode(before, Child(p, q[|p|]), q, next)
                                else None
    {
      if Child(p, c) <= q {
        SyncedNodeLocal(before, mid, Child(p, c), q, next);
      } else {
        assert Same(after, q) == Same(mid, q);
      }
    }
  }

  lemma AllChildrenSynced(before: Nodes, after: Nodes, p: Path, next: VersionedTransition, deleted: set<string>,
                          deleted': set<string>)
    requires PrefixClosed(before) && p in before && before[p].state != NeedSyncStructure
    requires SameOutsideChildren(before, after, p, Children(before, p))
    requires ChildrenSynced(before, after, p, Children(before, p), next)
    requires DeletionsUnder(before, after, p, Children(before, p), deleted, deleted')
    ensures SameOutside(before, after, p) && SyncedAt(before, after, p, next)
    ensures DeletionsRecorded(before, after, p, deleted, deleted')
  {
    OnlyChildrenBelow(before, p);
    assert Same(after, p) == Same(before, p);
    forall q | p <= q
      ensures Same(after, q) == SyncedNode(before, p, q, next)
    {
      if q != p && !UnderChild(p, Children(before, p), q) {
        ChildrenAt(before, p, q[|p|]);
        assert Same(after, q) == Same(before, q);
      }
    }
  }

  // ----- The fields of a component

  ghost predicate FieldReady(nodes: Nodes, field: Field, child: Path, rank: nat, home: map<nat, Path>) {
    && child != [] && Parent(child) in nodes
    && FieldOk(nodes, field, child) && FieldAtHome(field, child, home)
    && NodesOk(nodes, child) && RankOk(nodes, child, rank) && FieldFits(field, rank + 1)
  }

  ghost predicate FieldSyncedAt(before: Nodes, after: Nodes, field: Field, child: Path, next: VersionedTransition) {
    forall q | child <= q :: Same(after, q) == FieldAt(before, field, child, q, next)
  }

  /** Nothing has happened at `child` but perhaps the creation of an empty collection. */
  ghost predicate AtMostCollection(before: Nodes, after: Nodes, child: Path) {
    forall q | child <= q :: Same(after, q) == Same(before, q) || (q == child && child !in before)
  }

  /** The switch over the kinds of a field. */
  method SyncField(t: Tree, child: Path, field: Field, next: VersionedTransition, ghost rank: nat,
                   ghost home: map<nat, Path>)
    returns (ok: bool, keep: bool, field': Field)
    requires t.Valid() && Ready(t.nodes, home) && FieldReady(t.nodes, field, child, rank, home)
    modifies t`nodes, t`valueToNode, t`deletedNodes, t`taskValueCache, t`isActiveStateDirty, t`needsPointerResolution
    ensures ok ==> t.Valid() && Ready(t.nodes, home)
    ensures ok ==> keep == KeptField(field) && field' == SettledField(field)
    ensures ok ==> SameOutside(old(t.nodes), t.nodes, child)
    ensures ok && keep ==> FieldSyncedAt(old(t.nodes), t.nodes, field, child, next)
    ensures ok && !keep ==> AtMostCollection(old(t.nodes), t.nodes, child)
    ensures ok ==> DeletionsRecorded(old(t.nodes), t.nodes, child, old(t.deletedNodes), t.deletedNodes)
    ensures ok && !keep && field != SubMap(map[]) ==> t.nodes == old(t.nodes)
    ensures ok ==> FlagKept(old(t.nodes), old(t.needsPointerResolution), t.nodes, t.needsPointerResolution)
    ensures AllNamed(old(t.nodes), child) && FieldNamed(field, child) ==> ok
    ensures old(t.isActiveStateDirty) ==> t.isActiveStateDirty
    decreases rank, 4
  {
    ok, keep, field' := true, false, field;
    match field {
      case SubField(content) =>
        var content';
        assert ContentFits(content, rank + 1);
        ok, keep, content' := SyncSubField(t, child, content, next, rank, home);
        field' := SubField(content');
      case NilMap =>
      case SubMap(items) =>
        ok, keep, field' := SyncMap(t, child, items, next, rank, home);
    }
  }

  /** A field that is a map: its collection, if it has none yet, and its items. */
  method SyncMap(t: Tree, child: Path, items: map<string, Content>, next: VersionedTransition, ghost rank: nat,
                 ghost home: map<nat, Path>)
    returns (ok: bool, keep: bool, field': Field)
    requires t.Valid() && Ready(t.nodes, home) && FieldReady(t.nodes, SubMap(items), child, rank, home)
    modifies t`nodes, t`valueToNode, t`deletedNodes, t`taskValueCache, t`isActiveStateDirty, t`needsPointerResolution
    ensures ok ==> t.Valid() && Ready(t.nodes, home)
    ensures ok ==> keep == (items != map[]) && field' == SettledField(SubMap(items))
    ensures ok ==> MapSynced(old(t.nodes), t.nodes, items, child, next, old(t.deletedNodes), t.deletedNodes)
    ensures ok ==> FlagKept(old(t.nodes), old(t.needsPointerResolution), t.nodes, t.needsPointerResolution)
    ensures AllNamed(old(t.nodes), child) && FieldNamed(SubMap(items), child) ==> ok
    ensures old(t.isActiveStateDirty) ==> t.isActiveStateDirty
    decreases rank, 3, 1
  {
    ok, keep, field' := true, items != map[], SettledField(SubMap(items));
    ghost var before := t.nodes;
    EnsureCollection(t, child, items, next, rank, home);
    ghost var attached := t.nodes;
    if |items| == 0 {
      return;
    }
    var items';
    ok, items' := SyncItems(t, child, items, next, rank, home);
    field' := SubMap(items');
    if ok {
      AllItemsSettled(items);
      CollectionSynced(before, attached, t.nodes, items, child, next, old(t.deletedNodes), t.deletedNodes);
      FlagTwice(before, old(t.needsPointerResolution), attached, old(t.needsPointerResolution), t.nodes,
                t.needsPointerResolution);
    }
  }

  /** The collection of a map, created if there is none yet. */
  method EnsureCollection(t: Tree, child: Path, items: map<string, Content>, next: VersionedTransition,
                          ghost rank: nat, ghost home: map<nat, Path>)
    requires t.Valid() && Ready(t.nodes, home) && FieldReady(t.nodes, SubMap(items), child, rank, home)
    modifies t`nodes, t`isActiveStateDirty
    ensures t.Valid() && Ready(t.nodes, home)
    ensures t.nodes == if child in old(t.nodes) then old(t.nodes) else old(t.nodes)[child := NewCollection(next)]
    ensures ItemsReady(t.nodes, items, child, rank, home) && AtMostCollection(old(t.nodes), t.nodes, child)
    ensures AllNamed(old(t.nodes), child) ==> AllNamed(t.nodes, child)
    ensures FlagKept(old(t.nodes), t.needsPointerResolution, t.nodes, t.needsPointerResolution)
    ensures DeletionsRecorded(old(t.nodes), t.nodes, child, t.deletedNodes, t.deletedNodes)
    ensures old(t.isActiveStateDirty) ==> t.isActiveStateDirty
  {
    ghost var before := t.nodes;
    if child !in t.nodes {
      AttachCollection(t, child, next, home);
    }
    CollectionReady(before, t.nodes, items, child, next, rank, home);
    CollectionNamed(before, t.nodes, child, next);
  }

  method AttachCollection(t: Tree, child: Path, next: VersionedTransition, ghost home: map<nat, Path>)
    requires t.Valid() && Ready(t.nodes, home) && child != [] && Parent(child) in t.nodes && child !in t.nodes
    modifies t`nodes, t`isActiveStateDirty
    ensures t.Valid() && Ready(t.nodes, home)
    ensures t.nodes == old(t.nodes)[child := NewCollection(next)]
    ensures t.isActiveStateDirty
  {
    AddNode(t, child, Collection, NeedSyncStructure, next, home);
  }

  /** The collection as SyncItems expects it. */
  ghost predicate ItemsReady(nodes: Nodes, items: map<string, Content>, p: Path, rank: nat, home: map<nat, Path>) {
    && p in nodes && nodes[p].IsMap() && nodes[p].value == None
    && (forall k | k in items :: ContentOk(nodes, items[k], Child(p, k)) && ContentAtHome(items[k], Child(p, k), home))
    && (forall r | r in nodes && p <= r && r != p :: NodeOk(nodes, r))
    && RankOk(nodes, p, rank)
    && (forall k | k in items :: rank > 0 && ContentFits(items[k], rank))
  }

  lemma CollectionReady(before: Nodes, attached: Nodes, items: map<string, Content>, child: Path,
                        next: VersionedTransition, rank: nat, home: map<nat, Path>)
    requires PrefixClosed(before) && FieldReady(before, SubMap(items), child, rank, home)
    requires attached == if child in before then before else before[child := NewCollection(next)]
    ensures ItemsReady(attached, items, child, rank, home)
    ensures AtMostCollection(before, attached, child)
  {
    if child !in before {
      NothingThere(before, child);
    }
    forall k | k in items
      ensures ContentOk(attached, items[k], Child(child, k)) && ContentAtHome(items[k], Child(child, k), home)
      ensures rank > 0 && ContentFits(items[k], rank)
    {
      assert ContentOk(before, items[k], Child(child, k));
    }
    forall r | r in attached && child <= r && r != child
      ensures NodeOk(attached, r)
    {
      assert attached == before;
    }
  }

  /** What becomes of a map and its collection. */
  ghost predicate MapSynced(before: Nodes, after: Nodes, items: map<string, Content>, child: Path,
                            next: VersionedTransition, deleted: set<string>, deleted': set<string>) {
    && SameOutside(before, after, child) && DeletionsRecorded(before, after, child, deleted, deleted')
    && if items == map[] then AtMostCollection(before, after, child)
       else FieldSyncedAt(before, after, SubMap(items), child, next)
  }

  lemma CollectionSynced(before: Nodes, attached: Nodes, after: Nodes, items: map<string, Content>, child: Path,
                         next: VersionedTransition, deleted: set<string>, deleted': set<string>)
    requires PrefixClosed(before) && items != map[]
    requires attached == if child in before then before else before[child := NewCollection(next)]
    requires SameOutside(attached, after, child) && ItemsSyncedAt(attached, after, items, child, next)
    requires DeletionsRecorded(attached, after, child, deleted, deleted')
    ensures MapSynced(before, after, items, child, next, deleted, deleted')
  {
    if child !in before {
      NothingThere(before, child);
      SyncedInNewCollection(before, attached, items, child, next);
    }
  }

  lemma SyncedInNewCollection(before: Nodes, attached: Nodes, items: map<string, Content>, child: Path,
                              next: VersionedTransition)
    requires PrefixClosed(before) && items != map[] && child !in before &&
             attached == before[child := NewCollection(next)]
    ensures forall q | child <= q ::
              ItemNode(attached, items, child, q, next) == ItemNode(before, items, child, q, next)
  {
    NothingThere(before, child);
    forall q | child <= q && q != child && q[|child|] in items
      ensures ItemNode(attached, items, child, q, next) == ItemNode(before, items, child, q, next)
    {
      var item := Child(child, q[|child|]);
      assert child <= item;
      forall r | item <= r
        ensures Same(attached, r) == Same(before, r)
      {
        assert child <= r && r != child;
      }
      ContentNodeLocal(attached, before, items[q[|child|]], item, q, next);
    }
  }

  ghost predicate ItemsSyncedAt(before: Nodes, after: Nodes, items: map<string, Content>, p: Path,
                                next: VersionedTransition) {
    forall q | p <= q :: Same(after, q) == ItemNode(before, items, p, q, next)
  }

  method SyncItems(t: Tree, p: Path, items: map<string, Content>, next: VersionedTransition, ghost rank: nat,
                   ghost home: map<nat, Path>)
    returns (ok: bool, items': map<string, Content>)
    requires t.Valid() && Ready(t.nodes, home) && ItemsReady(t.nodes, items, p, rank, home) && items != map[]
    modifies t`nodes, t`valueToNode, t`deletedNodes, t`taskValueCache, t`isActiveStateDirty, t`needsPointerResolution
    ensures ok ==> t.Valid() && Ready(t.nodes, home)
    ensures ok ==> items' == SettledItems(items, items.Keys)
    ensures ok ==> SameOutside(old(t.nodes), t.nodes, p) && ItemsSyncedAt(old(t.nodes), t.nodes, items, p, next)
    ensures ok ==> DeletionsRecorded(old(t.nodes), t.nodes, p, old(t.deletedNodes), t.deletedNodes)
    ensures ok ==> FlagKept(old(t.nodes), old(t.needsPointerResolution), t.nodes, t.needsPointerResolution)
    ensures AllNamed(old(t.nodes), p) && FieldNamed(SubMap(items), p) ==> ok
    ensures old(t.isActiveStateDirty) ==> t.isActiveStateDirty
    decreases rank, 0, 1
  {
    ok, items' := true, map[];
    ghost var before, deleted := t.nodes, t.deletedNodes;
    var keep := {};
    var todo := items.Keys;
    ghost var done: set<string> := {};
    while todo != {}
      invariant Parted(todo, done, items.Keys) && t.Valid() && Ready(t.nodes, home)
      invariant items' == SettledItems(items, done) && keep == KeptItems(items, done)
      invariant ItemsProgress(before, t.nodes, items, p, done, next, deleted, t.deletedNodes)
      invariant old(t.isActiveStateDirty) ==> t.isActiveStateDirty
      invariant FlagKept(before, old(t.needsPointerResolution), t.nodes, t.needsPointerResolution)
    {
      var k :| k in todo;
      ghost var mid, flag := t.nodes, t.needsPointerResolution;
      var kept, content';
      ok, kept, content' := SyncItem(t, p, items, k, next, before, done, deleted, rank, home);
      if !ok {
        return;
      }
      FlagTwice(before, old(t.needsPointerResolution), mid, flag, t.nodes, t.needsPointerResolution);
      SettledOneMore(items, done, k);
      PartedOneMore(todo, done, items.Keys, k);
      todo, done := todo - {k}, done + {k};
      items' := items'[k := content'];
      keep := if kept then keep + {k} else keep;
    }
    assert done == items.Keys;
    ghost var mid, flag := t.nodes, t.needsPointerResolution;
    ok := FinishCollection(t, p, items, keep, next, before, deleted, home);
    if ok {
      FlagTwice(before, old(t.needsPointerResolution), mid, flag, t.nodes, t.needsPointerResolution);
    }
  }

  /** One iteration of that loop. */
  method SyncItem(t: Tree, p: Path, items: map<string, Content>, k: string, next: VersionedTransition,
                  ghost before: Nodes, ghost done: set<string>, ghost deleted: set<string>, ghost rank: nat,
                  ghost home: map<nat, Path>)
    returns (ok: bool, keep: bool, content': Content)
    requires t.Valid() && Ready(t.nodes, home) && done <= items.Keys && k in items && k !in done
    requires ItemsReady(before, items, p, rank, home)
    requires ItemsProgress(before, t.nodes, items, p, done, next, deleted, t.deletedNodes)
    modifies t`nodes, t`valueToNode, t`deletedNodes, t`taskValueCache, t`isActiveStateDirty, t`needsPointerResolution
    ensures ok ==> t.Valid() && Ready(t.nodes, home)
    ensures ok ==> keep == !items[k].Empty? && content' == SettledContent(items[k])
    ensures ok ==> ItemsProgress(before, t.nodes, items, p, done + {k}, next, deleted, t.deletedNodes)
    ensures ok ==> FlagKept(old(t.nodes), old(t.needsPointerResolution), t.nodes, t.needsPointerResolution)
    ensures AllNamed(before, p) && FieldNamed(SubMap(items), p) ==> ok
    ensures old(t.isActiveStateDirty) ==> t.isActiveStateDirty
    decreases rank, 0, 0
  {
    ghost var mid, deleted1 := t.nodes, t.deletedNodes;
    ItemUntouched(before, mid, items, p, done, k, rank, home);
    ItemNamed(before, mid, items, p, done, k);
    ok, keep, content' := SyncSubField(t, Child(p, k), items[k], next, rank - 1, home);
    if ok {
      ItemsStep(before, mid, t.nodes, items, p, done, k, next, deleted, deleted1, t.deletedNodes);
    }
  }

  lemma ItemNamed(before: Nodes, mid: Nodes, items: map<string, Content>, p: Path, done: set<string>, k: string)
    requires SameOutsideChildren(before, mid, p, done) && k !in done && k in items
    ensures AllNamed(before, p) ==> AllNamed(mid, Child(p, k))
    ensures FieldNamed(SubMap(items), p) ==> ContentNamed(items[k], Child(p, k))
  {
    UnderOneMore(p, done, k);
    NamedLocal(before, mid, p, Child(p, k));
  }

  lemma SettledOneMore(items: map<string, Content>, done: set<string>, k: string)
    requires k in items && k !in done
    ensures SettledItems(items, done + {k}) == SettledItems(items, done)[k := SettledContent(items[k])]
    ensures KeptItems(items, done + {k}) == if items[k].Empty? then KeptItems(items, done)
                                            else KeptItems(items, done) + {k}
  {
  }

  function SettledItems(items: map<string, Content>, done: set<string>): map<string, Content> {
    map k | k in items && k in done :: SettledContent(items[k])
  }

  lemma AllItemsSettled(items: map<string, Content>)
    ensures SettledField(SubMap(items)) == SubMap(SettledItems(items, items.Keys))
  {
  }

  function KeptItems(items: map<string, Content>, done: set<string>): set<string> {
    set k | k in items && k in done && !items[k].Empty?
  }

  /** How far the loop over the items of a collection has got. */
  ghost predicate ItemsProgress(before: Nodes, after: Nodes, items: map<string, Content>, p: Path, done: set<string>,
                                next: VersionedTransition, deleted: set<string>, deleted': set<string>)
    requires done <= items.Keys
  {
    && SameOutsideChildren(before, after, p, done)
    && ItemsDone(before, after, items, p, done, next)
    && DeletionsUnder(before, after, p, done, deleted, deleted')
  }

  lemma ItemsStep(before: Nodes, mid: Nodes, after: Nodes, items: map<string, Content>, p: Path, done: set<string>,
                  k: string, next: VersionedTransition, deleted: set<string>, deleted1: set<string>,
                  deleted2: set<string>)
    requires done <= items.Keys && k in items && k !in done && Agree(before, mid, Child(p, k))
    requires ItemsProgress(before, mid, items, p, done, next, deleted, deleted1)
    requires SameOutside(mid, after, Child(p, k)) && DeletionsRecorded(mid, after, Child(p, k), deleted1, deleted2)
    requires if items[k].Empty? then after == mid else ContentSyncedAt(mid, after, items[k], Child(p, k), next)
    ensures ItemsProgress(before, after, items, p, done + {k}, next, deleted, deleted2)
  {
    DeletionsOneMore(before, mid, after, p, done, k, deleted, deleted1, deleted2);
    ItemsDoneOneMore(before, mid, after, items, p, done, k, next);
  }

  /** What the loop over the fields or items at `p` has left for deleteChildren to finish. */
  ghost predicate LoopDone(before: Nodes, mid: Nodes, p: Path, done: set<string>, keep: set<string>,
                           deleted: set<string>, deleted1: set<string>) {
    && PrefixClosed(before) && p in before && keep <= done
    && SameOutsideChildren(before, mid, p, done) && DeletionsUnder(before, mid, p, done, deleted, deleted1)
    && UnkeptAsBefore(before, mid, p, keep)
  }

  /** The tree after deleteChildren: kept children are as the loop left them, no other is there. */
  ghost predicate OnlyKept(before: Nodes, mid: Nodes, after: Nodes, p: Path, keep: set<string>, deleted: set<string>,
                           deleted': set<string>) {
    && SameOutside(before, after, p) && p in before && p in after && after[p] == before[p]
    && (forall q | p <= q && q != p :: Same(after, q) == if q[|p|] in keep then Same(mid, q) else None)
    && DeletionsRecorded(before, after, p, deleted, deleted')
  }

  method DeleteChildren(t: Tree, p: Path, keep: set<string>, ghost before: Nodes, ghost done: set<string>,
                        ghost deleted: set<string>, ghost home: map<nat, Path>) returns (ok: bool)
    requires t.Valid() && Ready(t.nodes, home) && p in t.nodes
    requires LoopDone(before, t.nodes, p, done, keep, deleted, t.deletedNodes)
    modifies t`nodes, t`valueToNode, t`deletedNodes, t`taskValueCache
    ensures ok ==> t.Valid() && Ready(t.nodes, home)
    ensures ok ==> OnlyKept(before, old(t.nodes), t.nodes, p, keep, deleted, t.deletedNodes)
    ensures ok ==> FlagKept(old(t.nodes), t.needsPointerResolution, t.nodes, t.needsPointerResolution)
    ensures ok <==> EncodableUnder(old(t.nodes), p, Children(old(t.nodes), p) - keep)
  {
    ghost var mid, deleted1 := t.nodes, t.deletedNodes;
    var gone := Children(t.nodes, p) - keep;
    ok := t.DeleteAll(p, gone, LongestPath(t.nodes));
    if ok {
      ReadyRest(mid, p, gone, home);
      GoneDeleted(before, mid, p, done, keep, deleted, deleted1);
    }
  }

  lemma ReadyRest(nodes: Nodes, p: Path, names: set<string>, home: map<nat, Path>)
    requires Ready(nodes, home)
    ensures Ready(WithoutChildren(nodes, p, names), home)
  {
  }

  /** Deletes the items that are gone from the map; the collection node itself is to be
      serialized if it is new. */
  method FinishCollection(t: Tree, p: Path, items: map<string, Content>, keep: set<string>, next: VersionedTransition,
                          ghost before: Nodes, ghost deleted: set<string>, ghost home: map<nat, Path>)
    returns (ok: bool)
    requires t.Valid() && Ready(t.nodes, home) && PrefixClosed(before) && p in before && before[p].IsMap() &&
             before[p].value == None && items != map[]
    requires ItemsProgress(before, t.nodes, items, p, items.Keys, next, deleted, t.deletedNodes)
    requires keep == KeptItems(items, items.Keys)
    modifies t`nodes, t`valueToNode, t`deletedNodes, t`taskValueCache, t`isActiveStateDirty, t`needsPointerResolution
    ensures ok ==> t.Valid() && Ready(t.nodes, home)
    ensures ok ==> SameOutside(before, t.nodes, p) && ItemsSyncedAt(before, t.nodes, items, p, next)
    ensures ok ==> DeletionsRecorded(before, t.nodes, p, deleted, t.deletedNodes)
    ensures ok ==> FlagKept(old(t.nodes), old(t.needsPointerResolution), t.nodes, t.needsPointerResolution)
    ensures AllNamed(before, p) ==> ok
    ensures old(t.isActiveStateDirty) ==> t.isActiveStateDirty
  {
    ghost var mid := t.nodes;
    CollectionNodeUnchanged(before, mid, items, p, next);
    UnkeptItems(before, mid, items, p, keep, next);
    UnkeptNamed(before, mid, p, keep);
    ok := DeleteChildren(t, p, keep, before, items.Keys, deleted, home);
    if !ok {
      return;
    }
    ghost var after, flag := t.nodes, t.needsPointerResolution;
    LowerState(t, p, home);
    FlagTwice(mid, flag, after, flag, t.nodes, flag);
    CollectionFinished(before, mid, after, t.nodes, items, p, keep, next, deleted, t.deletedNodes);
  }

  method LowerState(t: Tree, p: Path, ghost home: map<nat, Path>)
    requires t.Valid() && Ready(t.nodes, home) && p in t.nodes
    modifies t`nodes, t`isActiveStateDirty
    ensures t.Valid() && Ready(t.nodes, home) && (old(t.isActiveStateDirty) ==> t.isActiveStateDirty)
    ensures t.nodes == old(t.nodes)[p := Lowered(old(t.nodes)[p])]
    ensures FlagKept(old(t.nodes), t.needsPointerResolution, t.nodes, t.needsPointerResolution)
  {
    var state := t.nodes[p].state;
    t.SetValueState(p, if state.Rank() < NeedSerialize.Rank() then state else NeedSerialize);
    assert t.nodes[p] == Lowered(old(t.nodes)[p]);
  }

  lemma CollectionNodeUnchanged(before: Nodes, mid: Nodes, items: map<string, Content>, p: Path,
                                next: VersionedTransition)
    requires SameOutsideChildren(before, mid, p, items.Keys) && p in before
    ensures p in mid && mid[p] == before[p]
  {
    assert Same(mid, p) == Same(before, p);
  }

  ghost predicate UnkeptAsBefore(before: Nodes, mid: Nodes, p: Path, keep: set<string>) {
    forall q | p <= q && q != p && q[|p|] !in keep :: Same(mid, q) == Same(before, q) || q !in before
  }

  lemma UnkeptItems(before: Nodes, mid: Nodes, items: map<string, Content>, p: Path, keep: set<string>,
                    next: VersionedTransition)
    requires SameOutsideChildren(before, mid, p, items.Keys) && ItemsDone(before, mid, items, p, items.Keys, next)
    requires keep == KeptItems(items, items.Keys)
    ensures UnkeptAsBefore(before, mid, p, keep)
  {
  }

  /** Deleting the children of `p` that are not kept completes what the loop over its fields
      or items has done. */
  lemma GoneDeleted(before: Nodes, mid: Nodes, p: Path, done: set<string>, keep: set<string>, deleted: set<string>,
                    deleted1: set<string>)
    requires PrefixClosed(mid) && p in mid && CachedKeysDecode(mid) &&
             LoopDone(before, mid, p, done, keep, deleted, deleted1)
    requires EncodableUnder(mid, p, Children(mid, p) - keep)
    ensures var gone := Children(mid, p) - keep;
            OnlyKept(before, mid, WithoutChildren(mid, p, gone), p, keep, deleted, deleted1 + KeysUnder(mid, p, gone))
  {
    var gone := Children(mid, p) - keep;
    var after := WithoutChildren(mid, p, gone);
    OnlyChildrenBelow(mid, p);
    assert Same(mid, p) == Same(before, p);
    forall q | p <= q && q != p
      ensures Same(after, q) == if q[|p|] in keep then Same(mid, q) else None
    {
      assert q in mid ==> UnderChild(p, Children(mid, p), q);
    }
    assert SameOutside(before, after, p) by {
      forall q | !(p <= q)
        ensures Same(after, q) == Same(before, q)
      {
        assert Same(mid, q) == Same(before, q);
      }
    }
    GoneRecorded(before, mid, after, p, done, keep, deleted, deleted1, deleted1 + KeysUnder(mid, p, gone));
  }

  lemma GoneRecorded(before: Nodes, mid: Nodes, after: Nodes, p: Path, done: set<string>, keep: set<string>,
                     deleted: set<string>, deleted1: set<string>, deleted2: set<string>)
    requires PrefixClosed(before) && p in before && CachedKeysDecode(mid) && keep <= done
    requires SameOutsideChildren(before, mid, p, done) && DeletionsUnder(before, mid, p, done, deleted, deleted1)
    requires UnkeptAsBefore(before, mid, p, keep)
    requires var gone := Children(mid, p) - keep;
             after == WithoutChildren(mid, p, gone) && EncodableUnder(mid, p, gone) &&
               deleted2 == deleted1 + KeysUnder(mid, p, gone)
    requires forall q | p <= q && q != p :: Same(after, q) == if q[|p|] in keep then Same(mid, q) else None
    ensures DeletionsRecorded(before, after, p, deleted, deleted2)
  {
    var gone := Children(mid, p) - keep;
    assert Same(mid, p) == Same(before, p);
    forall q | q in before && p <= q && q !in after
      ensures Key(before, q) in deleted2
    {
      if q in mid {
        assert UnderChild(p, gone, q);
        UnkeptKey(before, mid, p, done, keep, q);
      } else {
        assert Same(mid, q) != Same(before, q);
        assert UnderChild(p, done, q);
      }
    }
    forall k | k in deleted2 && k !in deleted
      ensures Decoded(k).Ok? && p <= Decoded(k).value && Decoded(k).value !in after
    {
      if k in deleted1 {
        assert Decoded(k).value !in mid;
      } else {
        var q :| q in mid && UnderChild(p, gone, q) && Key(mid, q) == k;
        KeyDecodes(mid, q);
      }
    }
  }

  lemma UnkeptKey(before: Nodes, mid: Nodes, p: Path, done: set<string>, keep: set<string>, q: Path)
    requires PrefixClosed(before) && UnkeptAsBefore(before, mid, p, keep) && SameOutsideChildren(before, mid, p, done)
    requires p <= q && q != p && q[|p|] !in keep && q in before && q in mid
    ensures Key(mid, q) == Key(before, q)
  {
    assert Same(mid, q) == Same(before, q);
    assert q == Child(Parent(q), q[|q| - 1]) && Parent(q) in before && p <= Parent(q);
    if Parent(q) == p {
      assert Same(mid, p) == Same(before, p);
    } else {
      assert Same(mid, Parent(q)) == Same(before, Parent(q));
    }
  }

  lemma CollectionFinished(before: Nodes, mid: Nodes, after: Nodes, final: Nodes, items: map<string, Content>, p: Path,
                           keep: set<string>, next: VersionedTransition, deleted: set<string>, deleted': set<string>)
    requires OnlyKept(before, mid, after, p, keep, deleted, deleted') && items != map[]
    requires ItemsDone(before, mid, items, p, items.Keys, next) && keep == KeptItems(items, items.Keys)
    requires final == after[p := Lowered(after[p])]
    ensures SameOutside(before, final, p) && ItemsSyncedAt(before, final, items, p, next)
    ensures DeletionsRecorded(before, final, p, deleted, deleted')
  {
    forall q | !(p <= q)
      ensures Same(final, q) == Same(before, q)
    {
      assert Same(after, q) == Same(before, q);
    }
    forall q | p <= q
      ensures Same(final, q) == ItemNode(before, items, p, q, next)
    {
      if q != p {
        assert Same(final, q) == Same(after, q);
        if q[|p|] in keep {
          assert UnderChild(p, items.Keys, q);
        }
      }
    }
  }

  ghost predicate ItemsDone(before: Nodes, after: Nodes, items: map<string, Content>, p: Path, done: set<string>,
                            next: VersionedTransition)
    requires done <= items.Keys
  {
    forall q | UnderChild(p, done, q) ::
      Same(after, q) == if items[q[|p|]].Empty? then Same(before, q)
                        else ContentNode(before, items[q[|p|]], Child(p, q[|p|]), q, next)
  }

  lemma ItemUntouched(before: Nodes, mid: Nodes, items: map<string, Content>, p: Path, done: set<string>, k: string,
                      rank: nat, home: map<nat, Path>)
    requires k in items && k !in done && SameOutsideChildren(before, mid, p, done)
    requires ItemsReady(before, items, p, rank, home)
    ensures Agree(before, mid, Child(p, k))
    ensures rank > 0 && ContentReady(mid, items[k], Child(p, k), rank - 1, home)
  {
    UnderOneMore(p, done, k);
    var child := Child(p, k);
    assert p <= child && Parent(child) == p;
    assert Same(mid, p) == Same(before, p);
    forall q | child <= q
      ensures Same(mid, q) == Same(before, q)
    {
    }
    AgreeBelow(before, mid, child, child);
    NodesOkLocal(before, mid, child);
    forall q | q in mid && child <= q
      ensures q in before && mid[q] == before[q] && p <= q
    {
      AgreeBelow(before, mid, child, q);
    }
    assert child in before ==> |child| <= |p| + rank;
  }

  lemma ItemsDoneOneMore(before: Nodes, mid: Nodes, after: Nodes, items: map<string, Content>, p: Path,
                         done: set<string>, k: string, next: VersionedTransition)
    requires done <= items.Keys && k in items && k !in done && Agree(before, mid, Child(p, k))
    requires ItemsDone(before, mid, items, p, done, next) && SameOutside(mid, after, Child(p, k))
    requires if items[k].Empty? then after == mid else ContentSyncedAt(mid, after, items[k], Child(p, k), next)
    ensures ItemsDone(before, after, items, p, done + {k}, next)
  {
    UnderOneMore(p, done, k);
    forall q | UnderChild(p, done + {k}, q)
      ensures Same(after, q) ==
              if items[q[|p|]].Empty? then Same(before, q)
              else ContentNode(before, items[q[|p|]], Child(p, q[|p|]), q, next)
    {
      if Child(p, k) <= q {
        AgreeBelow(before, mid, Child(p, k), q);
        ContentNodeLocal(before, mid, items[k], Child(p, k), q, next);
      } else {
        assert Same(after, q) == Same(mid, q);
      }
    }
  }

  // ----- syncSubComponents on a component that is out of sync

  function SettledFields(fields: map<string, Field>, done: set<string>): map<string, Field> {
    map f | f in fields && f in done :: SettledField(fields[f])
  }

  function KeptFields(fields: map<string, Field>, done: set<string>): set<string> {
    set f | f in fields && f in done && KeptField(fields[f])
  }

  lemma FieldsOneMore(fields: map<string, Field>, done: set<string>, f: string)
    requires f in fields && f !in done
    ensures SettledFields(fields, done + {f}) == SettledFields(fields, done)[f := SettledField(fields[f])]
    ensures KeptFields(fields, done + {f}) == if KeptField(fields[f]) then KeptFields(fields, done) + {f}
                                              else KeptFields(fields, done)
  {
  }

  ghost predicate FieldsDone(before: Nodes, after: Nodes, fields: map<string, Field>, p: Path, done: set<string>,
                             next: VersionedTransition)
    requires done <= fields.Keys
  {
    && (forall q | UnderChild(p, done, q) && KeptField(fields[q[|p|]]) ::
          Same(after, q) == FieldAt(before, fields[q[|p|]], Child(p, q[|p|]), q, next))
    && (forall q | UnderChild(p, done, q) && !KeptField(fields[q[|p|]]) ::
          Same(after, q) == Same(before, q) ||
          (q !in before && q == Child(p, q[|p|]) && fields[q[|p|]] == SubMap(map[])))
  }

  /** How far the loop over the fields of a component has got. */
  ghost predicate FieldsProgress(before: Nodes, after: Nodes, fields: map<string, Field>, p: Path, done: set<string>,
                                 next: VersionedTransition, deleted: set<string>, deleted': set<string>)
    requires done <= fields.Keys
  {
    && SameOutsideChildren(before, after, p, done)
    && FieldsDone(before, after, fields, p, done, next)
    && DeletionsUnder(before, after, p, done, deleted, deleted')
  }

  method SyncComponent(t: Tree, p: Path, next: VersionedTransition, ghost rank: nat, ghost home: map<nat, Path>)
    returns (ok: bool)
    requires t.Valid() && Ready(t.nodes, home) && p in t.nodes && NodesOk(t.nodes, p) && RankOk(t.nodes, p, rank)
    requires t.nodes[p].state == NeedSyncStructure
    modifies t`nodes, t`valueToNode, t`deletedNodes, t`taskValueCache, t`isActiveStateDirty, t`needsPointerResolution
    ensures ok ==> t.Valid() && Ready(t.nodes, home)
    ensures ok ==> SameOutside(old(t.nodes), t.nodes, p) && SyncedAt(old(t.nodes), t.nodes, p, next)
    ensures ok ==> DeletionsRecorded(old(t.nodes), t.nodes, p, old(t.deletedNodes), t.deletedNodes)
    ensures ok ==> FlagKept(old(t.nodes), old(t.needsPointerResolution), t.nodes, t.needsPointerResolution)
    ensures AllNamed(old(t.nodes), p) ==> ok
    ensures old(t.isActiveStateDirty) ==> t.isActiveStateDirty
    decreases rank, 1
  {
    ghost var before, deleted := t.nodes, t.deletedNodes;
    assert NodeOk(before, p);
    var settled, keep;
    ok, settled, keep := SyncFields(t, p, next, rank, home);
    if ok {
      ghost var mid, flag := t.nodes, t.needsPointerResolution;
      ok := FinishComponent(t, p, settled, keep, next, before, deleted, home);
      if ok {
        FlagTwice(before, old(t.needsPointerResolution), mid, flag, t.nodes, t.needsPointerResolution);
      }
    }
  }

  /** What that loop has gathered. */
  ghost predicate FieldsGathered(fields: map<string, Field>, done: set<string>, settled: map<string, Field>,
                                 keep: set<string>) {
    settled == SettledFields(fields, done) && keep == KeptFields(fields, done)
  }

  predicate Parted(todo: set<string>, done: set<string>, all: set<string>) {
    todo !! done && todo + done == all
  }

  lemma PartedOneMore(todo: set<string>, done: set<string>, all: set<string>, f: string)
    requires Parted(todo, done, all) && f in todo
    ensures Parted(todo - {f}, done + {f}, all) && f !in done && f in all
  {
  }

  /** The loop over the fields of a component. */
  method SyncFields(t: Tree, p: Path, next: VersionedTransition, ghost rank: nat, ghost home: map<nat, Path>)
    returns (ok: bool, settled: map<string, Field>, keep: set<string>)
    requires t.Valid() && Ready(t.nodes, home) && p in t.nodes && NodesOk(t.nodes, p) && RankOk(t.nodes, p, rank)
    requires t.nodes[p].state == NeedSyncStructure && Unsynced(t.nodes[p])
    modifies t`nodes, t`valueToNode, t`deletedNodes, t`taskValueCache, t`isActiveStateDirty, t`needsPointerResolution
    ensures ok ==> t.Valid() && Ready(t.nodes, home)
    ensures ok ==> var fields := old(t.nodes)[p].value.value.fields;
                   && FieldsProgress(old(t.nodes), t.nodes, fields, p, fields.Keys, next, old(t.deletedNodes),
                                     t.deletedNodes)
                   && settled == SettledFields(fields, fields.Keys) && keep == KeptFields(fields, fields.Keys)
    ensures ok ==> FlagKept(old(t.nodes), old(t.needsPointerResolution), t.nodes, t.needsPointerResolution)
    ensures AllNamed(old(t.nodes), p) ==> ok
    ensures old(t.isActiveStateDirty) ==> t.isActiveStateDirty
    decreases rank, 0, 1
  {
    ghost var before, deleted := t.nodes, t.deletedNodes;
    var fields := t.nodes[p].value.value.fields;
    ok, settled, keep := true, map[], {};
    var todo := fields.Keys;
    ghost var done: set<string> := {};
    while todo != {}
      invariant Parted(todo, done, fields.Keys) && t.Valid() && Ready(t.nodes, home) && p in t.nodes
      invariant FieldsGathered(fields, done, settled, keep)
      invariant FieldsProgress(before, t.nodes, fields, p, done, next, deleted, t.deletedNodes)
      invariant old(t.isActiveStateDirty) ==> t.isActiveStateDirty
      invariant FlagKept(before, old(t.needsPointerResolution), t.nodes, t.needsPointerResolution)
    {
      var f :| f in todo;
      ghost var mid, flag := t.nodes, t.needsPointerResolution;
      var kept, field';
      ok, kept, field' := SyncFieldOf(t, p, fields, f, next, before, done, deleted, rank, home);
      if !ok {
        return;
      }
      FieldsOneMore(fields, done, f);
      FlagTwice(before, old(t.needsPointerResolution), mid, flag, t.nodes, t.needsPointerResolution);
      PartedOneMore(todo, done, fields.Keys, f);
      todo, done := todo - {f}, done + {f};
      settled := settled[f := field'];
      keep := if kept then keep + {f} else keep;
    }
    assert done == fields.Keys;
  }

  /** One iteration of that loop. */
  method SyncFieldOf(t: Tree, p: Path, fields: map<string, Field>, f: string, next: VersionedTransition,
                     ghost before: Nodes, ghost done: set<string>, ghost deleted: set<string>, ghost rank: nat,
                     ghost home: map<nat, Path>)
    returns (ok: bool, keep: bool, field': Field)
    requires t.Valid() && Ready(t.nodes, home) && p in t.nodes && done <= fields.Keys && f in fields && f !in done
    requires p in before && before[p].state == NeedSyncStructure && Unsynced(before[p]) &&
             before[p].value.value.fields == fields
    requires NodesOk(before, p) && RankOk(before, p, rank) && AllAtHome(before, home)
    requires FieldsProgress(before, t.nodes, fields, p, done, next, deleted, t.deletedNodes)
    modifies t`nodes, t`valueToNode, t`deletedNodes, t`taskValueCache, t`isActiveStateDirty, t`needsPointerResolution
    ensures ok ==> t.Valid() && Ready(t.nodes, home)
    ensures ok ==> keep == KeptField(fields[f]) && field' == SettledField(fields[f])
    ensures ok ==> FieldsProgress(before, t.nodes, fields, p, done + {f}, next, deleted, t.deletedNodes)
    ensures ok ==> p in t.nodes
    ensures ok ==> FlagKept(old(t.nodes), old(t.needsPointerResolution), t.nodes, t.needsPointerResolution)
    ensures AllNamed(before, p) ==> ok
    ensures old(t.isActiveStateDirty) ==> t.isActiveStateDirty
    decreases rank, 0, 0
  {
    ghost var mid, deleted1 := t.nodes, t.deletedNodes;
    FieldUntouched(before, mid, p, done, f, rank, home);
    NamedLocal(before, mid, p, Child(p, f));
    ok, keep, field' := SyncField(t, Child(p, f), fields[f], next, rank - 1, home);
    if ok {
      FieldsStep(before, mid, t.nodes, fields, p, done, f, next, deleted, deleted1, t.deletedNodes);
      assert Same(t.nodes, p) == Same(mid, p);
    }
  }

  lemma FieldUntouched(before: Nodes, mid: Nodes, p: Path, done: set<string>, f: string, rank: nat,
                       home: map<nat, Path>)
    requires p in before && before[p].state == NeedSyncStructure && Unsynced(before[p]) &&
             f in before[p].value.value.fields && f !in done
    requires SameOutsideChildren(before, mid, p, done)
    requires NodesOk(before, p) && RankOk(before, p, rank) && AllAtHome(before, home)
    ensures Agree(before, mid, Child(p, f))
    ensures rank > 0 && FieldReady(mid, before[p].value.value.fields[f], Child(p, f), rank - 1, home)
  {
    UnderOneMore(p, done, f);
    var child, field := Child(p, f), before[p].value.value.fields[f];
    assert p <= child && Parent(child) == p;
    assert Same(mid, p) == Same(before, p);
    forall q | child <= q
      ensures Same(mid, q) == Same(before, q)
    {
    }
    AgreeBelow(before, mid, child, child);
    NodesOkLocal(before, mid, child);
    assert NodeOk(before, p);
    FieldOkLocal(before, mid, field, child);
    assert Fits(before[p].value.value, rank) && ValueAtHome(before[p].value.value, p, home);
    RankOkLocal(before, mid, p, child, rank);
  }

  lemma RankOkLocal(before: Nodes, mid: Nodes, p: Path, child: Path, rank: nat)
    requires RankOk(before, p, rank) && rank > 0 && p <= child && |child| == |p| + 1 && Agree(before, mid, child)
    ensures RankOk(mid, child, rank - 1)
  {
    forall q | q in mid && child <= q
      ensures q in before && mid[q] == before[q] && p <= q
    {
      AgreeBelow(before, mid, child, q);
    }
  }

  lemma FieldsStep(before: Nodes, mid: Nodes, after: Nodes, fields: map<string, Field>, p: Path, done: set<string>,
                   f: string, next: VersionedTransition, deleted: set<string>, deleted1: set<string>,
                   deleted2: set<string>)
    requires done <= fields.Keys && f in fields && f !in done && Agree(before, mid, Child(p, f))
    requires FieldsProgress(before, mid, fields, p, done, next, deleted, deleted1)
    requires SameOutside(mid, after, Child(p, f)) && DeletionsRecorded(mid, after, Child(p, f), deleted1, deleted2)
    requires if KeptField(fields[f]) then FieldSyncedAt(mid, after, fields[f], Child(p, f), next)
             else AtMostCollection(mid, after, Child(p, f)) && (fields[f] != SubMap(map[]) ==> after == mid)
    ensures FieldsProgress(before, after, fields, p, done + {f}, next, deleted, deleted2)
  {
    DeletionsOneMore(before, mid, after, p, done, f, deleted, deleted1, deleted2);
    FieldsDoneOneMore(before, mid, after, fields, p, done, f, next);
  }

  lemma FieldsDoneOneMore(before: Nodes, mid: Nodes, after: Nodes, fields: map<string, Field>, p: Path,
                          done: set<string>, f: string, next: VersionedTransition)
    requires done <= fields.Keys && f in fields && f !in done && Agree(before, mid, Child(p, f))
    requires FieldsDone(before, mid, fields, p, done, next) && SameOutside(mid, after, Child(p, f))
    requires if KeptField(fields[f]) then FieldSyncedAt(mid, after, fields[f], Child(p, f), next)
             else AtMostCollection(mid, after, Child(p, f)) && (fields[f] != SubMap(map[]) ==> after == mid)
    ensures FieldsDone(before, after, fields, p, done + {f}, next)
  {
    UnderOneMore(p, done, f);
    forall q | UnderChild(p, done + {f}, q)
      ensures KeptField(fields[q[|p|]]) ==> Same(after, q) == FieldAt(before, fields[q[|p|]], Child(p, q[|p|]), q, next)
      ensures !KeptField(fields[q[|p|]]) ==>
                Same(after, q) == Same(before, q) ||
                (q !in before && q == Child(p, q[|p|]) && fields[q[|p|]] == SubMap(map[]))
    {
      if Child(p, f) <= q {
        AgreeBelow(before, mid, Child(p, f), q);
        FieldAtLocal(before, mid, fields[f], Child(p, f), q, next);
      } else {
        assert Same(after, q) == Same(mid, q);
      }
    }
  }

  lemma FieldAtLocal(nodes1: Nodes, nodes2: Nodes, field: Field, child: Path, q: Path, next: VersionedTransition)
    requires child <= q && Agree(nodes1, nodes2, child)
    ensures FieldAt(nodes1, field, child, q, next) == FieldAt(nodes2, field, child, q, next)
  {
    match field
    case SubField(content) => ContentNodeLocal(nodes1, nodes2, content, child, q, next);
    case NilMap =>
    case SubMap(items) => ItemNodeLocal(nodes1, nodes2, items, child, q, next);
  }

  /** Deletes the children whose fields are empty or gone, and marks the component. */
  method FinishComponent(t: Tree, p: Path, settled: map<string, Field>, keep: set<string>, next: VersionedTransition,
                         ghost before: Nodes, ghost deleted: set<string>, ghost home: map<nat, Path>) returns (ok: bool)
    requires t.Valid() && Ready(t.nodes, home) && PrefixClosed(before) && p in before && Unsynced(before[p]) &&
             AllAtHome(before, home)
    requires var fields := before[p].value.value.fields;
             && FieldsProgress(before, t.nodes, fields, p, fields.Keys, next, deleted, t.deletedNodes)
             && settled == SettledFields(fields, fields.Keys) && keep == KeptFields(fields, fields.Keys)
    modifies t`nodes, t`valueToNode, t`deletedNodes, t`taskValueCache, t`isActiveStateDirty, t`needsPointerResolution
    ensures ok ==> t.Valid() && Ready(t.nodes, home)
    ensures ok ==> SameOutside(before, t.nodes, p) && SyncedAt(before, t.nodes, p, next)
    ensures ok ==> DeletionsRecorded(before, t.nodes, p, deleted, t.deletedNodes)
    ensures ok ==> FlagKept(old(t.nodes), old(t.needsPointerResolution), t.nodes, t.needsPointerResolution)
    ensures AllNamed(before, p) ==> ok
    ensures old(t.isActiveStateDirty) ==> t.isActiveStateDirty
  {
    ghost var mid := t.nodes;
    ghost var fields := before[p].value.value.fields;
    assert Same(mid, p) == Same(before, p);
    UnkeptFields(before, mid, fields, p, keep, next);
    TransientNamed(before, mid, fields, p, keep, next);
    ok := DeleteChildren(t, p, keep, before, fields.Keys, deleted, home);
    if !ok {
      return;
    }
    ghost var after, flag := t.nodes, t.needsPointerResolution;
    SettledAtHome(before[p].value.value, settled, p, home);
    SetFields(t, p, settled, home);
    FlagTwice(mid, flag, after, flag, t.nodes, flag);
    ComponentFinished(before, mid, after, t.nodes, p, keep, settled, next, deleted, t.deletedNodes);
  }

  /** Puts the settled fields into the component and marks it to be serialized. */
  method SetFields(t: Tree, p: Path, settled: map<string, Field>, ghost home: map<nat, Path>)
    requires t.Valid() && Ready(t.nodes, home) && p in t.nodes && t.nodes[p].value.Some? &&
             t.nodes[p].value.value.Object?
    requires ValueAtHome(t.nodes[p].value.value.(fields := settled), p, home)
    modifies t`nodes, t`valueToNode, t`isActiveStateDirty
    ensures t.Valid() && Ready(t.nodes, home) && t.isActiveStateDirty
    ensures FlagKept(old(t.nodes), t.needsPointerResolution, t.nodes, t.needsPointerResolution)
    ensures t.nodes ==
            old(t.nodes)[p := old(t.nodes)[p].(value := Some(old(t.nodes)[p].value.value.(fields := settled)), state :=
                                               NeedSerialize)]
  {
    ghost var before := t.nodes;
    ghost var n := before[p].(value := Some(before[p].value.value.(fields := settled)), state := NeedSerialize);
    IndexLeadsBack(t.nodes, t.valueToNode, p);
    ReadyAfterSet(before, p, n, home);
    t.SetValue(p, Some(t.nodes[p].value.value.(fields := settled)));
    UpdateTwice(before, p, t.nodes[p], n);
    t.SetValueState(p, NeedSerialize);
  }

  lemma ReadyAfterSet(nodes: Nodes, p: Path, n: Node, home: map<nat, Path>)
    requires Ready(nodes, home) && p in nodes && n.encodedPath == nodes[p].encodedPath
    requires n.value.Some? ==> ValueAtHome(n.value.value, p, home)
    ensures Ready(nodes[p := n], home)
  {
  }

  /** The value of a node is indexed under the node, if it is indexed at all. */
  lemma IndexLeadsBack(nodes: Nodes, valueToNode: map<nat, Path>, p: Path)
    requires Index(nodes, valueToNode) && p in nodes
    ensures nodes[p].IndexedId().Some? ==> nodes[p].IndexedId().value in valueToNode &&
                                           valueToNode[nodes[p].IndexedId().value] == p
  {
  }

  lemma UnkeptFields(before: Nodes, mid: Nodes, fields: map<string, Field>, p: Path, keep: set<string>,
                     next: VersionedTransition)
    requires SameOutsideChildren(before, mid, p, fields.Keys) && FieldsDone(before, mid, fields, p, fields.Keys, next)
    requires keep == KeptFields(fields, fields.Keys)
    ensures UnkeptAsBefore(before, mid, p, keep)
  {
    forall q | p <= q && q != p && q[|p|] !in keep
      ensures Same(mid, q) == Same(before, q) || q !in before
    {
      if q[|p|] in fields {
        assert UnderChild(p, fields.Keys, q);
      }
    }
  }

  lemma TransientNamed(before: Nodes, mid: Nodes, fields: map<string, Field>, p: Path, keep: set<string>,
                       next: VersionedTransition)
    requires p in before && Unsynced(before[p]) && before[p].value.value.fields == fields
    requires SameOutsideChildren(before, mid, p, fields.Keys) && FieldsDone(before, mid, fields, p, fields.Keys, next)
    requires keep == KeptFields(fields, fields.Keys) && UnkeptAsBefore(before, mid, p, keep)
    ensures AllNamed(before, p) ==> EncodableUnder(mid, p, Children(mid, p) - keep)
  {
    if AllNamed(before, p) {
      forall q | p <= q && q != p && q[|p|] !in keep && q in mid && q !in before
        ensures ValidPath(q)
      {
        assert Same(mid, q) != Same(before, q);
        assert UnderChild(p, fields.Keys, q);
        assert FieldNamed(fields[q[|p|]], Child(p, q[|p|]));
      }
      UnkeptNamed(before, mid, p, keep);
    }
  }

  lemma SettledAtHome(v: Value, settled: map<string, Field>, p: Path, home: map<nat, Path>)
    requires v.Object? && ValueAtHome(v, p, home) && settled == SettledFields(v.fields, v.fields.Keys)
    ensures ValueAtHome(v.(fields := settled), p, home)
  {
    forall f | f in settled
      ensures FieldAtHome(settled[f], Child(p, f), home)
    {
      match v.fields[f]
      case SubField(c) =>
      case NilMap =>
      case SubMap(items) =>
    }
  }

  lemma ComponentFinished(before: Nodes, mid: Nodes, after: Nodes, final: Nodes, p: Path, keep: set<string>,
                          settled: map<string, Field>, next: VersionedTransition, deleted: set<string>,
                          deleted': set<string>)
    requires OnlyKept(before, mid, after, p, keep, deleted, deleted') && Unsynced(before[p])
    requires var fields := before[p].value.value.fields;
             && FieldsDone(before, mid, fields, p, fields.Keys, next)
             && keep == KeptFields(fields, fields.Keys) && settled == SettledFields(fields, fields.Keys)
    requires final ==
             after[p := after[p].(value := Some(after[p].value.value.(fields := settled)), state := NeedSerialize)]
    ensures SameOutside(before, final, p) && SyncedAt(before, final, p, next)
    ensures DeletionsRecorded(before, final, p, deleted, deleted')
  {
    var fields := before[p].value.value.fields;
    assert settled == map f | f in fields :: SettledField(fields[f]);
    forall q | !(p <= q)
      ensures Same(final, q) == Same(before, q)
    {
      assert Same(after, q) == Same(before, q);
    }
    forall q | p <= q
      ensures Same(final, q) == SyncedNode(before, p, q, next)
    {
      if q != p {
        assert Same(final, q) == Same(after, q);
        UnkeptFieldHasNoNode(before, fields, p, q, next);
        if q[|p|] in keep {
          assert UnderChild(p, fields.Keys, q);
        }
      }
    }
  }

  lemma UnkeptFieldHasNoNode(nodes: Nodes, fields: map<string, Field>, p: Path, q: Path, next: VersionedTransition)
    requires p <= q && p != q
    ensures q[|p|] in fields && !KeptField(fields[q[|p|]]) ==> FieldNode(nodes, fields, p, q, next) == None
  {
    if q[|p|] in fields && !KeptField(fields[q[|p|]]) {
      var child := Child(p, q[|p|]);
      match fields[q[|p|]]
      case SubField(content) => assert ContentNode(nodes, content, child, q, next) == None;
      case NilMap =>
      case SubMap(items) => assert ItemNode(nodes, items, child, q, next) == None;
    }
  }
}
