/** The nodes that synchronising the structure creates (chasm/tree.go, syncSubComponents): for a
    fresh value there is afterwards a subtree of its shape, and no other node is new. */
module NewNodes {
  import opened Basics
  import opened PathEncoder
  import opened Tasks
  import opened ChasmTree
  import opened Sync
  import opened SyncApply
  import opened SyncFacts
  import opened Persistence

  // ----- What is promised

  /** The content of a field once it has its node: attached, or still to be resolved. */
  predicate ContentSettled(c: Content, d: Content) {
    match c
    case Fresh(kind, value, _) => if value.Deferred? then d == AttachedDeferred(value.target) else d == Attached
    case _ => d == c
  }

  predicate FieldSettled(f: Field, g: Field) {
    match f
    case SubField(c) => g.SubField? && ContentSettled(c, g.content)
    case NilMap => g == f
    case SubMap(items) =>
      g.SubMap? && g.items.Keys == items.Keys && forall k | k in items :: ContentSettled(items[k], g.items[k])
  }

  /** The same object, with its fields settled; the same path or target of a pointer. */
  predicate ValueSettled(v: Value, w: Value) {
    if v.Object? then
      && w.Object? && w.id == v.id && w.fields.Keys == v.fields.Keys
      && forall f | f in v.fields :: FieldSettled(v.fields[f], w.fields[f])
    else w == v
  }

  /** The node made of a field value: a component with the detached flag of the field, a data
      node, or a pointer, to be serialized. */
  predicate MadeOf(kind: FieldType, value: Value, detached: bool, next: VersionedTransition, n: Node) {
    && n.value.Some? && ValueSettled(value, n.value.value) && n.encodedPath == None
    && match kind
       case ComponentField => IsBlank(n, next, Component(0, detached, TaskLists([], [])), NeedSerialize)
       case DataField => IsBlank(n, next, Data, NeedSerialize)
       case PointerField => IsBlank(n, next, Pointer([]), NeedSerialize)
       case DeferredPointerField => IsBlank(n, next, Pointer([]), NeedSerialize)
  }

  /** The subtree at `q` has the shape of the value. */
  ghost predicate Built(after: Nodes, q: Path, kind: FieldType, value: Value, detached: bool, next: VersionedTransition)
    decreases value
  {
    && q in after && MadeOf(kind, value, detached, next, after[q])
    && if kind == ComponentField && value.Object? then
         && (forall c | Child(q, c) in after :: c in value.fields)
         && forall f | f in value.fields :: FieldBuilt(after, value.fields[f], Child(q, f), next)
       else
         forall c :: Child(q, c) !in after
  }

  ghost predicate FieldBuilt(after: Nodes, field: Field, child: Path, next: VersionedTransition)
    decreases field
  {
    match field
    case SubField(c) => ContentBuilt(after, c, child, next)
    case NilMap => child !in after
    case SubMap(items) =>
      if items == map[] then child !in after
      else
        && child in after && IsBlank(after[child], next, Collection, NeedSerialize) && after[child].value == None
        && (forall k | Child(child, k) in after :: k in items)
        && forall k | k in items :: ContentBuilt(after, items[k], Child(child, k), next)
  }

  ghost predicate ContentBuilt(after: Nodes, c: Content, child: Path, next: VersionedTransition)
    decreases c
  {
    match c
    case Empty => child !in after
    case Fresh(kind, value, detached) => Built(after, child, kind, value, detached, next)
    case _ => child in after
  }

  // ----- One value

  /** A fresh value is held under its own kind. */
  predicate ContentTyped(c: Content) {
    c.Fresh? ==> FreshValue(c.kind, c.value)
  }

  predicate FieldTyped(f: Field) {
    match f
    case SubField(c) => ContentTyped(c)
    case NilMap => true
    case SubMap(items) => forall k | k in items :: ContentTyped(items[k])
  }

  lemma ContentSettles(c: Content)
    requires ContentTyped(c)
    ensures ContentSettled(c, SettledContent(c))
  {
  }

  lemma FieldSettles(f: Field)
    requires FieldTyped(f)
    ensures FieldSettled(f, SettledField(f))
  {
    match f
    case SubField(c) => ContentSettles(c);
    case NilMap =>
    case SubMap(items) =>
      forall k | k in items
        ensures ContentSettled(items[k], SettledContent(items[k]))
      {
        ContentSettles(items[k]);
      }
  }

  lemma SettledValues(v: Value)
    requires v.Object? ==> forall f | f in v.fields :: FieldTyped(v.fields[f])
    ensures ValueSettled(v, SettledValue(v))
  {
    if v.Object? {
      forall f | f in v.fields
        ensures FieldSettled(v.fields[f], SettledField(v.fields[f]))
      {
        FieldSettles(v.fields[f]);
      }
    }
  }

  lemma FreshIsTyped(kind: FieldType, v: Value)
    requires FreshValue(kind, v)
    ensures v.Object? ==> forall f | f in v.fields :: FieldTyped(v.fields[f])
  {
    if v.Object? {
      forall f | f in v.fields
        ensures FieldTyped(v.fields[f])
      {
        assert FreshField(v.fields[f]);
        if v.fields[f].SubMap? {
          assert forall k | k in v.fields[f].items :: FreshContent(v.fields[f].items[k]);
        }
      }
    }
  }

  lemma NewChildMade(kind: FieldType, value: Value, detached: bool, next: VersionedTransition)
    requires FreshValue(kind, value)
    ensures MadeOf(kind, value, detached, next, Settled(NewChild(kind, value, detached, next)))
  {
    FreshIsTyped(kind, value);
    SettledValues(value);
  }

  /** The positions at and below `child` hold what the content gives them. */
  ghost predicate ContentThere(nodes: Nodes, after: Nodes, c: Content, child: Path, next: VersionedTransition) {
    forall q | child <= q :: Same(after, q) == ContentNode(nodes, c, child, q, next)
  }

  ghost predicate FieldThere(nodes: Nodes, after: Nodes, f: Field, child: Path, next: VersionedTransition) {
    forall q | child <= q :: Same(after, q) == FieldAt(nodes, f, child, q, next)
  }

  /** A fresh value is built. */
  lemma {:induction false} ContentIsBuilt(nodes: Nodes, after: Nodes, c: Content, child: Path,
                                          next: VersionedTransition)
    requires FreshContent(c) && ContentThere(nodes, after, c, child, next) && NothingBelow(nodes, child) &&
             child !in nodes
    ensures ContentBuilt(after, c, child, next)
    decreases c
  {
    assert Same(after, child) == ContentNode(nodes, c, child, child, next);
    if c.Fresh? {
      NewChildMade(c.kind, c.value, c.detached, next);
      forall f
        ensures Child(child, f) in after ==> c.kind == ComponentField && c.value.Object? && f in c.value.fields
        ensures c.kind == ComponentField && c.value.Object? && f in c.value.fields ==>
                  FieldBuilt(after, c.value.fields[f], Child(child, f), next)
      {
        assert Child(child, f)[|child|] == f && child <= Child(child, f);
        assert Same(after, Child(child, f)) == ContentNode(nodes, c, child, Child(child, f), next);
        if c.kind == ComponentField && c.value.Object? {
          assert ContentNode(nodes, c, child, Child(child, f), next) ==
                 FieldNode(nodes, c.value.fields, child, Child(child, f), next);
        }
        if c.kind == ComponentField && c.value.Object? && f in c.value.fields {
          FieldOfContent(nodes, after, c, child, f, next);
          assert FreshField(c.value.fields[f]);
          FieldIsBuilt(nodes, after, c.value.fields[f], Child(child, f), next);
        }
      }
    }
  }

  lemma FieldOfContent(nodes: Nodes, after: Nodes, c: Content, child: Path, f: string, next: VersionedTransition)
    requires c.Fresh? && c.kind == ComponentField && c.value.Object? && f in c.value.fields
    requires ContentThere(nodes, after, c, child, next)
    ensures FieldThere(nodes, after, c.value.fields[f], Child(child, f), next)
  {
    forall q | Child(child, f) <= q
      ensures Same(after, q) == FieldAt(nodes, c.value.fields[f], Child(child, f), q, next)
    {
      assert child <= q && q != child && q[|child|] == f;
      assert Same(after, q) == ContentNode(nodes, c, child, q, next) ==
             FieldNode(nodes, c.value.fields, child, q, next);
    }
  }

  lemma {:induction false} FieldIsBuilt(nodes: Nodes, after: Nodes, f: Field, child: Path, next: VersionedTransition)
    requires FreshField(f) && FieldThere(nodes, after, f, child, next) && NothingBelow(nodes, child) && child !in nodes
    ensures FieldBuilt(after, f, child, next)
    decreases f
  {
    assert Same(after, child) == FieldAt(nodes, f, child, child, next);
    match f
    case SubField(c) =>
      forall q | child <= q
        ensures Same(after, q) == ContentNode(nodes, c, child, q, next)
      {
        assert Same(after, q) == FieldAt(nodes, f, child, q, next);
      }
      ContentIsBuilt(nodes, after, c, child, next);
    case NilMap =>
    case SubMap(items) =>
      assert FieldAt(nodes, f, child, child, next) == ItemNode(nodes, items, child, child, next);
      if items != map[] {
        forall k
          ensures Child(child, k) in after ==> k in items
          ensures k in items ==> ContentBuilt(after, items[k], Child(child, k), next)
        {
          assert Child(child, k)[|child|] == k && child <= Child(child, k);
          assert Same(after, Child(child, k)) == FieldAt(nodes, f, child, Child(child, k), next) ==
                 ItemNode(nodes, items, child, Child(child, k), next);
          if k in items {
            ItemOfField(nodes, after, items, child, k, next);
            assert FreshContent(items[k]) && child <= Child(child, k);
            ContentIsBuilt(nodes, after, items[k], Child(child, k), next);
          }
        }
      }
  }

  lemma ItemOfField(nodes: Nodes, after: Nodes, items: map<string, Content>, child: Path, k: string,
                    next: VersionedTransition)
    requires k in items && FieldThere(nodes, after, SubMap(items), child, next)
    ensures ContentThere(nodes, after, items[k], Child(child, k), next)
  {
    forall q | Child(child, k) <= q
      ensures Same(after, q) == ContentNode(nodes, items[k], Child(child, k), q, next)
    {
      assert child <= q && q != child && q[|child|] == k;
      assert Same(after, q) == FieldAt(nodes, SubMap(items), child, q, next) == ItemNode(nodes, items, child, q, next);
    }
  }

  // ----- A component that was synchronised

  /** The component at `p` was changed, and has been synchronised. */
  ghost predicate SyncedComponent(before: Nodes, after: Nodes, p: Path) {
    && p in before && before[p].state == NeedSyncStructure && Unsynced(before[p])
    && p in after && after[p] == Settled(before[p])
  }

  /** Its value is the same object, with its fields settled, and its record is as it was. */
  lemma SyncSettlesValue(before: Nodes, after: Nodes, p: Path)
    requires NodesOk(before, []) && SyncedComponent(before, after, p)
    ensures after[p].value.Some? && ValueSettled(before[p].value.value, after[p].value.value)
    ensures after[p].state == NeedSerialize && after[p].serialized == before[p].serialized
  {
    assert NodeOk(before, p);
    forall f | f in before[p].value.value.fields
      ensures FieldTyped(before[p].value.value.fields[f])
    {
      assert FieldOk(before, before[p].value.value.fields[f], Child(p, f));
    }
    SettledValues(before[p].value.value);
  }

  lemma FieldOfSynced(before: Nodes, after: Nodes, next: VersionedTransition, p: Path, f: string)
    requires PrefixClosed(before) && NodesOk(before, []) && WholeSync(before, after, next)
    requires SyncedComponent(before, after, p) && f in before[p].value.value.fields
    ensures FieldThere(before, after, before[p].value.value.fields[f], Child(p, f), next)
  {
    var fields := before[p].value.value.fields;
    assert Same(after, p) == SyncedNode(before, [], p, next);
    forall q | Child(p, f) <= q
      ensures Same(after, q) == FieldAt(before, fields[f], Child(p, f), q, next)
    {
      assert p <= q && q != p && q[|p|] == f;
      SyncedBelow(before, [], p, q, next);
      assert Same(after, q) == SyncedNode(before, [], q, next) == SyncedNode(before, p, q, next);
    }
  }

  /** Its field now has the subtree of its fresh value. */
  lemma SyncBuildsField(before: Nodes, after: Nodes, next: VersionedTransition, p: Path, f: string)
    requires PrefixClosed(before) && NodesOk(before, []) && WholeSync(before, after, next)
    requires SyncedComponent(before, after, p) && f in before[p].value.value.fields
    requires before[p].value.value.fields[f].SubField? && before[p].value.value.fields[f].content.Fresh?
    ensures var c := before[p].value.value.fields[f].content;
            Built(after, Child(p, f), c.kind, c.value, c.detached, next)
  {
    var field := before[p].value.value.fields[f];
    FieldOfSynced(before, after, next, p, f);
    assert NodeOk(before, p) && FieldOk(before, field, Child(p, f));
    NothingThere(before, Child(p, f));
    forall q | Child(p, f) <= q
      ensures Same(after, q) == ContentNode(before, field.content, Child(p, f), q, next)
    {
      assert Same(after, q) == FieldAt(before, field, Child(p, f), q, next);
    }
    ContentIsBuilt(before, after, field.content, Child(p, f), next);
  }

  /** Each new item of its collection has its subtree, and a new collection its node. */
  lemma SyncBuildsItem(before: Nodes, after: Nodes, next: VersionedTransition, p: Path, f: string, k: string)
    requires PrefixClosed(before) && NodesOk(before, []) && WholeSync(before, after, next)
    requires SyncedComponent(before, after, p) && f in before[p].value.value.fields
    requires before[p].value.value.fields[f].SubMap? && k in before[p].value.value.fields[f].items
    ensures var child := Child(p, f);
            && child in after
            && (if child in before then after[child].serialized == before[child].serialized
                else IsBlank(after[child], next, Collection, NeedSerialize) && after[child].value == None)
            && var c := before[p].value.value.fields[f].items[k];
               c.Fresh? ==> Built(after, Child(child, k), c.kind, c.value, c.detached, next)
  {
    var field, child := before[p].value.value.fields[f], Child(p, f);
    FieldOfSynced(before, after, next, p, f);
    assert NodeOk(before, p) && FieldOk(before, field, child);
    assert Same(after, child) == FieldAt(before, field, child, child, next) ==
           ItemNode(before, field.items, child, child, next);
    if field.items[k].Fresh? {
      assert ContentOk(before, field.items[k], Child(child, k));
      NothingThere(before, Child(child, k));
      ItemOfField(before, after, field.items, child, k, next);
      ContentIsBuilt(before, after, field.items[k], Child(child, k), next);
    }
  }

  // ----- Nothing else is new

  /** `at` is where the component at `p` has a fresh value in a field or a collection, or a
      collection. */
  ghost predicate ComesFrom(nodes: Nodes, p: Path, at: Path) {
    && p in nodes && Unsynced(nodes[p]) && p <= at
    && var fields := nodes[p].value.value.fields;
       if |at| == |p| + 1 then
         at[|p|] in fields && (fields[at[|p|]].SubMap? || (fields[at[|p|]].SubField? && fields[at[|p|]].content.Fresh?))
       else
         && |at| == |p| + 2 && at[|p|] in fields && fields[at[|p|]].SubMap?
         && at[|p| + 1] in fields[at[|p|]].items && fields[at[|p|]].items[at[|p| + 1]].Fresh?
  }

  /** What a sync of the component at `p` gives below the child of a field, or an item. */
  lemma BelowField(nodes: Nodes, p: Path, f: string, next: VersionedTransition)
    requires p in nodes && Unsynced(nodes[p]) && f in nodes[p].value.value.fields
    ensures var field, child := nodes[p].value.value.fields[f], Child(p, f);
            forall s | child <= s :: SyncedNode(nodes, p, s, next) == FieldAt(nodes, field, child, s, next)
  {
    var child := Child(p, f);
    forall s | child <= s
      ensures SyncedNode(nodes, p, s, next) == FieldAt(nodes, nodes[p].value.value.fields[f], child, s, next)
    {
      assert p <= s && s != p && s[|p|] == f;
    }
  }

  lemma BelowItem(nodes: Nodes, p: Path, f: string, k: string, next: VersionedTransition)
    requires p in nodes && Unsynced(nodes[p]) && f in nodes[p].value.value.fields
    requires nodes[p].value.value.fields[f].SubMap? && k in nodes[p].value.value.fields[f].items
    ensures var content, item := nodes[p].value.value.fields[f].items[k], Child(Child(p, f), k);
            forall s | item <= s :: SyncedNode(nodes, p, s, next) == ContentNode(nodes, content, item, s, next)
  {
    var items, child := nodes[p].value.value.fields[f].items, Child(p, f);
    BelowField(nodes, p, f, next);
    forall s | Child(child, k) <= s
      ensures SyncedNode(nodes, p, s, next) == ContentNode(nodes, items[k], Child(child, k), s, next)
    {
      assert child <= s && s != child && s[|child|] == k;
      assert FieldAt(nodes, nodes[p].value.value.fields[f], child, s, next) == ItemNode(nodes, items, child, s, next);
    }
  }

  lemma {:induction false} NewSyncedNode(nodes: Nodes, p: Path, q: Path, next: VersionedTransition)
    returns (r: Path, at: Path)
    requires PrefixClosed(nodes) && p in nodes && p <= q && NodesOk(nodes, p) && q !in nodes
    requires SyncedNode(nodes, p, q, next).Some?
    ensures p <= r && r <= at && at <= q && Visited(nodes, p, r, next) && ComesFrom(nodes, r, at)
    ensures |at| == |r| + 1 && nodes[r].value.value.fields[at[|r|]].SubMap? ==> q == at
    decreases |q| - |p|, 2
  {
    var child := Child(p, q[|p|]);
    if Unsynced(nodes[p]) {
      assert NodeOk(nodes, p);
      var field := nodes[p].value.value.fields[q[|p|]];
      assert FieldOk(nodes, field, child);
      BelowField(nodes, p, q[|p|], next);
      if field.SubField? {
        if field.content.Fresh? {
          r, at := p, child;
        } else {
          r, at := NewContentNode(nodes, p, field.content, child, q, next);
        }
      } else if q == child {
        r, at := p, child;
      } else {
        r, at := NewItemNode(nodes, p, q, next);
      }
    } else {
      r, at := NewSyncedNode(nodes, child, q, next);
    }
  }

  lemma {:induction false} NewItemNode(nodes: Nodes, p: Path, q: Path, next: VersionedTransition)
    returns (r: Path, at: Path)
    requires PrefixClosed(nodes) && p in nodes && p <= q && |q| > |p| + 1 && NodesOk(nodes, p) && q !in nodes
    requires Unsynced(nodes[p]) && NodeOk(nodes, p) && q[|p|] in nodes[p].value.value.fields
    requires FieldOk(nodes, nodes[p].value.value.fields[q[|p|]], Child(p, q[|p|]))
    requires nodes[p].value.value.fields[q[|p|]].SubMap? && SyncedNode(nodes, p, q, next).Some?
    ensures p <= r && r <= at && at <= q && Visited(nodes, p, r, next) && ComesFrom(nodes, r, at)
    ensures |at| == |r| + 1 && nodes[r].value.value.fields[at[|r|]].SubMap? ==> q == at
    decreases |q| - |p|, 1
  {
    var child := Child(p, q[|p|]);
    var items := nodes[p].value.value.fields[q[|p|]].items;
    BelowField(nodes, p, q[|p|], next);
    assert FieldAt(nodes, nodes[p].value.value.fields[q[|p|]], child, q, next) ==
           ItemNode(nodes, items, child, q, next);
    var k := q[|child|];
    BelowItem(nodes, p, q[|p|], k, next);
    if items[k].Fresh? {
      r, at := p, Child(child, k);
    } else {
      r, at := NewContentNode(nodes, p, items[k], Child(child, k), q, next);
    }
  }

  /** On the way through an attached child of the component at `p`. */
  lemma {:induction false} NewContentNode(nodes: Nodes, p: Path, content: Content, child: Path, q: Path,
                                          next: VersionedTransition)
    returns (r: Path, at: Path)
    requires PrefixClosed(nodes) && p <= child && p != child && child <= q && NodesOk(nodes, p) && q !in nodes
    requires p in nodes && Unsynced(nodes[p]) && ContentOk(nodes, content, child) && !content.Fresh?
    requires ContentNode(nodes, content, child, q, next).Some?
    requires forall s | child <= s :: SyncedNode(nodes, p, s, next) == ContentNode(nodes, content, child, s, next)
    ensures p <= r && r <= at && at <= q && Visited(nodes, p, r, next) && ComesFrom(nodes, r, at)
    ensures |at| == |r| + 1 && nodes[r].value.value.fields[at[|r|]].SubMap? ==> q == at
    decreases |q| - |p|, 0
  {
    r, at := NewSyncedNode(nodes, child, q, next);
    assert SyncedNode(nodes, p, r, next) == ContentNode(nodes, content, child, r, next);
  }

  /** Whatever is new after a sync belongs to a component that has been synchronised: it is the
      node of a new collection, or lies in the subtree of a fresh value. */
  lemma NewNodeComesFrom(before: Nodes, after: Nodes, next: VersionedTransition, q: Path) returns (p: Path, at: Path)
    requires PrefixClosed(before) && NodesOk(before, []) && WholeSync(before, after, next)
    requires q in after && q !in before
    ensures SyncedComponent(before, after, p) && ComesFrom(before, p, at) && at <= q
    ensures |at| == |p| + 1 && before[p].value.value.fields[at[|p|]].SubMap? ==> q == at
  {
    assert Same(after, q) == SyncedNode(before, [], q, next);
    p, at := NewSyncedNode(before, [], q, next);
    assert Same(after, p) == SyncedNode(before, [], p, next);
    assert NodeOk(before, p);
  }
}
