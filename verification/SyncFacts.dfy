/** What synchronising the structure achieves (chasm/tree.go, syncSubComponents): nothing is
    left to synchronise, and the nodes are those that the values ask for. */
module SyncFacts {
  import opened Basics
  import opened PathEncoder
  import opened Tasks
  import opened ChasmTree
  import opened Sync
  import opened SyncApply
  import opened Persistence

  // ----- A bound for the depth always exists

  lemma {:induction false} FitsMore(v: Value, d: nat, e: nat)
    requires Fits(v, d) && d <= e
    ensures Fits(v, e)
    decreases v
  {
    if v.Object? {
      forall f | f in v.fields
        ensures FieldFits(v.fields[f], e)
      {
        FieldFitsMore(v.fields[f], d, e);
      }
    }
  }

  lemma {:induction false} FieldFitsMore(f: Field, d: nat, e: nat)
    requires FieldFits(f, d) && d <= e
    ensures FieldFits(f, e)
    decreases f
  {
    match f
    case SubField(c) => ContentFitsMore(c, d, e);
    case NilMap =>
    case SubMap(items) =>
      forall k | k in items
        ensures e >= 2 && ContentFits(items[k], e - 1)
      {
        ContentFitsMore(items[k], d - 1, e - 1);
      }
  }

  lemma {:induction false} ContentFitsMore(c: Content, d: nat, e: nat)
    requires ContentFits(c, d) && d <= e
    ensures ContentFits(c, e)
    decreases c
  {
    if c.Fresh? {
      FitsMore(c.value, d - 1, e - 1);
    }
  }

  lemma {:induction false} SomeDepthFits(v: Value) returns (d: nat)
    ensures Fits(v, d)
    decreases v, 1, 0
  {
    d := 0;
    if v.Object? {
      d := SomeDepthFitsFields(v, v.fields.Keys);
    }
  }

  lemma {:induction false} SomeDepthFitsFields(v: Value, names: set<string>) returns (d: nat)
    requires v.Object? && names <= v.fields.Keys
    ensures d >= 1 && forall f | f in names :: FieldFits(v.fields[f], d)
    decreases v, 0, |names|
  {
    d := 1;
    if names != {} {
      var f :| f in names;
      d := SomeDepthFitsFields(v, names - {f});
      var e := SomeDepthFitsField(v.fields[f]);
      forall g | g in names - {f}
        ensures FieldFits(v.fields[g], d + e)
      {
        FieldFitsMore(v.fields[g], d, d + e);
      }
      FieldFitsMore(v.fields[f], e, d + e);
      d := d + e;
    }
  }

  lemma {:induction false} SomeDepthFitsField(f: Field) returns (d: nat)
    ensures FieldFits(f, d)
    decreases f, 1, 0
  {
    d := 0;
    match f
    case SubField(c) => d := SomeDepthFitsContent(c);
    case NilMap =>
    case SubMap(items) =>
      d := SomeDepthFitsItems(f, items.Keys);
  }

  lemma {:induction false} SomeDepthFitsItems(f: Field, names: set<string>) returns (d: nat)
    requires f.SubMap? && names <= f.items.Keys
    ensures d >= 2 && forall k | k in names :: ContentFits(f.items[k], d - 1)
    decreases f, 0, |names|
  {
    d := 2;
    if names != {} {
      var k :| k in names;
      d := SomeDepthFitsItems(f, names - {k});
      var e := SomeDepthFitsContent(f.items[k]);
      forall j | j in names - {k}
        ensures ContentFits(f.items[j], d + e - 1)
      {
        ContentFitsMore(f.items[j], d - 1, d + e - 1);
      }
      ContentFitsMore(f.items[k], e, d + e - 1);
      d := d + e;
    }
  }

  lemma {:induction false} SomeDepthFitsContent(c: Content) returns (d: nat)
    ensures ContentFits(c, d)
    decreases c, 0, 0
  {
    d := 1;
    if c.Fresh? {
      var e := SomeDepthFits(c.value);
      d := e + 1;
    }
  }

  ghost predicate SomeFits(nodes: Nodes, some: set<Path>, rank: nat) {
    forall q | q in some && q in nodes ::
      |q| <= rank && (nodes[q].value.Some? ==> Fits(nodes[q].value.value, rank - |q|))
  }

  lemma {:induction false} SomeRankFits(nodes: Nodes, some: set<Path>) returns (rank: nat)
    requires some <= nodes.Keys
    ensures SomeFits(nodes, some, rank)
    decreases |some|
  {
    rank := 0;
    if some != {} {
      var p :| p in some;
      var r := SomeRankFits(nodes, some - {p});
      var d := 0;
      if nodes[p].value.Some? {
        d := SomeDepthFits(nodes[p].value.value);
      }
      rank := r + |p| + d;
      forall q | q in some
        ensures |q| <= rank && (nodes[q].value.Some? ==> Fits(nodes[q].value.value, rank - |q|))
      {
        if nodes[q].value.Some? {
          FitsMore(nodes[q].value.value, if q == p then d else r - |q|, rank - |q|);
        }
      }
    }
  }

  /** Every tree has a bound on how deep a sync goes, so that sync always comes to an end. */
  lemma RankExists(nodes: Nodes) returns (rank: nat)
    ensures RankOk(nodes, [], rank)
  {
    rank := SomeRankFits(nodes, nodes.Keys);
  }

  // ----- The result, seen from a component on the way

  /** The component at `r` has been synchronised by the sync of the subtree at `p`. */
  ghost predicate Visited(nodes: Nodes, p: Path, r: Path, next: VersionedTransition)
    requires p in nodes && p <= r
  {
    r in nodes && Unsynced(nodes[r]) && SyncedNode(nodes, p, r, next) == Some(Settled(nodes[r]))
  }

  /** Below a component that was synchronised, the result is that of its own sync. */
  lemma {:induction false} SyncedBelow(nodes: Nodes, p: Path, r: Path, q: Path, next: VersionedTransition)
    requires PrefixClosed(nodes) && p in nodes && p <= r && r <= q && Visited(nodes, p, r, next)
    requires forall s | s in nodes && p <= s :: NodeOk(nodes, s)
    ensures SyncedNode(nodes, p, q, next) == SyncedNode(nodes, r, q, next)
    decreases |r| - |p|, 2
  {
    if r == p {
    } else {
      PrefixInNodes(nodes, Child(p, r[|p|]), r);
      assert q != p && q[|p|] == r[|p|];
      if Unsynced(nodes[p]) {
        assert NodeOk(nodes, p);
        FieldSyncedBelow(nodes, nodes[p].value.value.fields, p, r, q, next);
      } else {
        SyncedBelow(nodes, Child(p, r[|p|]), r, q, next);
      }
    }
  }

  lemma {:induction false} FieldSyncedBelow(nodes: Nodes, fields: map<string, Field>, p: Path, r: Path, q: Path,
                                            next: VersionedTransition)
    requires PrefixClosed(nodes) && p <= r && p != r && r <= q && r in nodes && Unsynced(nodes[r])
    requires FieldNode(nodes, fields, p, r, next) == Some(Settled(nodes[r]))
    requires forall s | s in nodes && p <= s :: NodeOk(nodes, s)
    requires forall f | f in fields :: FieldOk(nodes, fields[f], Child(p, f))
    ensures FieldNode(nodes, fields, p, q, next) == SyncedNode(nodes, r, q, next)
    decreases |r| - |p|, 1
  {
    var child := Child(p, r[|p|]);
    assert child == Child(p, q[|p|]);
    assert FieldOk(nodes, fields[r[|p|]], child);
    match fields[r[|p|]]
    case SubField(content) => ContentSyncedBelow(nodes, content, child, r, q, next);
    case NilMap =>
    case SubMap(items) =>
      assert FieldNode(nodes, fields, p, r, next) == ItemNode(nodes, items, child, r, next);
      assert FieldNode(nodes, fields, p, q, next) == ItemNode(nodes, items, child, q, next);
      if r != child {
        ContentSyncedBelow(nodes, items[r[|child|]], Child(child, r[|child|]), r, q, next);
      }
  }

  lemma {:induction false} ContentSyncedBelow(nodes: Nodes, content: Content, child: Path, r: Path, q: Path,
                                              next: VersionedTransition)
    requires PrefixClosed(nodes) && child <= r && r <= q && r in nodes && Unsynced(nodes[r])
    requires ContentNode(nodes, content, child, r, next) == Some(Settled(nodes[r]))
    requires forall s | s in nodes && child <= s :: NodeOk(nodes, s)
    requires ContentOk(nodes, content, child)
    ensures ContentNode(nodes, content, child, q, next) == SyncedNode(nodes, r, q, next)
    decreases |r| - |child|, 3
  {
    PrefixInNodes(nodes, child, r);
    if nodes[child].IsComponent() && nodes[child].value.Some? {
      SyncedBelow(nodes, child, r, q, next);
    }
  }

  // ----- The children are those of the fields

  predicate KeptContent(c: Content) {
    !c.Empty?
  }

  lemma ContentHasNode(nodes: Nodes, c: Content, child: Path, next: VersionedTransition)
    requires ContentOk(nodes, c, child)
    ensures ContentNode(nodes, c, child, child, next).Some? <==> KeptContent(c)
  {
    if c.Attached? && nodes[child].IsComponent() && nodes[child].value.Some? {
      assert SyncedNode(nodes, child, child, next) == Some(Settled(nodes[child]));
    }
  }

  lemma FieldHasNode(nodes: Nodes, f: Field, child: Path, next: VersionedTransition)
    requires FieldOk(nodes, f, child)
    ensures FieldAt(nodes, f, child, child, next).Some? <==> KeptField(f)
  {
    match f
    case SubField(c) => ContentHasNode(nodes, c, child, next);
    case NilMap =>
    case SubMap(items) => assert FieldAt(nodes, f, child, child, next) == ItemNode(nodes, items, child, child, next);
  }

  /** A component that has been synchronised has exactly the children that its fields name. */
  lemma ChildrenMatchFields(before: Nodes, after: Nodes, next: VersionedTransition, p: Path, f: string)
    requires PrefixClosed(before) && NodesOk(before, []) && WholeSync(before, after, next)
    requires p in before && Unsynced(before[p]) && before[p].state == NeedSyncStructure && p in after &&
             after[p] == Settled(before[p])
    ensures Child(p, f) in after <==> f in before[p].value.value.fields && KeptField(before[p].value.value.fields[f])
  {
    assert Same(after, p) == SyncedNode(before, [], p, next);
    var fields := before[p].value.value.fields;
    var child := Child(p, f);
    assert NodeOk(before, p);
    SyncedBelow(before, [], p, child, next);
    assert Same(after, child) == SyncedNode(before, [], child, next);
    assert SyncedNode(before, p, child, next) == FieldNode(before, fields, p, child, next);
    if f in fields {
      assert FieldOk(before, fields[f], child);
      assert FieldNode(before, fields, p, child, next) == FieldAt(before, fields[f], child, child, next);
      FieldHasNode(before, fields[f], child, next);
    }
  }

  /** A collection of such a component has exactly the items that have not been cleared. */
  lemma ItemsMatchMap(before: Nodes, after: Nodes, next: VersionedTransition, p: Path, f: string, k: string)
    requires PrefixClosed(before) && NodesOk(before, []) && WholeSync(before, after, next)
    requires p in before && Unsynced(before[p]) && before[p].state == NeedSyncStructure && p in after &&
             after[p] == Settled(before[p])
    requires f in before[p].value.value.fields && before[p].value.value.fields[f].SubMap?
    ensures var items := before[p].value.value.fields[f].items;
            Child(Child(p, f), k) in after <==> k in items && KeptContent(items[k])
  {
    assert Same(after, p) == SyncedNode(before, [], p, next);
    var fields := before[p].value.value.fields;
    var items := fields[f].items;
    var child := Child(p, f);
    var item := Child(child, k);
    assert NodeOk(before, p);
    assert p <= item;
    SyncedBelow(before, [], p, item, next);
    assert Same(after, item) == SyncedNode(before, [], item, next);
    assert item[|p|] == f && item[|child|] == k && child <= item;
    assert SyncedNode(before, p, item, next) == FieldNode(before, fields, p, item, next) ==
           ItemNode(before, items, child, item, next);
    if k in items {
      assert FieldOk(before, fields[f], child);
      assert ItemNode(before, items, child, item, next) == ContentNode(before, items[k], item, item, next);
      ContentHasNode(before, items[k], item, next);
    }
  }

  // ----- What a sync leaves to synchronise

  /** What the component at `r` has in its fields on the way to `q`, and where. */
  function Towards(nodes: Nodes, r: Path, q: Path): Option<(Content, Path)>
    requires r in nodes && Unsynced(nodes[r]) && r <= q && r != q
  {
    var fields, child := nodes[r].value.value.fields, Child(r, q[|r|]);
    if q[|r|] !in fields then None
    else
      match fields[q[|r|]]
      case SubField(c) => Some((c, child))
      case NilMap => None
      case SubMap(items) => if q != child && q[|child|] in items then
        Some((items[q[|child|]], Child(child, q[|child|]))) else None
  }

  /** A component whose value has been read. */
  predicate Read(nodes: Nodes, p: Path) {
    p in nodes && nodes[p].IsComponent() && nodes[p].value.Some?
  }

  /** At `r`, strictly above `q`, sync goes on towards `q`. */
  predicate Passes(nodes: Nodes, r: Path, q: Path) {
    && r in nodes && r <= q && r != q
    && (Unsynced(nodes[r]) ==> Towards(nodes, r, q).Some? && Towards(nodes, r, q).value.0.Attached? &&
                               Read(nodes, Towards(nodes, r, q).value.1))
  }

  /** At `r`, a component that is to be synchronised, sync does not: the next field or item is
      attached, but not a component whose value has been read. */
  predicate Stops(nodes: Nodes, r: Path, q: Path) {
    && r in nodes && r <= q && r != q && Unsynced(nodes[r])
    && Towards(nodes, r, q).Some?
    && var (content, child) := Towards(nodes, r, q).value;
       (content.Attached? && !Read(nodes, child)) || content.AttachedDeferred?
  }

  /** On the way from `p` to `q`, sync comes to a component where it stops. */
  ghost predicate Blocked(nodes: Nodes, p: Path, q: Path) {
    exists r :: p <= r && Stops(nodes, r, q) && PassesBetween(nodes, p, r, q)
  }

  ghost predicate PassesBetween(nodes: Nodes, p: Path, r: Path, q: Path) {
    forall s | p <= s && s <= r && s != r :: Passes(nodes, s, q)
  }

  lemma StoppedAtOnce(nodes: Nodes, p: Path, q: Path)
    requires Stops(nodes, p, q)
    ensures Blocked(nodes, p, q)
  {
    assert PassesBetween(nodes, p, p, q);
  }

  lemma NotPassed(nodes: Nodes, p: Path, q: Path)
    requires p <= q && p != q && !Passes(nodes, p, q) && !Stops(nodes, p, q)
    ensures !Blocked(nodes, p, q)
  {
    assert forall r | p <= r && r != p && Stops(nodes, r, q) && PassesBetween(nodes, p, r, q) :: Passes(nodes, p, q);
  }

  /** Between `p` and `child` there is at most the node of a collection. */
  ghost predicate NextOn(nodes: Nodes, p: Path, child: Path, q: Path) {
    && p <= child && p != child && child <= q
    && forall s | p <= s && s <= child && s != p && s != child :: s in nodes && !Unsynced(nodes[s])
  }

  lemma BlockedFurtherOn(nodes: Nodes, p: Path, child: Path, q: Path)
    requires Passes(nodes, p, q) && NextOn(nodes, p, child, q)
    ensures Blocked(nodes, p, q) <==> Blocked(nodes, child, q)
  {
    if Blocked(nodes, p, q) {
      var r :| p <= r && Stops(nodes, r, q) && PassesBetween(nodes, p, r, q);
      assert r != p;
      assert child <= r;
      assert PassesBetween(nodes, child, r, q);
    }
    if Blocked(nodes, child, q) {
      var r :| child <= r && Stops(nodes, r, q) && PassesBetween(nodes, child, r, q);
      forall s | p <= s && s <= r && s != r
        ensures Passes(nodes, s, q)
      {
        if s != p && !(child <= s) {
          assert s <= child && s != child;
        }
      }
      assert p <= r && PassesBetween(nodes, p, r, q);
    }
  }

  /** What sync makes of the positions at and below a node that is to be synchronised. */
  ghost predicate Outlasts(nodes: Nodes, p: Path, q: Path, next: VersionedTransition)
    requires p in nodes && p <= q
  {
    forall r | q <= r :: SyncedNode(nodes, p, r, next) == Same(nodes, r)
  }

  lemma TowardsBelow(nodes: Nodes, p: Path, q: Path)
    requires p in nodes && Unsynced(nodes[p]) && p <= q && p != q && Towards(nodes, p, q).Some?
    ensures var at := Towards(nodes, p, q).value.1; p <= at && p != at && at <= q
  {
  }

  lemma ContentTowards(nodes: Nodes, p: Path, q: Path, r: Path, next: VersionedTransition)
    requires p in nodes && Unsynced(nodes[p]) && p <= q && p != q && Towards(nodes, p, q).Some?
    requires Towards(nodes, p, q).value.1 <= r
    ensures p <= r &&
            SyncedNode(nodes, p, r, next) ==
            ContentNode(nodes, Towards(nodes, p, q).value.0, Towards(nodes, p, q).value.1, r, next)
  {
    TowardsBelow(nodes, p, q);
    var fields, child := nodes[p].value.value.fields, Child(p, q[|p|]);
    assert r[|p|] == q[|p|];
    assert SyncedNode(nodes, p, r, next) == FieldNode(nodes, fields, p, r, next) ==
           FieldAt(nodes, fields[q[|p|]], child, r, next);
    if fields[q[|p|]].SubMap? {
      assert r[|child|] == q[|child|];
      assert FieldAt(nodes, fields[q[|p|]], child, r, next) == ItemNode(nodes, fields[q[|p|]].items, child, r, next);
    }
  }

  /** Where a component has nothing on the way to a node, or only a collection there. */
  lemma NothingTowards(nodes: Nodes, p: Path, q: Path, next: VersionedTransition)
    requires p in nodes && Unsynced(nodes[p]) && p <= q && p != q && Towards(nodes, p, q).None?
    ensures var n := SyncedNode(nodes, p, q, next); n.Some? ==> n.value.state != NeedSyncStructure
  {
    var fields, child := nodes[p].value.value.fields, Child(p, q[|p|]);
    assert SyncedNode(nodes, p, q, next) == FieldNode(nodes, fields, p, q, next);
    if q[|p|] in fields && fields[q[|p|]].SubMap? {
      assert FieldNode(nodes, fields, p, q, next) == FieldAt(nodes, fields[q[|p|]], child, q, next);
      assert FieldAt(nodes, fields[q[|p|]], child, q, next) == ItemNode(nodes, fields[q[|p|]].items, child, q, next);
    }
  }

  lemma NextAfterComponent(nodes: Nodes, p: Path, q: Path)
    requires PrefixClosed(nodes) && p in nodes && Unsynced(nodes[p]) && NodeOk(nodes, p) && p <= q &&
             p != q && q in nodes
    requires Towards(nodes, p, q).Some?
    ensures NextOn(nodes, p, Towards(nodes, p, q).value.1, q)
  {
    TowardsBelow(nodes, p, q);
    var child, at := Child(p, q[|p|]), Towards(nodes, p, q).value.1;
    assert FieldOk(nodes, nodes[p].value.value.fields[q[|p|]], child);
    PrefixInNodes(nodes, child, q);
    forall s | p <= s && s <= at && s != p && s != at
      ensures s in nodes && !Unsynced(nodes[s])
    {
      assert s == child;
    }
  }

  /** A node that is to be synchronised stays as it is, with all that is below it, exactly if
      sync stops on the way to it. */
  lemma {:induction false} LeftFrom(nodes: Nodes, p: Path, q: Path, next: VersionedTransition)
    requires PrefixClosed(nodes) && p in nodes && p <= q && NodesOk(nodes, p) && q in nodes &&
             nodes[q].state == NeedSyncStructure
    ensures var n := SyncedNode(nodes, p, q, next); n.Some? && n.value.state == NeedSyncStructure <==>
            Blocked(nodes, p, q)
    ensures Blocked(nodes, p, q) ==> Outlasts(nodes, p, q, next)
    decreases |q| - |p|
  {
    assert NodeOk(nodes, p) && NodeOk(nodes, q);
    if q == p {
      assert !Blocked(nodes, p, q);
    } else {
      PrefixInNodes(nodes, Child(p, q[|p|]), q);
      if !Unsynced(nodes[p]) {
        LeftBelow(nodes, p, Child(p, q[|p|]), q, next);
      } else {
        LeftBelowComponent(nodes, p, q, next);
      }
    }
  }

  lemma {:induction false} LeftBelow(nodes: Nodes, p: Path, child: Path, q: Path, next: VersionedTransition)
    requires PrefixClosed(nodes) && p in nodes && NodesOk(nodes, p) && q in nodes && nodes[q].state == NeedSyncStructure
    requires Passes(nodes, p, q) && NextOn(nodes, p, child, q) && child in nodes
    requires forall r | child <= r :: SyncedNode(nodes, p, r, next) == SyncedNode(nodes, child, r, next)
    ensures var n := SyncedNode(nodes, p, q, next); n.Some? && n.value.state == NeedSyncStructure <==>
            Blocked(nodes, p, q)
    ensures Blocked(nodes, p, q) ==> Outlasts(nodes, p, q, next)
    decreases |q| - |p|, 0
  {
    LeftFrom(nodes, child, q, next);
    BlockedFurtherOn(nodes, p, child, q);
  }

  lemma {:induction false} LeftBelowComponent(nodes: Nodes, p: Path, q: Path, next: VersionedTransition)
    requires PrefixClosed(nodes) && p in nodes && p <= q && p != q && NodesOk(nodes, p) && q in nodes &&
             nodes[q].state == NeedSyncStructure
    requires Unsynced(nodes[p])
    ensures var n := SyncedNode(nodes, p, q, next); n.Some? && n.value.state == NeedSyncStructure <==>
            Blocked(nodes, p, q)
    ensures Blocked(nodes, p, q) ==> Outlasts(nodes, p, q, next)
    decreases |q| - |p|, 1
  {
    assert NodeOk(nodes, p);
    if Towards(nodes, p, q).None? {
      NothingTowards(nodes, p, q, next);
      NotPassed(nodes, p, q);
    } else {
      var (content, at) := Towards(nodes, p, q).value;
      TowardsBelow(nodes, p, q);
      NextAfterComponent(nodes, p, q);
      PrefixInNodes(nodes, at, q);
      forall r | at <= r
        ensures p <= r && SyncedNode(nodes, p, r, next) == ContentNode(nodes, content, at, r, next)
      {
        ContentTowards(nodes, p, q, r, next);
      }
      if Stops(nodes, p, q) {
        StoppedAtOnce(nodes, p, q);
      } else if Passes(nodes, p, q) {
        LeftBelow(nodes, p, at, q, next);
      } else {
        NotPassed(nodes, p, q);
      }
    }
  }

  /** What is to be synchronised at `q` is missed, with everything below it, if sync stops
      above it: at a component, at whatever depth, that has an attached child or item on the
      way whose value has not been read. */
  lemma UnreadComponentBlocksSync(before: Nodes, after: Nodes, next: VersionedTransition, q: Path)
    requires PrefixClosed(before) && NodesOk(before, []) && WholeSync(before, after, next)
    requires q in before && before[q].state == NeedSyncStructure && Blocked(before, [], q)
    ensures forall r | q <= r :: Same(after, r) == Same(before, r)
  {
    LeftFrom(before, [], q, next);
    forall r | q <= r
      ensures Same(after, r) == Same(before, r)
    {
      assert Same(after, r) == SyncedNode(before, [], r, next);
    }
  }

  /** Nothing else is missed. */
  lemma LeftToSync(before: Nodes, after: Nodes, next: VersionedTransition, q: Path)
    requires PrefixClosed(before) && NodesOk(before, []) && WholeSync(before, after, next)
    ensures q in after && after[q].state == NeedSyncStructure <==>
            q in before && before[q].state == NeedSyncStructure && Blocked(before, [], q)
  {
    assert Same(after, q) == SyncedNode(before, [], q, next);
    SyncedNodeOrigin(before, [], q, next);
    if q in before && before[q].state == NeedSyncStructure {
      LeftFrom(before, [], q, next);
    }
  }

  ghost predicate NothingBlocked(nodes: Nodes) {
    forall q | q in nodes && nodes[q].state == NeedSyncStructure :: !Blocked(nodes, [], q)
  }

  ghost predicate NothingToSync(nodes: Nodes) {
    forall q | q in nodes :: nodes[q].state != NeedSyncStructure
  }

  /** One sync leaves nothing to synchronise exactly if it stops above no changed value. */
  lemma NothingLeftToSync(before: Nodes, after: Nodes, next: VersionedTransition)
    requires PrefixClosed(before) && NodesOk(before, []) && WholeSync(before, after, next)
    ensures NothingToSync(after) <==> NothingBlocked(before)
  {
    forall q
      ensures q in after && after[q].state == NeedSyncStructure <==>
              q in before && before[q].state == NeedSyncStructure && Blocked(before, [], q)
    {
      LeftToSync(before, after, next, q);
    }
  }

  /** A root that was written, over a component `a` whose value has not been read, over a
      component `b` that was written. */
  function UnreadExample(root: ChasmNode, a: ChasmNode, b: ChasmNode): Nodes {
    map[[] := Node(Some(root), Some(Object(0, map["a" := SubField(Attached)])), NeedSyncStructure, Some("")),
        ["a"] := Node(Some(a), None, NeedDeserialize, None),
        ["a", "b"] := Node(Some(b), Some(Object(1, map[])), NeedSyncStructure, None)]
  }

  lemma UnreadExampleOk(root: ChasmNode, a: ChasmNode, b: ChasmNode)
    requires root.attributes.Component? && a.attributes.Component? && b.attributes.Component?
    ensures var nodes := UnreadExample(root, a, b);
            PrefixClosed(nodes) && NodesOk(nodes, []) && Blocked(nodes, [], ["a", "b"])
  {
    var nodes := UnreadExample(root, a, b);
    forall p, f | Child(p, f) in nodes
      ensures p in nodes
    {
      assert p == Child(p, f)[..|p|] && ["a"][..0] == [] && ["a", "b"][..1] == ["a"];
    }
    assert Child([], "a") == ["a"] && ["a", "b"][0] == "a";
    assert Towards(nodes, [], ["a", "b"]) == Some((Attached, ["a"]));
    StoppedAtOnce(nodes, [], ["a", "b"]);
  }

  /** So the promise that a sync leaves nothing to synchronise can fail. */
  lemma UnreadComponentExample(root: ChasmNode, a: ChasmNode, b: ChasmNode, after: Nodes, next: VersionedTransition)
    requires root.attributes.Component? && a.attributes.Component? && b.attributes.Component?
    requires WholeSync(UnreadExample(root, a, b), after, next)
    ensures ["a", "b"] in after && after[["a", "b"]].state == NeedSyncStructure && !NothingToSync(after)
  {
    UnreadExampleOk(root, a, b);
    LeftToSync(UnreadExample(root, a, b), after, next, ["a", "b"]);
  }

  /** The components above every value that was written have been read. */
  ghost predicate Hydrated(nodes: Nodes) {
    forall q, r | q in nodes && nodes[q].state == NeedSyncStructure && r <= q && r in nodes ::
      nodes[r].IsMap() || Read(nodes, r)
  }

  /** It is enough for that if all components on the way have been read. */
  lemma HydratedIsNotBlocked(nodes: Nodes)
    requires PrefixClosed(nodes) && NodesOk(nodes, []) && Hydrated(nodes)
    ensures NothingBlocked(nodes)
  {
    forall q, r | q in nodes && nodes[q].state == NeedSyncStructure && r in nodes
      ensures !Stops(nodes, r, q)
    {
      HydratedDoesNotStop(nodes, r, q);
    }
  }

  lemma HydratedDoesNotStop(nodes: Nodes, r: Path, q: Path)
    requires PrefixClosed(nodes) && NodesOk(nodes, []) && Hydrated(nodes) && q in nodes &&
             nodes[q].state == NeedSyncStructure
    ensures !Stops(nodes, r, q)
  {
    if r in nodes && r <= q && r != q && Unsynced(nodes[r]) && Towards(nodes, r, q).Some? {
      var at := Towards(nodes, r, q).value.1;
      TowardsBelow(nodes, r, q);
      PrefixInNodes(nodes, at, q);
      assert NodeOk(nodes, r) && FieldOk(nodes, nodes[r].value.value.fields[q[|r|]], Child(r, q[|r|]));
      assert nodes[at].IsMap() || Read(nodes, at);
    }
  }

  lemma {:induction false} SyncedNodeIdle(nodes: Nodes, p: Path, q: Path, next: VersionedTransition)
    requires PrefixClosed(nodes) && p in nodes && p <= q
    requires forall r | r in nodes && p <= r :: nodes[r].state != NeedSyncStructure
    ensures SyncedNode(nodes, p, q, next) == Same(nodes, q)
    decreases |q| - |p|
  {
    if q == p {
    } else {
      if Child(p, q[|p|]) in nodes {
        SyncedNodeIdle(nodes, Child(p, q[|p|]), q, next);
      } else if q in nodes {
        PrefixInNodes(nodes, Child(p, q[|p|]), q);
      }
    }
  }

  lemma SameNodes(a: Nodes, b: Nodes)
    requires forall q :: Same(a, q) == Same(b, q)
    ensures a == b
  {
    forall q
      ensures q in a <==> q in b
      ensures q in a ==> a[q] == b[q]
    {
      assert Same(a, q) == Same(b, q);
    }
    SameMap(a, b);
  }

  lemma IdleSync(before: Nodes, after: Nodes, next: VersionedTransition)
    requires PrefixClosed(before) && WholeSync(before, after, next) && NothingToSync(before)
    ensures after == before
  {
    forall q
      ensures Same(after, q) == Same(before, q)
    {
      SyncedNodeIdle(before, [], q, next);
    }
    SameNodes(after, before);
  }

  /** Of the nodes to be synchronised at or above `q`, the topmost. */
  lemma {:induction false} Topmost(nodes: Nodes, q: Path) returns (top: Path)
    requires q in nodes && nodes[q].state == NeedSyncStructure
    ensures top in nodes && nodes[top].state == NeedSyncStructure && !Blocked(nodes, [], top)
    decreases |q|
  {
    top := q;
    if Blocked(nodes, [], q) {
      var r :| [] <= r && Stops(nodes, r, q) && PassesBetween(nodes, [], r, q);
      top := Topmost(nodes, r);
    }
  }

  lemma MissedNodesOk(before: Nodes, after: Nodes, next: VersionedTransition)
    requires PrefixClosed(before) && NodesOk(before, []) && WholeSync(before, after, next)
    ensures NodesOk(after, [])
  {
    forall q | q in after && after[q].state == NeedSyncStructure
      ensures NodeOk(after, q)
    {
      LeftToSync(before, after, next, q);
      UnreadComponentBlocksSync(before, after, next, q);
      assert NodeOk(before, q) && Same(after, q) == Same(before, q);
      SameBelowOk(before, after, q);
    }
  }

  lemma SameBelowOk(before: Nodes, after: Nodes, q: Path)
    requires q in before && q in after && before[q] == after[q] && before[q].state == NeedSyncStructure &&
             NodeOk(before, q)
    requires forall r | q <= r :: Same(after, r) == Same(before, r)
    ensures NodeOk(after, q)
  {
    forall f | f in after[q].value.value.fields
      ensures FieldOk(after, after[q].value.value.fields[f], Child(q, f))
    {
      assert FieldOk(before, before[q].value.value.fields[f], Child(q, f));
      assert Same(after, Child(q, f)) == Same(before, Child(q, f));
      if after[q].value.value.fields[f].SubMap? {
        forall k | k in after[q].value.value.fields[f].items
          ensures ContentOk(after, after[q].value.value.fields[f].items[k], Child(Child(q, f), k))
        {
          assert Same(after, Child(Child(q, f), k)) == Same(before, Child(Child(q, f), k));
        }
      }
    }
  }

  /** A second sync changes nothing exactly if the first one has stopped nowhere: where it
      has, the component it stopped at has been dealt with, and the second gets past it. */
  lemma SyncIsIdempotent(before: Nodes, mid: Nodes, after: Nodes, next: VersionedTransition)
    requires PrefixClosed(before) && NodesOk(before, []) && WholeSync(before, mid, next)
    requires PrefixClosed(mid) && WholeSync(mid, after, next)
    ensures after == mid <==> NothingBlocked(before)
  {
    NothingLeftToSync(before, mid, next);
    if NothingToSync(mid) {
      IdleSync(mid, after, next);
    } else {
      var q :| q in mid && mid[q].state == NeedSyncStructure;
      var top := Topmost(mid, q);
      MissedNodesOk(before, mid, next);
      LeftToSync(mid, after, next, top);
    }
  }
}
