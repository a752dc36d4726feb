/** A standby that applies the mutations of its source one after the other (chasm/tree.go)
    holds after each of them the state that the transaction has left. */
module Following {
  import opened Basics
  import opened PathEncoder
  import opened Tasks
  import opened ChasmTree
  import opened Transaction
  import opened Replication
  import opened ReplicationApply
  import opened Persistence
  import Convergence
  import opened Execution
  import opened Transitions
  import opened Source

  // ----- What a mutation says

  /** The mutation leads from the tree `a` to the tree `b`: it holds the records of `b` that it
      updates, what it neither updates nor deletes is as it was, and what it does not delete
      has kept its key. */
  ghost predicate Brings(a: Nodes, b: Nodes, mutation: Mutation) {
    && (forall k | k in mutation.updated ::
          KeyOfNode(b, k) && b[Decoded(k).value].serialized == Some(mutation.updated[k]))
    && (forall k | k in mutation.deleted :: Decoded(k).Ok? && Decoded(k).value != [])
    && (forall q | q in b && Key(b, q) !in mutation.updated :: KeptBy(a, b, mutation, q))
    && (forall q | q in a && !Covered(Paths(mutation.deleted), q) :: q in b && Key(b, q) == Key(a, q))
  }

  ghost predicate KeptBy(a: Nodes, b: Nodes, mutation: Mutation, q: Path)
    requires q in b
  {
    q in a && b[q].serialized == a[q].serialized && !Covered(Paths(mutation.deleted), q)
  }

  lemma NotUpdatedIsKept(a: Nodes, m: Moment, next: VersionedTransition, codec: Codec, mutation: Mutation,
                         b: Nodes, q: Path)
    requires ClosedFrom(a, m, next, codec, mutation, b) && mutation.deleted <= m.deleted
    requires q in b && Key(b, q) !in mutation.updated
    ensures KeptBy(a, b, mutation, q)
  {
    assert ContentAt(m.nodes, next, codec, mutation, b, q);
    assert KeptAt(a, m.nodes, q);
    DeletedIsDirty(m, mutation.deleted, q);
  }

  lemma DeletedIsDirty(m: Moment, deleted: set<string>, q: Path)
    requires DeletedAnew(m) && deleted <= m.deleted && q in m.nodes
    ensures Covered(Paths(deleted), q) ==> Dirty(m.nodes[q])
  {
    if Covered(Paths(deleted), q) {
      var d :| d in Paths(deleted) && d <= q;
      var k :| k in deleted && Decoded(k) == Ok(d);
      assert k in m.deleted;
    }
  }

  lemma DeletedCovers(deleted: set<string>, k: string, q: Path)
    requires Decoded(k) == Ok(q)
    ensures k in deleted ==> Covered(Paths(deleted), q)
  {
    if k in deleted {
      assert q in Paths(deleted) && q <= q;
    }
  }

  lemma NotDeletedIsKept(a: Nodes, b: Nodes, image: Records, mutation: Mutation, q: Path)
    requires FullImage(a, image) && FullImage(b, mutation.Apply(image)) && q in a && Decoded(Key(a, q)) == Ok(q)
    requires !Covered(Paths(mutation.deleted), q)
    ensures q in b && Key(b, q) == Key(a, q)
  {
    var k := Key(a, q);
    DeletedCovers(mutation.deleted, k, q);
    assert k in mutation.Apply(image);
    assert KeyOfNode(b, k);
  }

  lemma UpdatesAreOfTree(b: Nodes, image: Records, mutation: Mutation, k: string)
    requires FullImage(b, mutation.Apply(image)) && k in mutation.updated
    ensures KeyOfNode(b, k) && b[Decoded(k).value].serialized == Some(mutation.updated[k])
  {
    assert k in mutation.Apply(image);
    assert KeyOfNode(b, k);
  }

  lemma TxBrings(a: Nodes, tx: Tx, b: Nodes, last: VersionedTransition, next: VersionedTransition)
    requires tx.Leads(a, b, last, next) && SourceTree(a)
    ensures Brings(a, b, tx.mutation)
  {
    var m := Moment(tx.resolved, tx.synced.deleted);
    TxCloses(a, tx, b, last, next);
    SourceKeys(a);
    ClosedBrings(a, m, next, tx.codec, tx.image, tx.mutation, b);
  }

  lemma ClosedBrings(a: Nodes, m: Moment, next: VersionedTransition, codec: Codec, image: Records, mutation: Mutation,
                     b: Nodes)
    requires ClosedFrom(a, m, next, codec, mutation, b) && mutation.deleted <= m.deleted
    requires FullImage(a, image) && FullImage(b, mutation.Apply(image)) &&
             forall q | q in a :: Decoded(Key(a, q)) == Ok(q)
    ensures Brings(a, b, mutation)
  {
    forall k | k in mutation.updated
      ensures KeyOfNode(b, k) && b[Decoded(k).value].serialized == Some(mutation.updated[k])
    {
      UpdatesAreOfTree(b, image, mutation, k);
    }
    forall q | q in b && Key(b, q) !in mutation.updated
      ensures KeptBy(a, b, mutation, q)
    {
      NotUpdatedIsKept(a, m, next, codec, mutation, b, q);
    }
    forall q | q in a && !Covered(Paths(mutation.deleted), q)
      ensures q in b && Key(b, q) == Key(a, q)
    {
      NotDeletedIsKept(a, b, image, mutation, q);
    }
  }

  // ----- What the standby makes of it

  /** The outcome of applying the mutation to `nodes`, whatever the order of its updates. */
  ghost predicate Followed(nodes: Nodes, mutation: Mutation, order: seq<string>, result: Nodes) {
    && Decodable(mutation.updated) && Enumerates(order, mutation.updated.Keys)
    && result == UpdatedAll(RemainingNodes(nodes, Paths(mutation.deleted)), order, mutation.updated)
  }

  lemma FollowedOutcome(a: Nodes, b: Nodes, mutation: Mutation, nodes: Nodes, order: seq<string>, result: Nodes)
    requires Brings(a, b, mutation) && PrefixClosed(nodes) && Followed(nodes, mutation, order, result)
    ensures Outcome(RemainingNodes(nodes, Paths(mutation.deleted)), order, mutation.updated, result)
  {
    RemainingClosed(nodes, Paths(mutation.deleted));
    UpdatedAllOutcome(RemainingNodes(nodes, Paths(mutation.deleted)), order, mutation.updated);
  }

  lemma AboveUpdates(a: Nodes, b: Nodes, mutation: Mutation, order: seq<string>, p: Path)
    requires Brings(a, b, mutation) && PrefixClosed(b) && Enumerates(order, mutation.updated.Keys)
    requires p in b ==> Decoded(Key(b, p)) == Ok(p)
    ensures Above(order, p) ==> p in b
    ensures p in b && Key(b, p) in mutation.updated ==> Above(order, p)
  {
    if Above(order, p) {
      var k :| k in order && Decoded(k).Ok? && p <= Decoded(k).value;
      assert KeyOfNode(b, k);
      PrefixInNodes(b, p, Decoded(k).value);
    }
    if p in b && Key(b, p) in mutation.updated {
      assert Key(b, p) in order;
    }
  }

  lemma RestIsInB(a: Nodes, b: Nodes, mutation: Mutation, nodes: Nodes, p: Path)
    requires Brings(a, b, mutation) && nodes.Keys == a.Keys && [] in b
    ensures p in RemainingNodes(nodes, Paths(mutation.deleted)) ==> p in b
    ensures p in b && Key(b, p) !in mutation.updated ==> p in RemainingNodes(nodes, Paths(mutation.deleted))
  {
    assert p in b && Key(b, p) !in mutation.updated ==> KeptBy(a, b, mutation, p);
  }

  lemma FollowedPosition(a: Nodes, b: Nodes, mutation: Mutation, nodes: Nodes, order: seq<string>, result: Nodes,
                         p: Path)
    requires Brings(a, b, mutation) && nodes.Keys == a.Keys && PrefixClosed(b) &&
             Enumerates(order, mutation.updated.Keys)
    requires p in b ==> Decoded(Key(b, p)) == Ok(p)
    requires Outcome(RemainingNodes(nodes, Paths(mutation.deleted)), order, mutation.updated, result)
    ensures p in result <==> p in b
  {
    AboveUpdates(a, b, mutation, order, p);
    RestIsInB(a, b, mutation, nodes, p);
  }

  /** The node at `q` has arrived: its record is that of the source, and a key cached is its
      key there. */
  ghost predicate CopiedAt(b: Nodes, result: Nodes, q: Path)
    requires q in b
  {
    && q in result && Stripped(result[q]) == Stripped(b[q])
    && (result[q].encodedPath.Some? ==> result[q].encodedPath.value == Key(b, q))
  }

  lemma UpdatedIsCopied(a: Nodes, b: Nodes, last: VersionedTransition, mutation: Mutation, nodes: Nodes,
                        order: seq<string>, result: Nodes, q: Path)
    requires Brings(a, b, mutation) && Holds(nodes, a) && SourceTree(a) && LastUpdatesUpTo(a, last) &&
             Descends(a, b, last)
    requires SourceTree(b) && q in b && q in result && Key(b, q) in mutation.updated &&
             Enumerates(order, mutation.updated.Keys)
    requires Outcome(RemainingNodes(nodes, Paths(mutation.deleted)), order, mutation.updated, result)
    ensures CopiedAt(b, result, q)
  {
    var rest, k := RemainingNodes(nodes, Paths(mutation.deleted)), Key(b, q);
    SourceKeys(b);
    assert k in order && Decoded(k) == Ok(q);
    assert UpdateResult(rest, q, k, mutation.updated[k], result[q]);
    if q in rest {
      RestKey(a, b, mutation, nodes, q);
      NotNeededIsSame(a, b, last, nodes, q);
    }
    UpdateCopies(b, rest, k, mutation.updated[k], result, q);
  }

  lemma UpdateCopies(b: Nodes, rest: Nodes, k: string, record: ChasmNode, result: Nodes, q: Path)
    requires q in b && b[q].serialized == Some(record) && Key(b, q) == k && q in result &&
             UpdateResult(rest, q, k, record, result[q])
    requires q in rest && !NeedsUpdate(rest[q], record) ==> Stripped(rest[q]) == Stripped(b[q])
    requires q in rest && rest[q].encodedPath.Some? ==> rest[q].encodedPath.value == k
    ensures CopiedAt(b, result, q)
  {
  }

  lemma NotNeededIsSame(a: Nodes, b: Nodes, last: VersionedTransition, nodes: Nodes, q: Path)
    requires Holds(nodes, a) && LastUpdatesUpTo(a, last) && Descends(a, b, last)
    requires q in nodes && q in b && b[q].serialized.Some?
    ensures !NeedsUpdate(nodes[q], b[q].serialized.value) ==> Stripped(nodes[q]) == Stripped(b[q])
  {
    if !NeedsUpdate(nodes[q], b[q].serialized.value) {
      Convergence.SameVersion(nodes[q].serialized.value.lastUpdate, b[q].serialized.value.lastUpdate);
      UnchangedDescends(a, b, last, nodes, q);
    }
  }

  /** What the deletions leave has the key that it has at the source. */
  lemma RestKey(a: Nodes, b: Nodes, mutation: Mutation, nodes: Nodes, q: Path)
    requires Brings(a, b, mutation) && Holds(nodes, a) && SourceTree(a) && SourceTree(b)
    requires q in b && q in RemainingNodes(nodes, Paths(mutation.deleted))
    ensures var rest := RemainingNodes(nodes, Paths(mutation.deleted));
            && rest[q].serialized == nodes[q].serialized
            && (rest[q].encodedPath.Some? ==> rest[q].encodedPath.value == Key(b, q))
  {
    HoldsKey(nodes, a, q);
    if q == [] {
      SourceKeys(a);
      SourceKeys(b);
      assert Key(a, q) == Key(b, q);
    }
  }

  lemma TouchedIsUpdated(a: Nodes, b: Nodes, mutation: Mutation, order: seq<string>, q: Path)
    requires Brings(a, b, mutation) && q in b && Enumerates(order, mutation.updated.Keys)
    ensures Touched(order, q) ==> Key(b, q) in mutation.updated
  {
    if Touched(order, q) {
      var k :| k in order && Decoded(k) == Ok(q);
      assert KeyOfNode(b, k);
    }
  }

  lemma KeptIsCopied(a: Nodes, b: Nodes, mutation: Mutation, nodes: Nodes, order: seq<string>, result: Nodes, q: Path)
    requires Brings(a, b, mutation) && Holds(nodes, a) && SourceTree(a) && SourceTree(b)
    requires q in b && q in result && Key(b, q) !in mutation.updated && Enumerates(order, mutation.updated.Keys)
    requires Outcome(RemainingNodes(nodes, Paths(mutation.deleted)), order, mutation.updated, result)
    ensures CopiedAt(b, result, q)
  {
    assert KeptBy(a, b, mutation, q);
    TouchedIsUpdated(a, b, mutation, order, q);
    RestKey(a, b, mutation, nodes, q);
  }

  lemma MutationFollows(a: Nodes, b: Nodes, last: VersionedTransition, mutation: Mutation, nodes: Nodes,
                        order: seq<string>, result: Nodes)
    requires Brings(a, b, mutation) && Holds(nodes, a) && SourceTree(a) && LastUpdatesUpTo(a, last) &&
             Descends(a, b, last)
    requires SourceTree(b) && Followed(nodes, mutation, order, result)
    ensures Holds(result, b)
  {
    FollowedOutcome(a, b, mutation, nodes, order, result);
    SourceKeys(b);
    forall p
      ensures p in result <==> p in b
    {
      FollowedPosition(a, b, mutation, nodes, order, result, p);
    }
    forall q | q in b
      ensures CopiedAt(b, result, q)
    {
      if Key(b, q) in mutation.updated {
        UpdatedIsCopied(a, b, last, mutation, nodes, order, result, q);
      } else {
        KeptIsCopied(a, b, mutation, nodes, order, result, q);
      }
    }
    CopiedHolds(b, result);
  }

  lemma CopiedHolds(b: Nodes, result: Nodes)
    requires SourceTree(b) && forall p :: p in result <==> p in b
    requires forall q | q in b :: CopiedAt(b, result, q)
    ensures Holds(result, b)
  {
    assert result.Keys == b.Keys;
    SameShapeEncoded(b, result);
  }

  /** A standby that holds the state before a transaction is brought to the state after it by
      the mutation which the close returned. */
  lemma StandbyFollows(states: seq<Nodes>, lasts: seq<VersionedTransition>, txs: seq<Tx>, i: nat, nodes: Nodes,
                       order: seq<string>, result: Nodes)
    requires History(states, lasts, txs) && i < |txs| && Holds(nodes, states[i])
    requires Followed(nodes, txs[i].mutation, order, result)
    ensures Holds(result, states[i + 1])
  {
    HistoryKeepsSource(states, lasts, txs, i);
    StepOfHistory(states, lasts, txs, i);
    HistoryBrings(states, lasts, txs, i);
    MutationFollows(states[i], states[i + 1], lasts[i], txs[i].mutation, nodes, order, result);
  }

  lemma HistoryBrings(states: seq<Nodes>, lasts: seq<VersionedTransition>, txs: seq<Tx>, i: nat)
    requires History(states, lasts, txs) && i < |txs| && SourceTree(states[i])
    ensures Brings(states[i], states[i + 1], txs[i].mutation)
  {
    assert StepAt(states, lasts, txs, i);
    TxBrings(states[i], txs[i], states[i + 1], lasts[i], lasts[i + 1]);
  }

  // ----- Replaying a history

  /** The trees of a standby that applies the mutations of a history one after the other. */
  ghost predicate Replay(copies: seq<Nodes>, txs: seq<Tx>, orders: seq<seq<string>>) {
    && |copies| == |txs| + 1 == |orders| + 1
    && forall i | 0 <= i < |txs| :: ReplayStep(copies, txs, orders, i)
  }

  ghost predicate ReplayStep(copies: seq<Nodes>, txs: seq<Tx>, orders: seq<seq<string>>, i: nat)
    requires |copies| == |txs| + 1 == |orders| + 1 && i < |txs|
  {
    Followed(copies[i], txs[i].mutation, orders[i], copies[i + 1])
  }

  /** It holds every state of the source in turn. */
  lemma {:induction false} ReplayHolds(states: seq<Nodes>, lasts: seq<VersionedTransition>, txs: seq<Tx>,
                                       copies: seq<Nodes>, orders: seq<seq<string>>, i: nat)
    requires History(states, lasts, txs) && Replay(copies, txs, orders) && Holds(copies[0], states[0]) && i < |states|
    ensures Holds(copies[i], states[i])
  {
    if i == 0 {
    } else {
      ReplayHolds(states, lasts, txs, copies, orders, i - 1);
      assert ReplayStep(copies, txs, orders, i - 1);
      StandbyFollows(states, lasts, txs, i - 1, copies[i - 1], orders[i - 1], copies[i]);
    }
  }

  lemma ReadingHolds(nodes: Nodes, b: Nodes, root: Option<Value>)
    requires Holds(nodes, b)
    ensures Holds(RootRead(nodes, root), b)
  {
    ReadingKeepsRecords(nodes, root);
    forall q | q in RootRead(nodes, root)
      ensures EncodedAt(RootRead(nodes, root), q)
    {
      assert EncodedAt(nodes, q);
    }
    forall p, c | Child(p, c) in RootRead(nodes, root)
      ensures p in RootRead(nodes, root)
    {
      assert Child(p, c) in nodes;
    }
  }

  /** On the tree: ApplyMutation fails only if it cannot read the root component. */
  method FollowMutation(t: Tree, mutation: Mutation, root: Option<Value>, ghost states: seq<Nodes>,
                        ghost lasts: seq<VersionedTransition>, ghost txs: seq<Tx>, ghost i: nat)
    returns (ok: bool, ghost applied: Nodes)
    requires t.Valid() && History(states, lasts, txs) && i < |txs| && mutation == txs[i].mutation &&
             Holds(t.nodes, states[i])
    requires root.Some? && root.value.Object? ==> root.value.id !in t.valueToNode
    modifies t
    ensures Holds(applied, states[i + 1]) && (ok <==> RootReadable(applied, root))
    ensures ok ==> t.Valid() && Holds(t.nodes, states[i + 1])
  {
    ghost var nodes := t.nodes;
    ghost var order;
    HistoryKeepsSource(states, lasts, txs, i);
    HistoryBrings(states, lasts, txs, i);
    HoldsKeys(nodes, states[i]);
    ok, order, applied := ApplyMutation(t, mutation.updated, mutation.deleted, root);
    StandbyFollows(states, lasts, txs, i, nodes, order, applied);
    ReadingHolds(applied, states[i + 1], root);
  }
}
