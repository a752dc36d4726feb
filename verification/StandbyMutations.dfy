/** A standby that applies the mutation of a transaction and closes its own (chasm/tree.go): it
    holds the state after that transaction, and persists exactly its tree by an incremental
    mutation of its own. */
module StandbyMutations {
  import opened Basics
  import opened PathEncoder
  import opened Tasks
  import opened ChasmTree
  import opened Replication
  import opened ReplicationApply
  import opened ReplicationStatus
  import opened Transaction
  import opened CloseTasks
  import opened CloseTree
  import opened Sync
  import opened Runs
  import opened Persistence
  import opened Steps
  import opened Execution
  import opened Settled
  import opened Standby
  import opened Transitions
  import opened Source
  import opened Following

  /** ApplyMutation has led from `nodes` to `result` with these mutation entries. */
  ghost predicate Taken(nodes: Nodes, mutation: Mutation, order: seq<string>, result: Nodes, updated: map<string, Path>,
                        deleted: set<string>)
  {
    && Followed(nodes, mutation, order, result)
    && updated == RecordedAll(RemainingNodes(nodes, Paths(mutation.deleted)), order, mutation.updated)
    && deleted == CoveredKeys(nodes, Paths(mutation.deleted))
  }

  /** What is assumed of the two states of the source, the mutation between them, and the
      standby. */
  ghost predicate Follows(a: Nodes, b: Nodes, mutation: Mutation, nodes: Nodes) {
    Brings(a, b, mutation) && Holds(nodes, a) && SourceTree(a) && SourceTree(b)
  }

  // ----- One position

  /** An updated node is read anew; any other is as it was, under its key. */
  ghost predicate PlacedIn(nodes: Nodes, b: Nodes, mutation: Mutation, result: Nodes, updated: map<string, Path>,
                           q: Path)
    requires q in b
  {
    && q in result && result[q].serialized.Some?
    && if Key(b, q) in updated then
         updated[Key(b, q)] == q && result[q].value == None && result[q].state == NeedDeserialize
       else
         && q in nodes && !Covered(Paths(mutation.deleted), q)
         && result[q].serialized == nodes[q].serialized && result[q].state == nodes[q].state
         && result[q].value == nodes[q].value
  }

  lemma RestIsAsItWas(nodes: Nodes, mutation: Mutation, q: Path)
    requires forall k | k in mutation.deleted :: Decoded(k).Ok? && Decoded(k).value != []
    requires q in RemainingNodes(nodes, Paths(mutation.deleted))
    ensures q in nodes && RemainingNodes(nodes, Paths(mutation.deleted))[q] == nodes[q]
    ensures !Covered(Paths(mutation.deleted), q)
  {
    if q == [] {
      assert forall d | d in Paths(mutation.deleted) :: d != [];
    }
  }

  lemma EntriesAreUpdates(a: Nodes, b: Nodes, mutation: Mutation, nodes: Nodes, order: seq<string>, result: Nodes,
                          updated: map<string, Path>, deleted: set<string>)
    requires Brings(a, b, mutation) && PrefixClosed(nodes) && Taken(nodes, mutation, order, result, updated, deleted)
    ensures var rest := RemainingNodes(nodes, Paths(mutation.deleted));
            forall k :: k in updated <==> k in mutation.updated && Changes(rest, Decoded(k).value, mutation.updated[k])
    ensures forall k | k in updated :: updated[k] == Decoded(k).value
  {
    RemainingClosed(nodes, Paths(mutation.deleted));
    RecordedExactly(RemainingNodes(nodes, Paths(mutation.deleted)), order, mutation.updated);
  }

  lemma UpdatedPlaced(a: Nodes, b: Nodes, mutation: Mutation, nodes: Nodes, order: seq<string>, result: Nodes,
                      updated: map<string, Path>, deleted: set<string>, q: Path)
    requires Follows(a, b, mutation, nodes) && Taken(nodes, mutation, order, result, updated, deleted)
    requires q in b && q in result && Key(b, q) in mutation.updated
    ensures PlacedIn(nodes, b, mutation, result, updated, q)
  {
    var rest, k := RemainingNodes(nodes, Paths(mutation.deleted)), Key(b, q);
    SourceKeys(b);
    EntriesAreUpdates(a, b, mutation, nodes, order, result, updated, deleted);
    FollowedOutcome(a, b, mutation, nodes, order, result);
    assert k in order && Decoded(k) == Ok(q);
    assert UpdateResult(rest, q, k, mutation.updated[k], result[q]);
    if q in rest {
      RestIsAsItWas(nodes, mutation, q);
    }
  }

  lemma KeptPlaced(a: Nodes, b: Nodes, mutation: Mutation, nodes: Nodes, order: seq<string>, result: Nodes,
                   updated: map<string, Path>, deleted: set<string>, q: Path)
    requires Follows(a, b, mutation, nodes) && Taken(nodes, mutation, order, result, updated, deleted)
    requires q in b && q in result && Key(b, q) !in mutation.updated
    ensures PlacedIn(nodes, b, mutation, result, updated, q)
  {
    EntriesAreUpdates(a, b, mutation, nodes, order, result, updated, deleted);
    FollowedOutcome(a, b, mutation, nodes, order, result);
    TouchedIsUpdated(a, b, mutation, order, q);
    assert KeptBy(a, b, mutation, q);
    RestIsAsItWas(nodes, mutation, q);
    HoldsKey(nodes, a, q);
  }

  lemma EachPlaced(a: Nodes, b: Nodes, mutation: Mutation, nodes: Nodes, order: seq<string>, result: Nodes,
                   updated: map<string, Path>, deleted: set<string>, q: Path)
    requires Follows(a, b, mutation, nodes) && Taken(nodes, mutation, order, result, updated, deleted)
    requires q in b && q in result
    ensures PlacedIn(nodes, b, mutation, result, updated, q)
  {
    if Key(b, q) in mutation.updated {
      UpdatedPlaced(a, b, mutation, nodes, order, result, updated, deleted, q);
    } else {
      KeptPlaced(a, b, mutation, nodes, order, result, updated, deleted, q);
    }
  }

  // ----- The mutation of the standby

  /** A node that is not deleted is in both states of the source, under the key it has here. */
  lemma KeptKey(a: Nodes, b: Nodes, mutation: Mutation, nodes: Nodes, q: Path)
    requires Follows(a, b, mutation, nodes) && q in nodes && !Covered(Paths(mutation.deleted), q)
    ensures q in b && Key(nodes, q) == Key(b, q)
  {
    HoldsKey(nodes, a, q);
  }

  lemma MutationWrittenAt(a: Nodes, b: Nodes, mutation: Mutation, nodes: Nodes, records: Records,
                          last: VersionedTransition, result: Nodes, updated: map<string, Path>, q: Path)
    requires Follows(a, b, mutation, nodes) && PersistedAsIs(nodes, records, last) && Holds(result, b) && q in b
    requires PlacedIn(nodes, b, mutation, result, updated, q)
    ensures WrittenAt(result, updated, CoveredKeys(nodes, Paths(mutation.deleted)), records, q)
  {
    var k := Key(b, q);
    SourceKeys(b);
    HoldsKey(result, b, q);
    if k !in updated {
      KeptKey(a, b, mutation, nodes, q);
      HoldsKeys(nodes, a);
      KeyNotCovered(nodes, Paths(mutation.deleted), k);
    }
  }

  lemma MutationAccounts(a: Nodes, b: Nodes, mutation: Mutation, nodes: Nodes, records: Records,
                         last: VersionedTransition, result: Nodes, k: string)
    requires Follows(a, b, mutation, nodes) && PersistedAsIs(nodes, records, last) && Holds(result, b) && k in records
    ensures k in CoveredKeys(nodes, Paths(mutation.deleted)) || KeyOfNode(result, k)
  {
    assert KeyOfNode(nodes, k);
    var q := Decoded(k).value;
    if !Covered(Paths(mutation.deleted), q) {
      KeptKey(a, b, mutation, nodes, q);
      HoldsKey(result, b, q);
    }
  }

  /** After ApplyMutation every node is in the mutation of the standby or persisted as it is,
      and all records of nodes that are gone are among its deletions. */
  lemma MutationWritten(a: Nodes, b: Nodes, mutation: Mutation, nodes: Nodes, records: Records,
                        last: VersionedTransition, order: seq<string>, result: Nodes, updated: map<string, Path>,
                        deleted: set<string>)
    requires Follows(a, b, mutation, nodes) && PersistedAsIs(nodes, records, last) && Holds(result, b)
    requires Taken(nodes, mutation, order, result, updated, deleted)
    ensures Written(result, updated, deleted, records)
    ensures forall q | q in b :: PlacedIn(nodes, b, mutation, result, updated, q)
  {
    forall q | q in b
      ensures PlacedIn(nodes, b, mutation, result, updated, q)
      ensures WrittenAt(result, updated, deleted, records, q)
    {
      EachPlaced(a, b, mutation, nodes, order, result, updated, deleted, q);
      MutationWrittenAt(a, b, mutation, nodes, records, last, result, updated, q);
    }
    EntriesAreUpdates(a, b, mutation, nodes, order, result, updated, deleted);
    forall k | k in updated
      ensures KeyOfNode(result, k)
    {
      assert KeyOfNode(b, k);
      HoldsKey(result, b, Decoded(k).value);
    }
    forall k | k in records
      ensures k in deleted || KeyOfNode(result, k)
    {
      MutationAccounts(a, b, mutation, nodes, records, last, result, k);
    }
  }

  lemma MutationSettledAt(nodes: Nodes, last: VersionedTransition, b: Nodes, mutation: Mutation, result: Nodes,
                          updated: map<string, Path>, next: VersionedTransition, q: Path)
    requires Quiet(nodes, last) && CompareVT(last, next) < 0 && LastUpdatesUpTo(b, next) && SourceTree(b)
    requires Holds(result, b) && q in b && PlacedIn(nodes, b, mutation, result, updated, q)
    ensures SettledAt(nodes, result, updated, next, q)
  {
    HoldsKey(result, b, q);
    StrippedVersion(result[q], b[q]);
    if Key(b, q) !in updated {
      assert QuietNode(nodes[q], last);
      CompareReflexive(next);
    }
  }

  lemma MutationSettles(a: Nodes, b: Nodes, mutation: Mutation, nodes: Nodes, records: Records,
                        last: VersionedTransition, order: seq<string>, result: Nodes, updated: map<string, Path>,
                        deleted: set<string>, next: VersionedTransition)
    requires Follows(a, b, mutation, nodes) && PersistedAsIs(nodes, records, last) && Holds(result, b)
    requires Taken(nodes, mutation, order, result, updated, deleted)
    requires CompareVT(last, next) < 0 && LastUpdatesUpTo(b, next)
    ensures Settling(result, updated, map[], deleted, records, next)
    ensures forall home | AllAtHome(nodes, home) :: AllAtHome(result, home)
  {
    MutationWritten(a, b, mutation, nodes, records, last, order, result, updated, deleted);
    forall q | q in result
      ensures SettledAt(nodes, result, updated, next, q)
    {
      MutationSettledAt(nodes, last, b, mutation, result, updated, next, q);
    }
    SettlingOfParts(nodes, result, updated, deleted, records, next);
  }

  // ----- From end to end

  /** A close without changed values keeps a state held, if its version is newer. */
  lemma StillHolds(before: Nodes, after: Nodes, b: Nodes, last: VersionedTransition, next: VersionedTransition)
    requires Holds(before, b) && SourceTree(b) && RecordsKept(before, after, next)
    requires LastUpdatesUpTo(b, last) && CompareVT(last, next) < 0
    ensures Holds(after, b)
  {
    CompareReflexive(next);
    forall q | q in b
      ensures Stripped(after[q]) == Stripped(b[q]) && Key(after, q) == Key(b, q)
    {
      HoldsKey(before, b, q);
      StrippedVersion(before[q], b[q]);
      assert ContentKept(before[q], after[q], Stamp(next, false));
    }
    SameShapeEncoded(b, after);
  }

  /** ApplyMutation on a standby at rest that holds the state before the transaction: it fails
      only if the root component cannot be read. */
  method TakeMutation(t: Tree, mutation: Mutation, root: Option<Value>, ghost a: Nodes, ghost b: Nodes,
                      ghost lastA: VersionedTransition, ghost records: Records, ghost last: VersionedTransition,
                      ghost next: VersionedTransition, ghost home: map<nat, Path>)
    returns (ok: bool, ghost order: seq<string>, ghost applied: Nodes)
    requires t.Valid() && t.updatedNodes == map[] && t.deletedNodes == {} && PersistedAsIs(t.nodes, records, last)
    requires Follows(a, b, mutation, t.nodes) && LastUpdatesUpTo(a, lastA) && Descends(a, b, lastA)
    requires LastUpdatesUpTo(b, next) && CompareVT(last, next) < 0
    requires AllAtHome(t.nodes, home) && RootAtHome(root, t.valueToNode, home)
    modifies t
    ensures Followed(old(t.nodes), mutation, order, applied) && (ok <==> RootReadable(applied, root))
    ensures t.needsPointerResolution == old(t.needsPointerResolution) && (ok ==> t.nodes == RootRead(applied, root))
    ensures ok ==> t.Valid() && Holds(t.nodes, b) && AllAtHome(t.nodes, home) && CompsOf(t.nodes) == CompsOf(applied)
    ensures ok ==> Settling(t.nodes, t.updatedNodes, map[], t.deletedNodes, records, next)
    ensures t.systemUpdatedNodes == old(t.systemUpdatedNodes) && t.isActiveStateDirty == old(t.isActiveStateDirty)
  {
    ghost var nodes := t.nodes;
    MutationDecodes(a, b, mutation, nodes);
    ok, order, applied := ApplyMutation(t, mutation.updated, mutation.deleted, root);
    MutationFollows(a, b, lastA, mutation, nodes, order, applied);
    if ok {
      TakenFromNothing(nodes, mutation, order, applied, t.updatedNodes, t.deletedNodes);
      ReadAndSettled(a, b, mutation, nodes, records, last, order, applied, t.updatedNodes, t.deletedNodes, next, root,
                     home);
    }
  }

  lemma TakenFromNothing(nodes: Nodes, mutation: Mutation, order: seq<string>, result: Nodes,
                         updated: map<string, Path>, deleted: set<string>)
    requires Followed(nodes, mutation, order, result)
    requires updated == map[] + RecordedAll(RemainingNodes(nodes, Paths(mutation.deleted)), order, mutation.updated)
    requires deleted == {} + CoveredKeys(nodes, Paths(mutation.deleted))
    ensures Taken(nodes, mutation, order, result, updated, deleted)
  {
  }

  lemma MutationDecodes(a: Nodes, b: Nodes, mutation: Mutation, nodes: Nodes)
    requires Follows(a, b, mutation, nodes)
    ensures Decodable(mutation.updated) && (forall k | k in mutation.deleted :: Decoded(k).Ok?) && WellKeyed(nodes)
  {
    HoldsKeys(nodes, a);
    forall k | k in mutation.updated
      ensures Decoded(k).Ok?
    {
      assert KeyOfNode(b, k);
    }
  }

  lemma ReadAndSettled(a: Nodes, b: Nodes, mutation: Mutation, nodes: Nodes, records: Records,
                       last: VersionedTransition, order: seq<string>, applied: Nodes, updated: map<string, Path>,
                       deleted: set<string>, next: VersionedTransition, root: Option<Value>, home: map<nat, Path>)
    requires Follows(a, b, mutation, nodes) && PersistedAsIs(nodes, records, last) && Holds(applied, b)
    requires Taken(nodes, mutation, order, applied, updated, deleted)
    requires CompareVT(last, next) < 0 && LastUpdatesUpTo(b, next)
    requires AllAtHome(nodes, home) && (root.Some? ==> ValueAtHome(root.value, [], home))
    ensures Settling(RootRead(applied, root), updated, map[], deleted, records, next)
    ensures Holds(RootRead(applied, root), b) && AllAtHome(RootRead(applied, root), home)
    ensures CompsOf(RootRead(applied, root)) == CompsOf(applied)
  {
    MutationSettles(a, b, mutation, nodes, records, last, order, applied, updated, deleted, next);
    ReadingSettles(applied, root, updated, deleted, records, next);
    ReadingKeepsHome(applied, root, home);
    ReadingHolds(applied, b, root);
  }

  /** ApplyMutation and then CloseTransaction, on a standby that holds the state before the
      transaction and has persisted its tree: it then holds the state after the transaction,
      and its own mutation has brought its records to those of its tree. */
  method ReceiveMutation(t: Tree, backend: Backend, mutation: Mutation, root: Option<Value>, next: VersionedTransition,
                         codec: Codec, validators: Validators, newTasks: map<nat, seq<NewTask>>, chooses: Time -> bool,
                         ghost states: seq<Nodes>, ghost lasts: seq<VersionedTransition>, ghost txs: seq<Tx>,
                         ghost i: nat, ghost records: Records, ghost last: VersionedTransition,
                         ghost home: map<nat, Path>)
    returns (ok: bool, own: Mutation, ghost order: seq<string>, ghost applied: Nodes, ghost visited: seq<Path>,
             ghost input: CloseInput, ghost dropped: set<Time>)
    requires History(states, lasts, txs) && i < |txs| && mutation == txs[i].mutation && Holds(t.nodes, states[i])
    requires AtRest(t, backend, records, last) && records != map[] && CompareVT(ZERO_VT, last) <= 0
    requires AllAtHome(t.nodes, home) && RootAtHome(root, t.valueToNode, home)
    requires CompareVT(last, next) < 0 && CompareVT(lasts[i + 1], next) < 0
    modifies t, backend
    ensures Followed(old(t.nodes), mutation, order, applied) && (ok ==> RootReadable(applied, root))
    ensures RootReadable(applied, root) && newTasks == map[] && ComponentsEncodable(applied) ==> ok
    ensures ok ==> Persisted(t, own.Apply(records)) && Holds(t.nodes, states[i + 1])
    ensures ok ==>
                   CloseStep(ClusterOf(applied, old(backend.timers), old(backend.emitted), last), visited, input,
                             dropped, ClusterOf(t.nodes, backend.timers, backend.emitted, next))
    ensures ok && Inv(ClusterOf(applied, old(backend.timers), old(backend.emitted), last)) ==>
              RestsAfter(t, backend, own.Apply(records), next, old(backend.timers))
  {
    HistoryFollows(states, lasts, txs, i, t.nodes, next);
    RestIsPersisted(t, backend, records, last);
    ok, own, order, applied, visited, input, dropped :=
      TakeAndClose(t, backend, mutation, root, next, codec, validators, newTasks, chooses, states[i], states[i + 1],
                   lasts[i], lasts[i + 1], records, last, home);
  }

  method TakeAndClose(t: Tree, backend: Backend, mutation: Mutation, root: Option<Value>, next: VersionedTransition,
                      codec: Codec, validators: Validators, newTasks: map<nat, seq<NewTask>>, chooses: Time -> bool,
                      ghost a: Nodes, ghost b: Nodes, ghost lastA: VersionedTransition,
                      ghost lastB: VersionedTransition, ghost records: Records, ghost last: VersionedTransition,
                      ghost home: map<nat, Path>)
    returns (ok: bool, own: Mutation, ghost order: seq<string>, ghost applied: Nodes, ghost visited: seq<Path>,
             ghost input: CloseInput, ghost dropped: set<Time>)
    requires t.Valid() && t.updatedNodes == map[] && t.deletedNodes == {} && t.systemUpdatedNodes == map[]
    requires !t.isActiveStateDirty && !t.needsPointerResolution && PersistedAsIs(t.nodes, records, last)
    requires Follows(a, b, mutation, t.nodes) && LastUpdatesUpTo(a, lastA) && Descends(a, b, lastA)
    requires LastUpdatesUpTo(b, lastB) && LastUpdatesUpTo(b, next) && CompareVT(lastB, next) < 0
    requires CompareVT(ZERO_VT, last) <= 0 && CompareVT(last, next) < 0
    requires AllAtHome(t.nodes, home) && RootAtHome(root, t.valueToNode, home)
    modifies t, backend
    ensures Followed(old(t.nodes), mutation, order, applied) && (ok ==> RootReadable(applied, root))
    ensures RootReadable(applied, root) && newTasks == map[] && ComponentsEncodable(applied) ==> ok
    ensures ok ==> Persisted(t, own.Apply(records)) && Holds(t.nodes, b)
    ensures ok ==>
                   CloseStep(ClusterOf(applied, old(backend.timers), old(backend.emitted), last), visited, input,
                             dropped, ClusterOf(t.nodes, backend.timers, backend.emitted, next))
    ensures ok && Inv(ClusterOf(applied, old(backend.timers), old(backend.emitted), last)) ==>
              RestsAfter(t, backend, own.Apply(records), next, old(backend.timers))
  {
    own, visited, input, dropped := Mutation(map[], {}), [], CloseInput(next, false, map[], validators), {};
    ok, order, applied := TakeMutation(t, mutation, root, a, b, lastA, records, last, next, home);
    if !ok {
      return;
    }
    ghost var taken := t.nodes;
    ReadingKeepsRecords(applied, root);
    ghost var synced := ClusterOf(taken, backend.timers, backend.emitted, last);
    ok, own, visited, input, dropped :=
      CloseSettled(t, backend, next, codec, validators, newTasks, chooses, records, synced, home);
    if ok {
      StillHolds(taken, t.nodes, b, lastB, next);
    }
  }

  lemma HistoryFollows(states: seq<Nodes>, lasts: seq<VersionedTransition>, txs: seq<Tx>, i: nat, nodes: Nodes,
                       next: VersionedTransition)
    requires History(states, lasts, txs) && i < |txs| && Holds(nodes, states[i]) && CompareVT(lasts[i + 1], next) < 0
    ensures Follows(states[i], states[i + 1], txs[i].mutation, nodes)
    ensures LastUpdatesUpTo(states[i], lasts[i]) && Descends(states[i], states[i + 1], lasts[i])
    ensures LastUpdatesUpTo(states[i + 1], lasts[i + 1]) && LastUpdatesUpTo(states[i + 1], next)
  {
    HistoryKeepsSource(states, lasts, txs, i);
    StepOfHistory(states, lasts, txs, i);
    HistoryBrings(states, lasts, txs, i);
    OlderVersions(states[i + 1], lasts[i + 1], next);
  }

  lemma OlderVersions(b: Nodes, last: VersionedTransition, next: VersionedTransition)
    requires LastUpdatesUpTo(b, last) && CompareVT(last, next) < 0
    ensures LastUpdatesUpTo(b, next)
  {
    forall q | q in b && b[q].serialized.Some?
      ensures CompareVT(b[q].serialized.value.lastUpdate, next) <= 0
    {
      CompareTransitive(b[q].serialized.value.lastUpdate, last, next);
    }
  }

  lemma RestIsPersisted(t: Tree, backend: Backend, records: Records, last: VersionedTransition)
    requires AtRest(t, backend, records, last) && records != map[]
    ensures PersistedAsIs(t.nodes, records, last)
  {
    forall q | q in t.nodes
      ensures Decoded(Key(t.nodes, q)) == Ok(q)
    {
      assert NodePersisted(t.nodes, {}, records, q);
    }
  }
}
