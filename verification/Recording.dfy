/** The transactions of the source as the operations on its tree perform them (chasm/tree.go):
    what is read, written, synchronised and closed is a transaction in the sense of
    `Transitions`, and the trees that are left are a history in the sense of `Source`. */
module Recording {
  import opened Basics
  import opened PathEncoder
  import opened PathKeys
  import opened Tasks
  import opened ChasmTree
  import opened Sync
  import opened SyncApply
  import opened Transaction
  import opened CloseTasks
  import opened CloseTree
  import opened Persistence
  import opened Steps
  import opened Closability
  import opened Execution
  import opened Start
  import SyncFacts
  import opened Transitions
  import opened Source

  // ----- A transaction under way

  /** The transaction has started with the tree `a` at rest, and `moments` are its steps so far. */
  ghost predicate Recorded(t: Tree, backend: Backend, records: Records, last: VersionedTransition,
                           next: VersionedTransition, a: Nodes, moments: seq<Moment>)
    reads t, backend
  {
    && InTransaction(t, backend, records, last) && CompareVT(last, next) < 0
    && FullImage(a, Image(a, records)) && [] in a
    && IsTransaction(moments, next) && moments[0] == Moment(a, {}) &&
       moments[|moments| - 1] == Moment(t.nodes, t.deletedNodes)
  }

  lemma StartsRecorded(t: Tree, backend: Backend, records: Records, last: VersionedTransition,
                       next: VersionedTransition)
    requires AtRest(t, backend, records, last) && CompareVT(last, next) < 0
    ensures Recorded(t, backend, records, last, next, t.nodes, [Moment(t.nodes, {})])
  {
  }

  /** `more` are the moments of the transaction, followed by `y`. */
  ghost predicate OneMore(moments: seq<Moment>, y: Moment, next: VersionedTransition, more: seq<Moment>)
    requires moments != []
  {
    more == moments + [y] && IsTransaction(more, next) && more[0] == moments[0] && more[|more| - 1] == y
  }

  lemma SyncStepTaken(moments: seq<Moment>, y: Moment, next: VersionedTransition)
    requires IsTransaction(moments, next) && SyncStep(moments[|moments| - 1], y, next)
    ensures OneMore(moments, y, next, moments + [y])
  {
    Extended(moments, y, next);
  }

  lemma ValueStepTaken(moments: seq<Moment>, nodes: Nodes, p: Path, n: Node, next: VersionedTransition)
    requires IsTransaction(moments, next) && nodes == moments[|moments| - 1].nodes && p in nodes
    requires n.serialized == nodes[p].serialized && n.encodedPath == nodes[p].encodedPath &&
             (Dirty(nodes[p]) ==> Dirty(n))
    ensures var y := Moment(nodes[p := n], moments[|moments| - 1].deleted); OneMore(moments, y, next, moments + [y])
  {
    OneNode(nodes, p, n);
    var y := Moment(nodes[p := n], moments[|moments| - 1].deleted);
    assert ValueStep(moments[|moments| - 1], y);
    Extended(moments, y, next);
  }

  /** What a recorded transaction is, but for the state of the tree that it has led to. */
  ghost predicate Ongoing(records: Records, last: VersionedTransition, next: VersionedTransition, a: Nodes,
                          more: seq<Moment>, y: Moment) {
    && CompareVT(last, next) < 0 && FullImage(a, Image(a, records)) && [] in a
    && IsTransaction(more, next) && more[0] == Moment(a, {}) && more[|more| - 1] == y
  }

  lemma StepTaken(t: Tree, backend: Backend, records: Records, last: VersionedTransition, next: VersionedTransition,
                  a: Nodes, moments: seq<Moment>, p: Path, n: Node)
    requires Recorded(t, backend, records, last, next, a, moments) && p in t.nodes
    requires n.serialized == t.nodes[p].serialized && n.encodedPath == t.nodes[p].encodedPath &&
             (Dirty(t.nodes[p]) ==> Dirty(n))
    ensures var y := Moment(t.nodes[p := n], t.deletedNodes); Ongoing(records, last, next, a, moments + [y], y)
  {
    ValueStepTaken(moments, t.nodes, p, n, next);
  }

  lemma StillRecorded(t: Tree, backend: Backend, records: Records, last: VersionedTransition, next: VersionedTransition,
                      a: Nodes, more: seq<Moment>)
    requires InTransaction(t, backend, records, last)
    requires Ongoing(records, last, next, a, more, Moment(t.nodes, t.deletedNodes))
    ensures Recorded(t, backend, records, last, next, a, more)
  {
  }

  /** A step on the value of one node. */
  lemma OneNode(nodes: Nodes, p: Path, n: Node)
    requires p in nodes && n.serialized == nodes[p].serialized && n.encodedPath == nodes[p].encodedPath &&
             (Dirty(nodes[p]) ==> Dirty(n))
    ensures ValueChanged(nodes, nodes[p := n], p)
  {
    assert nodes[p := n] == nodes[p := nodes[p := n][p]];
  }

  method RecordWrite(t: Tree, backend: Backend, p: Path, value: Value, ghost records: Records,
                     ghost last: VersionedTransition, ghost next: VersionedTransition, ghost a: Nodes,
                     ghost moments: seq<Moment>) returns (ghost more: seq<Moment>)
    requires Recorded(t, backend, records, last, next, a, moments) && p in t.nodes && t.nodes[p].IsComponent() &&
             value.Object?
    requires value.id in t.valueToNode ==> t.valueToNode[value.id] == p
    modifies t`nodes, t`valueToNode, t`isActiveStateDirty
    ensures Recorded(t, backend, records, last, next, a, more) && more == moments + [Moment(t.nodes, t.deletedNodes)]
    ensures t.nodes == old(t.nodes)[p := old(t.nodes)[p].(value := Some(value), state := NeedSyncStructure)]
  {
    StepTaken(t, backend, records, last, next, a, moments, p, t.nodes[p].(value := Some(value), state :=
                                                                          NeedSyncStructure));
    Write(t, backend, p, value, records, last);
    more := moments + [Moment(t.nodes, t.deletedNodes)];
    StillRecorded(t, backend, records, last, next, a, more);
  }

  method RecordWriteData(t: Tree, backend: Backend, p: Path, value: Value, ghost records: Records,
                         ghost last: VersionedTransition, ghost next: VersionedTransition, ghost a: Nodes,
                         ghost moments: seq<Moment>) returns (ghost more: seq<Moment>)
    requires Recorded(t, backend, records, last, next, a, moments) && p in t.nodes && t.nodes[p].IsData() &&
             value.Object?
    requires value.id in t.valueToNode ==> t.valueToNode[value.id] == p
    modifies t`nodes, t`valueToNode, t`isActiveStateDirty
    ensures Recorded(t, backend, records, last, next, a, more) && more == moments + [Moment(t.nodes, t.deletedNodes)]
    ensures t.nodes == old(t.nodes)[p := old(t.nodes)[p].(value := Some(value), state := NeedSerialize)]
  {
    StepTaken(t, backend, records, last, next, a, moments, p, t.nodes[p].(value := Some(value), state :=
                                                                          NeedSerialize));
    WriteData(t, backend, p, value, records, last);
    more := moments + [Moment(t.nodes, t.deletedNodes)];
    StillRecorded(t, backend, records, last, next, a, more);
  }

  method RecordRead(t: Tree, backend: Backend, p: Path, value: Value, ghost records: Records,
                    ghost last: VersionedTransition, ghost next: VersionedTransition, ghost a: Nodes,
                    ghost moments: seq<Moment>) returns (ghost more: seq<Moment>)
    requires Recorded(t, backend, records, last, next, a, moments) && p in t.nodes &&
             t.nodes[p].state == NeedDeserialize
    requires ValueRead(t.nodes[p], value, t.valueToNode)
    modifies t`nodes, t`valueToNode, t`isActiveStateDirty
    ensures Recorded(t, backend, records, last, next, a, more) && more == moments + [Moment(t.nodes, t.deletedNodes)]
    ensures t.nodes == old(t.nodes)[p := old(t.nodes)[p].(value := Some(value), state := Synced)]
  {
    StepTaken(t, backend, records, last, next, a, moments, p, t.nodes[p].(value := Some(value), state := Synced));
    Steps.Read(t, backend, p, value, records, last);
    more := moments + [Moment(t.nodes, t.deletedNodes)];
    StillRecorded(t, backend, records, last, next, a, more);
  }

  method RecordSync(t: Tree, backend: Backend, next: VersionedTransition, ghost records: Records,
                    ghost last: VersionedTransition, ghost rank: nat, ghost home: map<nat, Path>, ghost a: Nodes,
                    ghost moments: seq<Moment>)
    returns (ok: bool, ghost more: seq<Moment>)
    requires Recorded(t, backend, records, last, next, a, moments) && SyncReady(t.nodes, home, rank)
    modifies t`nodes, t`valueToNode, t`deletedNodes, t`taskValueCache, t`isActiveStateDirty, t`needsPointerResolution
    ensures ok ==> Recorded(t, backend, records, last, next, a, more) &&
                   more == moments + [Moment(t.nodes, t.deletedNodes)]
    ensures AllNamed(old(t.nodes), []) ==> ok
    ensures ok ==> WholeSync(old(t.nodes), t.nodes, next) && AllAtHome(t.nodes, home)
  {
    ghost var x := Moment(t.nodes, t.deletedNodes);
    more := moments;
    ok := SyncTree(t, backend, next, records, last, rank, home);
    if ok {
      ghost var y := Moment(t.nodes, t.deletedNodes);
      more := moments + [y];
      assert SyncStep(x, y, next);
      SyncStepTaken(moments, y, next);
    }
  }

  // ----- The close

  /** An empty tree counts as persisted until it is written. */
  lemma ImageSinceStart(a: Nodes, before: Nodes, records: Records, b: Nodes, mutation: Mutation)
    requires FullImage(a, Image(a, records)) && [] in a && Decoded(Key(a, [])) == Ok([])
    requires [] in b && Decoded(Key(b, [])) == Ok([])
    requires Since(a, before) && [] in before
    requires FullImage(b, mutation.Apply(Image(before, records)))
    ensures FullImage(b, mutation.Apply(Image(a, records)))
  {
    OnlyRootDecodesToRoot(Key(a, []));
    if Unwritten(before, records) {
      UnwrittenSince(a, before, records);
    } else if Unwritten(a, records) {
      OnlyRootDecodesToRoot(Key(b, []));
      assert "" in mutation.Apply(map[]);
      assert mutation.Apply(Image(a, records)) == mutation.Apply(map[]);
    }
  }

  lemma UnwrittenSince(a: Nodes, before: Nodes, records: Records)
    requires FullImage(a, Image(a, records)) && [] in a && Since(a, before) && Unwritten(before, records)
    ensures Image(a, records) == Image(before, records)
  {
    assert KeptAt(a, before, []);
    assert Key(a, []) in Image(a, records);
  }

  lemma RootIsEncoded(a: Nodes)
    requires EncodedTree(a)
    ensures [] in a && Decoded(Key(a, [])) == Ok([])
  {
    EncodedKeys(a);
  }

  /** CloseTransaction on a transaction that was recorded. */
  method CloseRecorded(t: Tree, backend: Backend, next: VersionedTransition, codec: Codec, validators: Validators,
                       newTasks: map<nat, seq<NewTask>>, chooses: Time -> bool, ghost records: Records,
                       ghost last: VersionedTransition, ghost rank: nat, ghost home: map<nat, Path>, ghost a: Nodes,
                       ghost moments: seq<Moment>)
    returns (ok: bool, mutation: Mutation, ghost tx: Tx)
    requires Recorded(t, backend, records, last, next, a, moments) && SyncReady(t.nodes, home, rank) && EncodedTree(a)
    modifies t, backend
    ensures WillClose(old(t.nodes), old(t.needsPointerResolution), next, validators, newTasks) ==> ok
    ensures ok ==> AtRest(t, backend, mutation.Apply(records), next)
    ensures ok ==> tx.Leads(a, t.nodes, last, next) && tx.moments == moments && tx.mutation == mutation
  {
    ghost var before, deleted := t.nodes, t.deletedNodes;
    ghost var synced, gone, resolved, visited, input, dropped;
    ok, mutation, synced, gone, resolved, visited, input, dropped :=
      CloseTransaction(t, backend, next, codec, validators, newTasks, chooses, records, last, rank, home);
    tx := Tx(moments, Moment(synced, gone), resolved, codec, Image(a, records), mutation);
    if ok {
      TransactionKeepsTrack(a, moments, next, |moments| - 1);
      RootIsEncoded(a);
      RootDecodes(t.nodes, {}, Image(t.nodes, mutation.Apply(records)));
      ImageSinceStart(a, before, records, t.nodes, mutation);
      assert SyncStep(Moment(before, deleted), Moment(synced, gone), next);
    }
  }

  // ----- A history goes on

  lemma HistoryExtended(states: seq<Nodes>, lasts: seq<VersionedTransition>, txs: seq<Tx>, tx: Tx, b: Nodes,
                        next: VersionedTransition)
    requires History(states, lasts, txs) && tx.Leads(states[|txs|], b, lasts[|txs|], next)
    ensures History(states + [b], lasts + [next], txs + [tx])
  {
    var states', lasts', txs' := states + [b], lasts + [next], txs + [tx];
    forall i | 0 <= i < |txs'|
      ensures StepAt(states', lasts', txs', i)
    {
      if i < |txs| {
        assert StepAt(states, lasts, txs, i);
        SameStep(states, lasts, txs, states', lasts', txs', i);
      } else {
        LastStep(states', lasts', txs');
      }
    }
  }

  lemma SameStep(states: seq<Nodes>, lasts: seq<VersionedTransition>, txs: seq<Tx>,
                 states': seq<Nodes>, lasts': seq<VersionedTransition>, txs': seq<Tx>, i: nat)
    requires |states| == |lasts| == |txs| + 1 && |states'| == |lasts'| == |txs'| + 1 && i < |txs| <= |txs'|
    requires states <= states' && lasts <= lasts' && txs <= txs' && StepAt(states, lasts, txs, i)
    ensures StepAt(states', lasts', txs', i)
  {
    assert states'[i] == states[i] && states'[i + 1] == states[i + 1] && txs'[i] == txs[i];
    assert lasts'[i] == lasts[i] && lasts'[i + 1] == lasts[i + 1];
  }

  lemma LastStep(states: seq<Nodes>, lasts: seq<VersionedTransition>, txs: seq<Tx>)
    requires |states| == |lasts| == |txs| + 1 && txs != []
    requires txs[|txs| - 1].Leads(states[|txs| - 1], states[|txs|], lasts[|txs| - 1], lasts[|txs|])
    ensures StepAt(states, lasts, txs, |txs| - 1)
  {
  }

  /** The close of a transaction of the source adds a state to its history. */
  method CloseSource(t: Tree, backend: Backend, next: VersionedTransition, codec: Codec, validators: Validators,
                     newTasks: map<nat, seq<NewTask>>, chooses: Time -> bool, ghost records: Records, ghost rank: nat,
                     ghost home: map<nat, Path>, ghost states: seq<Nodes>, ghost lasts: seq<VersionedTransition>,
                     ghost txs: seq<Tx>, ghost moments: seq<Moment>)
    returns (ok: bool, mutation: Mutation, ghost tx: Tx)
    requires History(states, lasts, txs) && SyncReady(t.nodes, home, rank)
    requires Recorded(t, backend, records, lasts[|txs|], next, states[|txs|], moments)
    modifies t, backend
    ensures WillClose(old(t.nodes), old(t.needsPointerResolution), next, validators, newTasks) ==> ok
    ensures ok ==> AtRest(t, backend, mutation.Apply(records), next) && tx.mutation == mutation
    ensures ok ==> History(states + [t.nodes], lasts + [next], txs + [tx])
  {
    HistoryKeepsSource(states, lasts, txs, |txs|);
    ok, mutation, tx :=
      CloseRecorded(t, backend, next, codec, validators, newTasks, chooses, records, lasts[|txs|], rank, home,
                    states[|txs|], moments);
    if ok {
      HistoryExtended(states, lasts, txs, tx, t.nodes, next);
    }
  }

  // ----- How a history starts

  lemma {:induction false} RootStaysDirty(moments: seq<Moment>, next: VersionedTransition, i: nat, j: nat)
    requires IsTransaction(moments, next) && i <= j < |moments| && [] in moments[i].nodes && Dirty(moments[i].nodes[[]])
    ensures [] in moments[j].nodes && Dirty(moments[j].nodes[[]])
    decreases j - i
  {
    if i != j {
      RootStaysDirty(moments, next, i, j - 1);
      RootKeptDirty(moments[j - 1], moments[j], next);
    }
  }

  lemma RootKeptDirty(x: Moment, y: Moment, next: VersionedTransition)
    requires ValueStep(x, y) || SyncStep(x, y, next)
    requires [] in x.nodes && Dirty(x.nodes[[]])
    ensures [] in y.nodes && Dirty(y.nodes[[]])
  {
    if SyncStep(x, y, next) {
      SyncKeepsKeys(x, y, next, []);
    }
  }

  lemma RootDirtyAtClose(moments: seq<Moment>, synced: Moment, resolved: Nodes, next: VersionedTransition, i: nat)
    requires IsTransaction(moments, next) && SyncStep(moments[|moments| - 1], synced, next) &&
             PointersResolved(synced.nodes, resolved)
    requires i < |moments| && [] in moments[i].nodes && Dirty(moments[i].nodes[[]])
    ensures [] in resolved && Dirty(resolved[[]])
  {
    RootStaysDirty(moments, next, i, |moments| - 1);
    RootKeptDirty(moments[|moments| - 1], synced, next);
    ResolvedStates(synced.nodes, resolved);
  }

  /** The first transaction, from an empty tree whose root it writes, leaves a tree of the
      source. */
  lemma FirstTransaction(a: Nodes, tx: Tx, b: Nodes, last: VersionedTransition, next: VersionedTransition, i: nat)
    requires tx.Leads(a, b, last, next) && a.Keys == {[]} && EncodedTree(a) && LastUpdatesUpTo(a, last) &&
             CompareVT(ZERO_VT, last) <= 0
    requires i < |tx.moments| && [] in tx.moments[i].nodes && Dirty(tx.moments[i].nodes[[]])
    ensures History([b], [next], [])
  {
    RootDirtyAtClose(tx.moments, tx.synced, tx.resolved, next, i);
    TxCloses(a, tx, b, last, next);
    NewTreeWritten(a, Moment(tx.resolved, tx.synced.deleted));
    TxKeepsSource(a, tx, b, last, next);
    CompareTransitive(ZERO_VT, last, next);
    HistoryOfOne(b, next);
  }

  lemma HistoryOfOne(b: Nodes, last: VersionedTransition)
    requires SourceTree(b) && LastUpdatesUpTo(b, last) && CompareVT(ZERO_VT, last) <= 0
    ensures History([b], [last], [])
  {
  }

  lemma NewTreeWritten(a: Nodes, m: Moment)
    requires KeepsTrack(a, m) && a.Keys == {[]} && [] in m.nodes && Dirty(m.nodes[[]])
    ensures AllWritten(a, m.nodes)
  {
    forall q | q in m.nodes
      ensures Dirty(m.nodes[q])
    {
      DirtyOrThere(a, m, q);
    }
  }

  lemma DirtyOrThere(a: Nodes, m: Moment, q: Path)
    requires KeepsTrack(a, m) && q in m.nodes
    ensures Dirty(m.nodes[q]) || q in a
  {
    assert Dirty(m.nodes[q]) || KeptAt(a, m.nodes, q);
  }

  /** An execution is created: the first state of the history. */
  method CreateSource(workflowArchetype: int, value: Value, typeId: Option<int>, next: VersionedTransition,
                      codec: Codec, validators: Validators, newTasks: map<nat, seq<NewTask>>, chooses: Time -> bool,
                      ghost home: map<nat, Path>)
    returns (ok: bool, t: Tree, backend: Backend, mutation: Mutation)
    requires FreshValue(ComponentField, value) && ValueAtHome(value, [], home) && CompareVT(ZERO_VT, next) < 0
    ensures CanCreate(workflowArchetype, value, typeId, next, validators, newTasks) ==> ok
    ensures ok ==> AtRest(t, backend, mutation.Apply(map[]), next) && History([t.nodes], [next], [])
  {
    t, backend := NewExecution(workflowArchetype, next);
    mutation := Mutation(map[], {});
    ghost var a := t.nodes;
    ghost var moments;
    ok, moments := RecordRoot(t, backend, value, typeId, next, home);
    if !ok {
      return;
    }
    ok, mutation := CloseFirstSource(t, backend, next, codec, validators, newTasks, chooses, home, a, moments);
  }

  method CloseFirstSource(t: Tree, backend: Backend, next: VersionedTransition, codec: Codec, validators: Validators,
                          newTasks: map<nat, seq<NewTask>>, chooses: Time -> bool, ghost home: map<nat, Path>,
                          ghost a: Nodes, ghost moments: seq<Moment>) returns (ok: bool, mutation: Mutation)
    requires Recorded(t, backend, map[], ZERO_VT, next, a, moments) && AllAtHome(t.nodes, home) &&
             SyncFacts.NothingToSync(t.nodes)
    requires EncodedTree(a) && a.Keys == {[]} && LastUpdatesUpTo(a, ZERO_VT) && [] in t.nodes && Dirty(t.nodes[[]])
    modifies t, backend
    ensures FlagOk(old(t.nodes), old(t.needsPointerResolution)) &&
            Closable(old(t.nodes), true, validators, newTasks) ==>
              ok
    ensures ok ==> AtRest(t, backend, mutation.Apply(map[]), next) && History([t.nodes], [next], [])
  {
    ghost var rank := SyncFacts.RankExists(t.nodes);
    if FlagOk(t.nodes, t.needsPointerResolution) {
      SettledWillClose(t.nodes, t.needsPointerResolution, next, validators, newTasks);
    }
    ghost var tx;
    ok, mutation, tx :=
      CloseRecorded(t, backend, next, codec, validators, newTasks, chooses, map[], ZERO_VT, rank, home, a, moments);
    if ok {
      CompareReflexive(ZERO_VT);
      FirstTransaction(a, tx, t.nodes, ZERO_VT, next, |moments| - 1);
    }
  }

  /** SetRootComponent on an empty tree, as two steps of a transaction. */
  method RecordRoot(t: Tree, backend: Backend, value: Value, typeId: Option<int>, next: VersionedTransition,
                    ghost home: map<nat, Path>)
    returns (ok: bool, ghost moments: seq<Moment>)
    requires AtRest(t, backend, map[], ZERO_VT) && Unwritten(t.nodes, map[]) && t.valueToNode == map[] &&
             CompareVT(ZERO_VT, next) < 0
    requires FreshValue(ComponentField, value) && ValueAtHome(value, [], home)
    modifies t
    ensures ValueNamed(value, []) ==> ok
    ensures ok ==> FlagOk(t.nodes, t.needsPointerResolution) &&
                   WholeSync(map[[] := RootWith(old(t.nodes)[[]], value, typeId)], t.nodes, next)
    ensures ok ==> Recorded(t, backend, map[], ZERO_VT, next, old(t.nodes), moments) && Dirty(t.nodes[[]])
    ensures ok ==> AllAtHome(t.nodes, home) && SyncFacts.NothingToSync(t.nodes)
  {
    ghost var a := t.nodes;
    ghost var root := RootWith(a[[]], value, typeId);
    ok := SetRootComponent(t, backend, value, typeId, next, ZERO_VT, home);
    moments := [Moment(a, {}), Moment(map[[] := root], {}), Moment(t.nodes, t.deletedNodes)];
    if ok {
      RootSteps(a, root, Moment(t.nodes, t.deletedNodes), next, value, home);
    }
  }

  lemma RootSteps(a: Nodes, root: Node, y: Moment, next: VersionedTransition, value: Value, home: map<nat, Path>)
    requires a.Keys == {[]} && a[[]].IsComponent() && root.IsComponent() && root.encodedPath == a[[]].encodedPath
    requires root.state == NeedSyncStructure && root.value == Some(value) && FreshValue(ComponentField, value) &&
             ValueAtHome(value, [], home)
    requires WholeSync(map[[] := root], y.nodes, next) && DeletionsRecorded(map[[] := root], y.nodes, [], {}, y.deleted)
    requires PrefixClosed(y.nodes)
    ensures IsTransaction([Moment(a, {}), Moment(map[[] := root], {}), y], next) && [] in y.nodes && Dirty(y.nodes[[]])
  {
    var nodes: Nodes := map[[] := root];
    NewRootReady(nodes, value, home);
    assert ValueChanged(a, nodes, []);
    assert ValueStep(Moment(a, {}), Moment(nodes, {}));
    assert SyncStep(Moment(nodes, {}), y, next);
    RootKeptDirty(Moment(nodes, {}), y, next);
  }
}
