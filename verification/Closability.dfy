/** When a transaction can be closed (chasm/tree.go, CloseTransaction): a condition on the tree
    before the close. */
module Closability {
  import opened PathEncoder
  import opened Tasks
  import opened ChasmTree
  import opened Sync
  import opened SyncApply
  import SyncFacts
  import opened Transaction
  import opened CloseTasks
  import opened CloseTree
  import opened Persistence
  import opened Pointers
  import opened Steps

  /** The tasks added to the component at `p`, if it is changed or the close takes a task from it. */
  ghost function AddedIn(p: Path, n: Node, active: bool, validators: Validators, newTasks: map<nat, seq<NewTask>>)
    : seq<NewTask>
    requires n.IsComponent()
  {
    if (Dirty(n) || (active && n.state != NeedDeserialize && LosesTask(p, TasksOf(n), validators))) &&
       n.value.Some? && n.value.value.Object? && n.value.value.id in newTasks
    then newTasks[n.value.value.id] else []
  }

  /** Every validator has an answer, for the tasks of the components and for those added to
      them, and what is added is well-formed: only an immediate task has a destination. */
  ghost predicate Answers(nodes: Nodes, active: bool, validators: Validators, newTasks: map<nat, seq<NewTask>>) {
    forall p | p in nodes && nodes[p].IsComponent() :: AnswersAt(nodes[p], p, active, validators, newTasks)
  }

  ghost predicate AnswersAt(n: Node, p: Path, active: bool, validators: Validators, newTasks: map<nat, seq<NewTask>>)
    requires n.IsComponent()
  {
    && (active ==> forall t | t in TasksOf(n).side || t in TasksOf(n).pure :: validators.validate(p, t) != Failed)
    && forall nt | nt in AddedIn(p, n, active, validators, newTasks) ::
         (nt.destination == "" || nt.scheduled == 0) && validators.validateNew(p, nt) != Failed
  }

  /** The node can be serialized, once a pointer to an object that its component knows of has
      been resolved. */
  predicate Writable(nodes: Nodes, q: Path)
    requires q in nodes
  {
    var n := nodes[q];
    && n.state == NeedSerialize && n.serialized.Some?
    && (n.IsPointer() ==>
          n.value.Some? && (n.value.value.PathValue? || (n.value.value.Deferred? && DeferredAt(nodes, nodes.Keys, q))))
  }

  /** The flag for resolving pointers is set if there is one to resolve. */
  ghost predicate FlagOk(nodes: Nodes, flag: bool) {
    flag || forall q | q in nodes :: !HoldsDeferred(nodes[q])
  }

  ghost predicate NodesEncodable(nodes: Nodes) {
    forall q | q in nodes :: Encodable(nodes, q)
  }

  /** A synchronised tree that can be closed: the nodes have encoded paths and can be serialized,
      the pointers resolved, and the validators have answers. */
  ghost predicate Closable(nodes: Nodes, flag: bool, validators: Validators, newTasks: map<nat, seq<NewTask>>) {
    && FlagOk(nodes, flag) && NodesEncodable(nodes)
    && (forall q | q in nodes && Dirty(nodes[q]) :: Writable(nodes, q))
    && (forall index | Index(nodes, index) :: AllResolvable(nodes, index, nodes.Keys))
    && Answers(nodes, true, validators, newTasks)
  }

  /** A tree that can be closed: sync can delete what it has to, and what it leaves can be closed. */
  ghost predicate WillClose(nodes: Nodes, flag: bool, next: VersionedTransition, validators: Validators,
                            newTasks: map<nat, seq<NewTask>>)
    requires [] in nodes
  {
    && FlagOk(nodes, flag) && (AllNamed(nodes, []) || Idle(nodes, []))
    && forall synced | WholeSync(nodes, synced, next) :: Closable(synced, true, validators, newTasks)
  }

  lemma WillCloseSynced(before: Nodes, flag: bool, synced: Nodes, flag': bool, next: VersionedTransition,
                        validators: Validators, newTasks: map<nat, seq<NewTask>>)
    requires [] in before && WholeSync(before, synced, next) && FlagKept(before, flag, synced, flag')
    ensures WillClose(before, flag, next, validators, newTasks) ==> Closable(synced, flag', validators, newTasks)
  {
  }

  /** When there is nothing to synchronise, the tree itself has to be closable. */
  lemma SettledWillClose(nodes: Nodes, flag: bool, next: VersionedTransition, validators: Validators,
                         newTasks: map<nat, seq<NewTask>>)
    requires PrefixClosed(nodes) && Idle(nodes, []) && FlagOk(nodes, flag)
    ensures WillClose(nodes, flag, next, validators, newTasks) <==> Closable(nodes, true, validators, newTasks)
  {
    forall synced | WholeSync(nodes, synced, next)
      ensures synced == nodes
    {
      SyncFacts.IdleSync(nodes, synced, next);
    }
    if WillClose(nodes, flag, next, validators, newTasks) {
      forall q
        ensures Same(nodes, q) == SyncedNode(nodes, [], q, next)
      {
        SyncFacts.SyncedNodeIdle(nodes, [], q, next);
      }
      assert WholeSync(nodes, nodes, next);
    }
  }

  // ----- Through the phases

  lemma AddedToWritten(start: Nodes, last: VersionedTransition, next: VersionedTransition, codec: Codec, written: Nodes,
                       p: Path, active: bool, validators: Validators, newTasks: map<nat, seq<NewTask>>)
    requires Quiet(start, last) && CompareVT(last, next) < 0
    requires SerializedSoFar(start, start.Keys, next, codec, written) && p in start && start[p].IsComponent()
    ensures written[p].IsComponent() && TasksOf(written[p]) == TasksOf(start[p])
    ensures AddedTo(p, written[p], active, next, validators, newTasks) ==
            AddedIn(p, start[p], active, validators, newTasks)
  {
    assert QuietNode(start[p], last);
    CompareReflexive(next);
    if Dirty(start[p]) {
      assert Serializable(start[p]);
    }
  }

  lemma AnswersOfWritten(start: Nodes, last: VersionedTransition, next: VersionedTransition, codec: Codec,
                         written: Nodes, active: bool, validators: Validators, newTasks: map<nat, seq<NewTask>>)
    requires Quiet(start, last) && CompareVT(last, next) < 0
    requires SerializedSoFar(start, start.Keys, next, codec, written) && Answers(start, true, validators, newTasks)
    ensures AllAnswer(written, active, next, validators, newTasks)
  {
    forall p | p in written && written[p].IsComponent()
      ensures start[p].IsComponent() && TasksOf(written[p]) == TasksOf(start[p])
      ensures forall nt | nt in AddedTo(p, written[p], active, next, validators, newTasks) ::
                nt in AddedIn(p, start[p], true, validators, newTasks)
    {
      assert written[p] == Serialized(start, p, next, codec);
      AddedToWritten(start, last, next, codec, written, p, active, validators, newTasks);
    }
    assert forall p | p in written && written[p].IsComponent() :: AnswersAt(start[p], p, true, validators, newTasks);
  }

  lemma WrittenEncodable(start: Nodes, next: VersionedTransition, codec: Codec, written: Nodes)
    requires SerializedSoFar(start, start.Keys, next, codec, written)
    ensures NodesEncodable(start) ==> ComponentsEncodable(written)
  {
  }

  lemma ClosableResolved(synced: Nodes, index: map<nat, Path>, resolved: Nodes, validators: Validators,
                         newTasks: map<nat, seq<NewTask>>)
    requires Closable(synced, true, validators, newTasks) && Index(synced, index)
    requires ResolvedSoFar(synced, index, synced.Keys, resolved)
    ensures AllSerializable(resolved) && NodesEncodable(resolved)
    ensures Answers(resolved, true, validators, newTasks)
  {
    ResolvedKinds(synced, index, synced.Keys, resolved);
    forall q | q in resolved && Dirty(resolved[q])
      ensures Serializable(resolved[q])
    {
      assert Writable(synced, q);
    }
    forall p | p in resolved && resolved[p].IsComponent()
      ensures AnswersAt(resolved[p], p, true, validators, newTasks)
    {
      OnlyDeferredChange(synced, index, resolved, p);
      assert AnswersAt(synced[p], p, true, validators, newTasks);
    }
  }

  lemma ClosableAsIs(synced: Nodes, validators: Validators, newTasks: map<nat, seq<NewTask>>)
    requires Closable(synced, false, validators, newTasks)
    ensures AllSerializable(synced)
  {
    forall q | q in synced && Dirty(synced[q])
      ensures Serializable(synced[q])
    {
      assert Writable(synced, q);
    }
  }
}
