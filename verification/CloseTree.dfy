/** closeTransactionUpdateComponentTasks on the tree (chasm/tree.go), proved to be the close
    step of the cluster runs. */
module CloseTree {
  import opened Basics
  import opened PathEncoder
  import opened Tasks
  import opened ChasmTree
  import opened Transaction
  import opened CloseTasks
  import opened Runs
  import opened NewTasks
  import Replication

  /** The part of the mutable state that the tree hands its physical tasks to. */
  class Backend {
    var timers: set<Time>
    var emitted: seq<Emission>

    constructor ()
      ensures timers == {} && emitted == []
    {
      timers, emitted := {}, [];
    }

    method AddSideEffectTask(p: Path, task: Task)
      modifies `emitted
      ensures emitted == old(emitted) + [Emission(p, task)]
    {
      emitted := emitted + [Emission(p, task)];
    }

    method AddPureTask(time: Time)
      modifies `timers
      ensures timers == old(timers) + {time}
    {
      timers := timers + {time};
    }

    /** All physical side-effect tasks are generated anew: the record of them starts again. */
    method StartAgain()
      modifies `emitted
      ensures emitted == []
    {
      emitted := [];
    }

    /** DeleteCHASMPureTasks: of the timers strictly before the bound, the backend removes
        whichever it chooses to. */
    method DeletePureTasks(bound: Option<Time>, chooses: Time -> bool) returns (dropped: set<Time>)
      modifies `timers
      ensures timers == old(timers) - dropped
      ensures dropped == set time | time in old(timers) && (bound.None? || time < bound.value) && chooses(time)
    {
      dropped := set time | time in timers && (bound.None? || time < bound.value) && chooses(time);
      timers := timers - dropped;
    }
  }

  // ----- The task lists of a tree

  function CompsOf(nodes: Nodes): Components {
    map p | p in nodes && nodes[p].IsComponent() :: TasksOf(nodes[p])
  }

  function TasksOf(n: Node): TaskLists
    requires n.IsComponent()
  {
    n.serialized.value.attributes.tasks
  }

  function WithTasks(n: Node, lists: TaskLists): Node
    requires n.IsComponent()
  {
    n.(serialized := Some(n.serialized.value.(attributes := n.serialized.value.attributes.(tasks := lists))))
  }

  function WithVersion(n: Node, version: VersionedTransition): Node
    requires n.serialized.Some?
  {
    n.(serialized := Some(n.serialized.value.(lastUpdate := version)))
  }

  /** The new tasks that are taken up for a node: those of its value, if it was written by
      the transaction. */
  function NewsFor(n: Node, next: VersionedTransition, newTasks: map<nat, seq<NewTask>>): seq<NewTask> {
    if n.serialized.Some? && n.serialized.value.lastUpdate == next && n.state != NeedDeserialize &&
       n.IndexedId().Some? && n.IndexedId().value in newTasks
    then newTasks[n.IndexedId().value] else []
  }

  /** Cleanup removes a task of the component. */
  predicate NeedsCleanup(n: Node, active: bool, validate: Task -> Verdict) {
    active && n.IsComponent() && TasksOf(n).Cleaned(validate) != TasksOf(n)
  }

  // ----- First half: cleaning up

  method CleanupComponent(t: Tree, p: Path, active: bool, next: VersionedTransition, validate: Task -> Verdict)
    returns (ok: bool)
    requires t.Valid() && p in t.nodes && t.nodes[p].IsComponent()
    modifies t`nodes, t`updatedNodes, t`deletedNodes, t`taskValueCache
    ensures ok ==> t.Valid()
    ensures ok <==>
            (active ==> AllAnswered(TasksOf(old(t.nodes)[p]).side, validate) &&
                        AllAnswered(TasksOf(old(t.nodes)[p]).pure, validate)) &&
                    (NeedsCleanup(old(t.nodes)[p], active, validate) ==> Encodable(old(t.nodes), p))
    ensures ok ==> CleanupResult(old(t.nodes), old(t.updatedNodes), old(t.deletedNodes), p, active, next, validate,
                                 t.nodes, t.updatedNodes, t.deletedNodes)
  {
    ok := true;
    if !active {
      return;
    }
    ghost var before := t.nodes;
    var lists, cleanedUp;
    ok, lists, cleanedUp, t.taskValueCache := CleanupInvalidTasks(TasksOf(t.nodes[p]), validate, t.taskValueCache);
    if !ok {
      return;
    }
    ReplaceRecord(t, p, WithTasks(t.nodes[p], lists));
    if cleanedUp {
      ok := RecordCleanup(t, p, next);
    }
  }

  /** A component that has been cleaned up is replicated: it joins the mutation, if it has not
      been written anyway. */
  method RecordCleanup(t: Tree, p: Path, next: VersionedTransition) returns (ok: bool)
    requires t.Valid() && p in t.nodes && t.nodes[p].IsComponent()
    modifies t`nodes, t`updatedNodes, t`deletedNodes
    ensures ok <==> Encodable(old(t.nodes), p)
    ensures ok ==> t.Valid() && t.nodes.Keys == old(t.nodes).Keys &&
                   forall q | q in t.nodes && q != p :: t.nodes[q] == old(t.nodes)[q]
    ensures ok ==> var key, n := Key(old(t.nodes), p), old(t.nodes)[p];
                   && SameButCache(if key in old(t.updatedNodes) then n else WithVersion(n, next), t.nodes[p], key)
                   && t.updatedNodes == (if key in old(t.updatedNodes) then old(t.updatedNodes)
                                         else old(t.updatedNodes)[key := p])
                   && t.deletedNodes == (if key in old(t.updatedNodes) then old(t.deletedNodes)
                                         else old(t.deletedNodes) - {key})
  {
    var r := t.GetEncodedPath(p);
    ok := r.Ok?;
    if ok && r.value !in t.updatedNodes {
      ReplaceRecord(t, p, WithVersion(t.nodes[p], next));
      t.updatedNodes := t.updatedNodes[r.value := p];
      t.deletedNodes := t.deletedNodes - {r.value};
    }
  }

  ghost predicate CleanupResult(nodes: Nodes, updated: map<string, Path>, deleted: set<string>, p: Path, active: bool,
                                next: VersionedTransition, validate: Task -> Verdict,
                                nodes': Nodes, updated': map<string, Path>, deleted': set<string>)
    requires p in nodes && nodes[p].IsComponent()
  {
    var key := Key(nodes, p);
    var write := NeedsCleanup(nodes[p], active, validate) && key !in updated;
    var lists := if active then TasksOf(nodes[p]).Cleaned(validate) else TasksOf(nodes[p]);
    var n := WithTasks(nodes[p], lists);
    && nodes'.Keys == nodes.Keys
    && (forall q | q in nodes && q != p :: nodes'[q] == nodes[q])
    && SameButCache(if write then WithVersion(n, next) else n, nodes'[p], key)
    && updated' == (if write then updated[key := p] else updated)
    && deleted' == (if write then deleted - {key} else deleted)
  }

  predicate SameButCache(expected: Node, actual: Node, key: string) {
    actual == expected || actual == expected.(encodedPath := Some(key))
  }

  /** Replaces the record of a component by one of the same kind. */
  method ReplaceRecord(t: Tree, p: Path, n: Node)
    requires t.Valid() && p in t.nodes && t.nodes[p].IsComponent()
    requires n.IsComponent() && n.value == t.nodes[p].value && n.state == t.nodes[p].state &&
             n.encodedPath == t.nodes[p].encodedPath
    modifies t`nodes
    ensures t.Valid() && t.nodes == old(t.nodes)[p := n]
    ensures Key(t.nodes, p) == Key(old(t.nodes), p) && Encodable(t.nodes, p) == Encodable(old(t.nodes), p)
  {
    var before := t.nodes;
    t.nodes := t.nodes[p := n];
    assert t.nodes.Keys == before.Keys;
    assert forall q | q in t.nodes :: t.nodes[q].IndexedId() == before[q].IndexedId();
  }

  // ----- A whole component

  /** The component after cleanup. */
  function AfterCleanup(nodes: Nodes, updated: map<string, Path>, p: Path, active: bool, next: VersionedTransition,
                        validate: Task -> Verdict): Node
    requires p in nodes && nodes[p].IsComponent()
  {
    var lists := if active then TasksOf(nodes[p]).Cleaned(validate) else TasksOf(nodes[p]);
    var n := WithTasks(nodes[p], lists);
    if NeedsCleanup(nodes[p], active, validate) && Key(nodes, p) !in updated then WithVersion(n, next) else n
  }

  /** The new tasks that a close takes up for the component. */
  function NewsOf(nodes: Nodes, updated: map<string, Path>, p: Path, active: bool, next: VersionedTransition,
                  validate: Task -> Verdict, newTasks: map<nat, seq<NewTask>>): seq<NewTask>
    requires p in nodes && nodes[p].IsComponent()
  {
    NewsFor(AfterCleanup(nodes, updated, p, active, next, validate), next, newTasks)
  }

  // ----- Which tasks are taken up

  /** A task of the component is found invalid. */
  ghost predicate LosesTask(p: Path, lists: TaskLists, validators: Validators) {
    exists t :: (t in lists.side || t in lists.pure) && validators.validate(p, t) == Invalid
  }

  /** The tasks added to the component at `p`, if this transaction has written it or takes a
      task from it. */
  ghost function AddedTo(p: Path, n: Node, active: bool, next: VersionedTransition, validators: Validators,
                         newTasks: map<nat, seq<NewTask>>): seq<NewTask>
    requires n.IsComponent()
  {
    if (n.serialized.value.lastUpdate == next || (active && LosesTask(p, TasksOf(n), validators))) &&
       n.state != NeedDeserialize && n.value.Some? && n.value.value.Object? && n.value.value.id in newTasks
    then newTasks[n.value.value.id] else []
  }

  /** Every component has its tasks that are still valid, and the valid ones among those
      added to it, each in the list of its kind; and nothing else. */
  ghost predicate TasksUpdated(start: Nodes, nodes: Nodes, active: bool, next: VersionedTransition,
                               validators: Validators, newTasks: map<nat, seq<NewTask>>)
  {
    forall p | p in start && start[p].IsComponent() ::
      && p in nodes && nodes[p].IsComponent()
      && Updated(p, TasksOf(start[p]), TasksOf(nodes[p]), active, validators,
                 AddedTo(p, start[p], active, next, validators, newTasks), next)
  }

  lemma NewsAreAdded(nodes: Nodes, updated: map<string, Path>, p: Path, input: CloseInput,
                     newTasks: map<nat, seq<NewTask>>)
    requires p in nodes && nodes[p].IsComponent()
    requires input.News(p) == NewsOf(nodes, updated, p, input.active, input.next, input.Validator(p), newTasks)
    requires input.active && Key(nodes, p) in updated ==> nodes[p].serialized.value.lastUpdate == input.next
    ensures input.News(p) == AddedTo(p, nodes[p], input.active, input.next, input.validators, newTasks)
  {
    var lists, validate := TasksOf(nodes[p]), input.Validator(p);
    KeptChanges(lists.side, validate);
    KeptChanges(lists.pure, validate);
    assert LosesTask(p, lists, input.validators) <==>
           AnyInvalid(lists.side, validate) || AnyInvalid(lists.pure, validate);
  }

  /** What the traversal does to the component at `p`, and to it alone. */
  ghost predicate ComponentClosed(nodes: Nodes, updated: map<string, Path>, deleted: set<string>, p: Path,
                                  input: CloseInput, offset: int, nodes': Nodes, updated': map<string, Path>,
                                  deleted': set<string>, offset': int)
    requires p in nodes && nodes[p].IsComponent()
  {
    var (logical, o) := Logical(TasksOf(nodes[p]), p, input, offset);
    var write := NeedsCleanup(nodes[p], input.active, input.Validator(p)) && Key(nodes, p) !in updated;
    && nodes'.Keys == nodes.Keys
    && (forall q | q in nodes && q != p :: nodes'[q] == nodes[q])
    && SameButCache(WithTasks(AfterCleanup(nodes, updated, p, input.active, input.next, input.Validator(p)),
                              Emitted(logical)), nodes'[p], Key(nodes, p))
    && updated' == (if write then updated[Key(nodes, p) := p] else updated)
    && deleted' == (if write then deleted - {Key(nodes, p)} else deleted)
    && offset' == o
  }

  method CloseComponent(t: Tree, backend: Backend, p: Path, input: CloseInput, newTasks: map<nat, seq<NewTask>>,
                        offset: int)
    returns (ok: bool, offset': int)
    requires t.Valid() && p in t.nodes && t.nodes[p].IsComponent()
    requires input.News(p) == NewsOf(t.nodes, t.updatedNodes, p, input.active, input.next, input.Validator(p), newTasks)
    modifies t`nodes, t`updatedNodes, t`deletedNodes, t`taskValueCache, backend`emitted
    ensures ok ==> t.Valid()
    ensures ok ==> Acceptable(TasksOf(old(t.nodes)[p]), p, input)
    ensures Acceptable(TasksOf(old(t.nodes)[p]), p, input) && Encodable(old(t.nodes), p) ==> ok
    ensures ok ==> ComponentClosed(old(t.nodes), old(t.updatedNodes), old(t.deletedNodes), p, input, offset,
                                   t.nodes, t.updatedNodes, t.deletedNodes, offset')
    ensures ok ==> var side := Logical(TasksOf(old(t.nodes)[p]), p, input, offset).0.side;
                   backend.emitted == old(backend.emitted) + EmissionsOf(p, Reverse(side[CreatedUpTo(side)..]))
    ensures ok && (input.active && Key(old(t.nodes), p) in old(t.updatedNodes) ==>
                   old(t.nodes)[p].serialized.value.lastUpdate == input.next) ==>
              && t.nodes[p].IsComponent()
              && ListsUpdated(p, TasksOf(old(t.nodes)[p]), TasksOf(t.nodes[p]), input.active, input.validators,
                              AddedTo(p, old(t.nodes)[p], input.active, input.next, input.validators, newTasks),
                              input.next, offset)
  {
    offset' := offset;
    ghost var nodes, updated := t.nodes, t.updatedNodes;
    ok := CleanupComponent(t, p, input.active, input.next, input.Validator(p));
    if !ok {
      return;
    }
    ghost var mid := t.nodes;
    var news := NewsFor(t.nodes[p], input.next, newTasks);
    CleanedUpComponent(nodes, updated, old(t.deletedNodes), p, input, newTasks, mid, t.updatedNodes, t.deletedNodes);
    ok, offset' := AddAndEmit(t, backend, p, input.next, news, input.NewValidator(p), offset);
    if ok && (input.active && Key(nodes, p) in updated ==> nodes[p].serialized.value.lastUpdate == input.next) {
      NewsAreAdded(nodes, updated, p, input, newTasks);
      ClosedListsUpdated(TasksOf(nodes[p]), p, input, offset, false);
      assert TasksOf(t.nodes[p]) == ClosedLists(TasksOf(nodes[p]), p, input, offset, false);
    }
  }

  lemma CleanedUpComponent(nodes: Nodes, updated: map<string, Path>, deleted: set<string>, p: Path, input: CloseInput,
                           newTasks: map<nat, seq<NewTask>>, mid: Nodes, updated': map<string, Path>,
                           deleted': set<string>)
    requires p in nodes && nodes[p].IsComponent()
    requires CleanupResult(nodes, updated, deleted, p, input.active, input.next, input.Validator(p), mid,
                           updated', deleted')
    ensures mid[p].IsComponent()
    ensures NewsFor(mid[p], input.next, newTasks) ==
            NewsOf(nodes, updated, p, input.active, input.next, input.Validator(p), newTasks)
    ensures TasksOf(mid[p]) == if input.active then TasksOf(nodes[p]).Cleaned(input.Validator(p)) else TasksOf(nodes[p])
    ensures SameButCache(AfterCleanup(nodes, updated, p, input.active, input.next, input.Validator(p)), mid[p],
                         Key(nodes, p))
  {
  }

  /** The second half: new tasks join the lists, and physical side-effect tasks are generated. */
  method AddAndEmit(t: Tree, backend: Backend, p: Path, next: VersionedTransition, news: seq<NewTask>,
                    validateNew: NewTask -> Verdict, offset: int) returns (ok: bool, offset': int)
    requires t.Valid() && p in t.nodes && t.nodes[p].IsComponent()
    modifies t`nodes, t`taskValueCache, backend`emitted
    ensures ok ==> t.Valid()
    ensures ok <==> NewTasksAcceptable(news, validateNew)
    ensures ok ==> var (logical, o) := WithNewTasks(TasksOf(old(t.nodes)[p]), news, validateNew, next, offset);
                   && t.nodes == old(t.nodes)[p := WithTasks(old(t.nodes)[p], Emitted(logical))]
                   && offset' == o
                   && backend.emitted == old(backend.emitted) +
                      EmissionsOf(p, Reverse(logical.side[CreatedUpTo(logical.side)..]))
  {
    var lists;
    ok, lists, offset', t.taskValueCache :=
      HandleNewTasks(TasksOf(t.nodes[p]), news, validateNew, next, offset, t.taskValueCache);
    if !ok {
      return;
    }
    var side := EmitSideEffectTasks(backend, p, lists.side);
    assert side == MarkedFrom(lists.side, CreatedUpTo(lists.side));
    ReplaceRecord(t, p, WithTasks(t.nodes[p], TaskLists(side, lists.pure)));
  }

  /** The backward scan over the side-effect tasks, handing each one to the backend. */
  method EmitSideEffectTasks(backend: Backend, p: Path, tasks: seq<Task>) returns (tasks': seq<Task>)
    modifies backend`emitted
    ensures |tasks'| == |tasks|
    ensures forall i | 0 <= i < |tasks| :: tasks'[i] == if i < CreatedUpTo(tasks) then tasks[i]
                                                        else MarkCreated(tasks[i])
    ensures backend.emitted == old(backend.emitted) + EmissionsOf(p, Reverse(tasks[CreatedUpTo(tasks)..]))
  {
    var emitted;
    tasks', emitted := GeneratePhysicalSideEffectTasks(tasks);
    for i := 0 to |emitted|
      invariant backend.emitted == old(backend.emitted) + EmissionsOf(p, emitted[..i])
    {
      backend.AddSideEffectTask(p, emitted[i]);
      assert EmissionsOf(p, emitted[..i + 1]) == EmissionsOf(p, emitted[..i]) + [Emission(p, emitted[i])];
    }
    assert emitted[..|emitted|] == emitted;
  }

  // ----- The traversal

  ghost predicate AllKeysDecode(nodes: Nodes) {
    forall p | p in nodes :: Decoded(Key(nodes, p)) == Ok(p)
  }

  /** The input holds the new tasks that the traversal will find. */
  ghost predicate NewsMatch(nodes: Nodes, updated: map<string, Path>, input: CloseInput,
                            newTasks: map<nat, seq<NewTask>>) {
    forall p :: NewsMatchAt(nodes, updated, input, newTasks, p)
  }

  ghost predicate NewsMatchAt(nodes: Nodes, updated: map<string, Path>, input: CloseInput,
                              newTasks: map<nat, seq<NewTask>>, p: Path) {
    p in nodes && nodes[p].IsComponent() ==>
      input.News(p) == NewsOf(nodes, updated, p, input.active, input.next, input.Validator(p), newTasks)
  }

  ghost predicate ComponentsOnly(nodes: Nodes, visited: seq<Path>) {
    forall p | p in visited :: p in nodes && nodes[p].IsComponent()
  }

  /** The tree and the backend after the components `visited`, compared with the function
      that closes the task lists. */
  ghost predicate Traversed(start: Nodes, visited: seq<Path>, input: CloseInput,
                            nodes: Nodes, emitted: seq<Emission>, offset: int, first: Option<Path>)
  {
    && nodes.Keys == start.Keys
    && ComponentsOnly(start, visited)
    && (forall p | p in start && p !in visited :: nodes[p] == start[p])
    && var pr := CloseAll(CompsOf(start), visited, input);
       CompsOf(nodes) == pr.comps && emitted == pr.emitted && offset == pr.offset && first == pr.first
  }

  /** The mutation covers what the traversal has changed: entries are added only for visited
      components, and their keys are not deleted. */
  ghost predicate EntriesAdded(start: Nodes, updated: map<string, Path>, deleted: set<string>, visited: seq<Path>,
                               updated': map<string, Path>, deleted': set<string>)
  {
    && (forall k | k in updated :: k in updated' && updated'[k] == updated[k])
    && (forall k | k in updated' && k !in updated ::
          k !in deleted' && Decoded(k).Ok? && updated'[k] == Decoded(k).value && Decoded(k).value in visited &&
          Decoded(k).value in start && Key(start, Decoded(k).value) == k)
    && deleted' <= deleted
    && (forall k | k in deleted && k !in deleted' :: k in updated')
  }

  lemma NewsUnaffected(start: Nodes, updated: map<string, Path>, deleted: set<string>, visited: seq<Path>, p: Path,
                       input: CloseInput, newTasks: map<nat, seq<NewTask>>, nodes: Nodes, updated': map<string, Path>,
                       deleted': set<string>)
    requires AllKeysDecode(start) && NewsMatch(start, updated, input, newTasks)
    requires p in start && start[p].IsComponent() && p !in visited && p in nodes && nodes[p] == start[p]
    requires Key(nodes, p) == Key(start, p)
    requires EntriesAdded(start, updated, deleted, visited, updated', deleted')
    ensures input.News(p) == NewsOf(nodes, updated', p, input.active, input.next, input.Validator(p), newTasks)
    ensures Key(start, p) in updated' <==> Key(start, p) in updated
  {
    assert NewsMatchAt(start, updated, input, newTasks, p);
  }

  lemma CompsAfter(nodes: Nodes, p: Path, nodes': Nodes)
    requires p in nodes && nodes[p].IsComponent() && nodes'.Keys == nodes.Keys
    requires forall q | q in nodes && q != p :: nodes'[q] == nodes[q]
    requires nodes'[p].IsComponent()
    ensures CompsOf(nodes') == CompsOf(nodes)[p := TasksOf(nodes'[p])]
  {
  }

  lemma TraversedOneMore(start: Nodes, visited: seq<Path>, p: Path, input: CloseInput, nodes: Nodes,
                         emitted: seq<Emission>, offset: int, first: Option<Path>, nodes': Nodes,
                         emitted': seq<Emission>, offset': int)
    requires Traversed(start, visited, input, nodes, emitted, offset, first)
    requires p in start && start[p].IsComponent() && p !in visited
    requires nodes'.Keys == nodes.Keys &&
             (forall q | q in nodes && q != p :: nodes'[q] == nodes[q]) && nodes'[p].IsComponent()
    requires var (logical, o) := Logical(TasksOf(start[p]), p, input, offset);
             && TasksOf(nodes'[p]) == Emitted(logical) && offset' == o
             && emitted' == emitted + EmissionsOf(p, Reverse(logical.side[CreatedUpTo(logical.side)..]))
    ensures Traversed(start, visited + [p], input, nodes', emitted', offset',
                      if Earlier(CompsOf(nodes'), p, first) then Some(p) else first)
  {
    CompsAfter(nodes, p, nodes');
    assert (visited + [p])[..|visited|] == visited;
  }

  // ----- No change goes unrecorded

  /** What the start of the task phase guarantees: a component written by this transaction is
      in the mutation, and so is one with a side-effect task that has no physical task yet. */
  ghost predicate WrittenOrQuiet(nodes: Nodes, updated: map<string, Path>, system: map<string, Path>,
                                 next: VersionedTransition) {
    forall p :: WrittenOrQuietAt(nodes, updated, system, next, p)
  }

  ghost predicate WrittenOrQuietAt(nodes: Nodes, updated: map<string, Path>, system: map<string, Path>,
                                   next: VersionedTransition, p: Path) {
    p in nodes && nodes[p].IsComponent() && Key(nodes, p) !in updated ==>
      nodes[p].serialized.value.lastUpdate != next && (Key(nodes, p) in system || AllCreated(TasksOf(nodes[p]).side))
  }

  lemma AllCreatedAllDone(tasks: seq<Task>)
    requires AllCreated(tasks)
    ensures MarkedFrom(tasks, CreatedUpTo(tasks)) == tasks
  {
    if tasks != [] {
      assert tasks[|tasks| - 1] in tasks;
    }
  }

  /** A component that is neither written nor cleaned up keeps its record. */
  lemma QuietComponent(nodes: Nodes, updated: map<string, Path>, system: map<string, Path>, p: Path, input: CloseInput,
                       newTasks: map<nat, seq<NewTask>>, offset: int)
    requires p in nodes && nodes[p].IsComponent() && WrittenOrQuiet(nodes, updated, system, input.next)
    requires Key(nodes, p) !in updated && Key(nodes, p) !in system
    requires input.News(p) == NewsOf(nodes, updated, p, input.active, input.next, input.Validator(p), newTasks)
    requires !NeedsCleanup(nodes[p], input.active, input.Validator(p))
    ensures WithTasks(AfterCleanup(nodes, updated, p, input.active, input.next, input.Validator(p)),
                      Emitted(Logical(TasksOf(nodes[p]), p, input, offset).0)) == nodes[p]
  {
    assert WrittenOrQuietAt(nodes, updated, system, input.next, p);
    assert AfterCleanup(nodes, updated, p, input.active, input.next, input.Validator(p)) == nodes[p];
    assert input.News(p) == [];
    assert Logical(TasksOf(nodes[p]), p, input, offset).0 == TasksOf(nodes[p]);
    AllCreatedAllDone(TasksOf(nodes[p]).side);
  }

  /** Apart from the cached key, a node whose key is not in the mutation is as it was. */
  ghost predicate Accounted(start: Nodes, nodes: Nodes, updated: map<string, Path>, stamp: Stamp) {
    && nodes.Keys == start.Keys
    && forall q | q in start ::
         && nodes[q].value == start[q].value && nodes[q].state == start[q].state
         && nodes[q].serialized.Some? == start[q].serialized.Some?
         && nodes[q].IsComponent() == start[q].IsComponent() && nodes[q].IsMap() == start[q].IsMap()
         && (nodes[q].encodedPath == start[q].encodedPath || nodes[q].encodedPath == Some(Key(start, q)))
         && (nodes[q].serialized != start[q].serialized ==> Key(start, q) in updated)
         && ContentKept(start[q], nodes[q], stamp)
  }

  /** The records agree in everything but the version and the task lists. */
  predicate SameContent(a: ChasmNode, b: ChasmNode) {
    b == if a.attributes.Component? && b.attributes.Component?
         then a.(lastUpdate := b.lastUpdate, attributes := a.attributes.(tasks := b.attributes.tasks))
         else a.(lastUpdate := b.lastUpdate)
  }

  /** That is: the same initial version and data, and the same kind, with the same type and
      detached flag or the same target. */
  lemma SameContentExactly(a: ChasmNode, b: ChasmNode)
    ensures SameContent(a, b) <==>
            && a.initial == b.initial && a.data == b.data
            && if a.attributes.Component? && b.attributes.Component? then
                 a.attributes.typeId == b.attributes.typeId && a.attributes.detached == b.attributes.detached
               else a.attributes == b.attributes
  {
  }

  /** A record that is rewritten keeps its version, or gets the one that cleanup writes, if it
      writes any; its content stays, and with an older version all but the statuses of its tasks. */
  predicate ContentKept(before: Node, after: Node, stamp: Stamp)
    requires before.serialized.Some? == after.serialized.Some?
  {
    after.serialized.Some? ==>
      var b, a := before.serialized.value, after.serialized.value;
      && (a.lastUpdate == b.lastUpdate || (stamp.cleansUp && a.lastUpdate == stamp.next))
      && SameContent(b, a)
      && (a.lastUpdate != stamp.next ==> Replication.Strip(a) == Replication.Strip(b))
  }

  // ----- Marking a task changes nothing but its status

  lemma MarkedStrips(before: seq<Task>, after: seq<Task>)
    requires |after| == |before|
    requires forall i | 0 <= i < |before| :: after[i] == before[i] || after[i] == MarkCreated(before[i])
    ensures Replication.StripTasks(after) == Replication.StripTasks(before)
  {
    forall i | 0 <= i < |before|
      ensures Replication.StripTasks(after)[i] == Replication.StripTasks(before)[i]
    {
    }
  }

  lemma EmittedStrips(n: Node)
    requires n.IsComponent()
    ensures var n' := WithTasks(n, Emitted(TasksOf(n)));
            Replication.Strip(n'.serialized.value) == Replication.Strip(n.serialized.value) && ContentOnly(n, n')
  {
    MarkedStrips(TasksOf(n).side, Emitted(TasksOf(n)).side);
  }

  lemma MarkFirstStrips(n: Node)
    requires n.IsComponent() && TasksOf(n).pure != []
    ensures Replication.Strip(MarkFirstPure(n).serialized.value) == Replication.Strip(n.serialized.value) &&
            ContentOnly(n, MarkFirstPure(n))
  {
    MarkedStrips(TasksOf(n).pure, TasksOf(MarkFirstPure(n)).pure);
  }

  /** The nodes differ in their task lists only. */
  predicate ContentOnly(before: Node, after: Node) {
    && before.IsComponent() && after.IsComponent()
    && after == WithTasks(before, TasksOf(after))
  }

  lemma AccountedKeys(start: Nodes, nodes: Nodes, updated: map<string, Path>, stamp: Stamp)
    requires Accounted(start, nodes, updated, stamp)
    ensures forall q | q in start :: Key(nodes, q) == Key(start, q)
  {
  }

  lemma AccountedOneMore(start: Nodes, updated: map<string, Path>, system: map<string, Path>, nodes: Nodes,
                         updated1: map<string, Path>, deleted1: set<string>, p: Path, input: CloseInput,
                         newTasks: map<nat, seq<NewTask>>, offset: int, nodes': Nodes, updated2: map<string, Path>,
                         deleted2: set<string>, offset': int)
    requires Accounted(start, nodes, system + updated1, input.Mark()) && p in start && start[p].IsComponent() &&
             nodes[p] == start[p]
    requires WrittenOrQuiet(start, updated, system, input.next) &&
             (input.active ==> WrittenNow(start, updated, input.next))
    requires Key(start, p) in updated1 <==> Key(start, p) in updated
    requires input.News(p) == NewsOf(nodes, updated1, p, input.active, input.next, input.Validator(p), newTasks)
    requires ComponentClosed(nodes, updated1, deleted1, p, input, offset, nodes', updated2, deleted2, offset')
    ensures Accounted(start, nodes', system + updated2, input.Mark())
  {
    AccountedKeys(start, nodes, system + updated1, input.Mark());
    var key := Key(start, p);
    if key !in updated1 && key !in system && !NeedsCleanup(nodes[p], input.active, input.Validator(p)) {
      QuietHere(start, updated, system, nodes, updated1, p, input, newTasks, offset);
    }
    ComponentContent(start, nodes, updated1, deleted1, p, input, newTasks, offset, nodes', updated2, deleted2, offset');
  }

  /** Without cleanup and new tasks a component keeps all but statuses; with them it has the
      version of the transaction. */
  lemma ComponentContent(start: Nodes, nodes: Nodes, updated1: map<string, Path>, deleted1: set<string>, p: Path,
                         input: CloseInput, newTasks: map<nat, seq<NewTask>>, offset: int,
                         nodes': Nodes, updated2: map<string, Path>, deleted2: set<string>, offset': int)
    requires p in start && start[p].IsComponent() && p in nodes && nodes[p] == start[p]
    requires input.active && Key(nodes, p) in updated1 ==> start[p].serialized.value.lastUpdate == input.next
    requires input.News(p) == NewsOf(nodes, updated1, p, input.active, input.next, input.Validator(p), newTasks)
    requires ComponentClosed(nodes, updated1, deleted1, p, input, offset, nodes', updated2, deleted2, offset')
    ensures nodes'[p].IsComponent() && ContentKept(start[p], nodes'[p], input.Mark())
  {
    var n := AfterCleanup(nodes, updated1, p, input.active, input.next, input.Validator(p));
    if nodes'[p].serialized.value.lastUpdate != input.next {
      assert n == nodes[p];
      assert input.News(p) == [];
      assert Logical(TasksOf(nodes[p]), p, input, offset).0 == TasksOf(nodes[p]);
      EmittedStrips(nodes[p]);
    }
  }

  lemma QuietHere(start: Nodes, updated: map<string, Path>, system: map<string, Path>, nodes: Nodes,
                  updated1: map<string, Path>, p: Path, input: CloseInput, newTasks: map<nat, seq<NewTask>>,
                  offset: int)
    requires p in start && p in nodes && start[p].IsComponent() && nodes[p] == start[p] &&
             Key(nodes, p) == Key(start, p)
    requires WrittenOrQuiet(start, updated, system, input.next) && Key(start, p) !in updated &&
             Key(start, p) !in updated1 && Key(start, p) !in system
    requires input.News(p) == NewsOf(nodes, updated1, p, input.active, input.next, input.Validator(p), newTasks)
    requires !NeedsCleanup(nodes[p], input.active, input.Validator(p))
    ensures WithTasks(AfterCleanup(nodes, updated1, p, input.active, input.next, input.Validator(p)),
                      Emitted(Logical(TasksOf(nodes[p]), p, input, offset).0)) == nodes[p]
  {
    assert AfterCleanup(nodes, updated1, p, input.active, input.next, input.Validator(p)) ==
           AfterCleanup(start, updated, p, input.active, input.next, input.Validator(p));
    QuietComponent(start, updated, system, p, input, newTasks, offset);
  }

  lemma EntriesOneMore(start: Nodes, updated: map<string, Path>, deleted: set<string>, visited: seq<Path>, p: Path,
                       updated1: map<string, Path>, deleted1: set<string>, write: bool)
    requires EntriesAdded(start, updated, deleted, visited, updated1, deleted1) && p in start &&
             Decoded(Key(start, p)) == Ok(p)
    requires write ==> Key(start, p) !in updated1
    ensures EntriesAdded(start, updated, deleted, visited +
                         [p], if write then updated1[Key(start, p) := p] else updated1,
                         if write then deleted1 - {Key(start, p)} else deleted1)
  {
  }

  // ----- The loop

  /** No validator fails on a task of the components, no new task is malformed, and the
      components have encoded paths. */
  ghost predicate AllAcceptable(start: Nodes, input: CloseInput) {
    forall p | p in start && start[p].IsComponent() ::
      Acceptable(TasksOf(start[p]), p, input) && Encodable(start, p)
  }

  /** Every validator has an answer, for the tasks of the components and for those added to
      them, and what is added is well-formed: only an immediate task has a destination. */
  ghost predicate AllAnswer(start: Nodes, active: bool, next: VersionedTransition, validators: Validators,
                            newTasks: map<nat, seq<NewTask>>)
  {
    forall p | p in start && start[p].IsComponent() ::
      && (active ==> forall t | t in TasksOf(start[p]).side || t in TasksOf(start[p]).pure ::
                       validators.validate(p, t) != Failed)
      && forall nt | nt in AddedTo(p, start[p], active, next, validators, newTasks) ::
           (nt.destination == "" || nt.scheduled == 0) && validators.validateNew(p, nt) != Failed
  }

  ghost predicate ComponentsEncodable(nodes: Nodes) {
    forall p | p in nodes && nodes[p].IsComponent() :: Encodable(nodes, p)
  }

  lemma VisitedAnswer(start: Nodes, updated: map<string, Path>, system: map<string, Path>, deleted: set<string>,
                      visited: seq<Path>, input: CloseInput, newTasks: map<nat, seq<NewTask>>, pr: Progress,
                      nodes: Nodes, updated': map<string, Path>, deleted': set<string>)
    requires TraversalInput(start, updated, system, input, newTasks)
    requires TraversalDone(start, updated, system, deleted, visited, input, pr, nodes, updated', deleted')
    ensures AllAnswer(start, input.active, input.next, input.validators, newTasks)
  {
    forall p | p in start && start[p].IsComponent()
      ensures Acceptable(TasksOf(start[p]), p, input)
    {
      assert p in CompsOf(start);
    }
    AnswersAreAcceptable(start, updated, system, input, newTasks);
  }

  lemma AnswersAreAcceptable(start: Nodes, updated: map<string, Path>, system: map<string, Path>, input: CloseInput,
                             newTasks: map<nat, seq<NewTask>>)
    requires TraversalInput(start, updated, system, input, newTasks)
    ensures AllAnswer(start, input.active, input.next, input.validators, newTasks) <==>
            forall p | p in start && start[p].IsComponent() :: Acceptable(TasksOf(start[p]), p, input)
    ensures AllAnswer(start, input.active, input.next, input.validators, newTasks) && ComponentsEncodable(start) ==>
              AllAcceptable(start, input)
  {
    forall p | p in start && start[p].IsComponent()
      ensures input.News(p) == AddedTo(p, start[p], input.active, input.next, input.validators, newTasks)
    {
      assert NewsMatchAt(start, updated, input, newTasks, p);
      NewsAreAdded(start, updated, p, input, newTasks);
    }
  }

  /** What the traversal is given. */
  ghost predicate TraversalInput(start: Nodes, updated: map<string, Path>, system: map<string, Path>, input: CloseInput,
                                 newTasks: map<nat, seq<NewTask>>) {
    && AllKeysDecode(start) && NewsMatch(start, updated, input, newTasks) &&
       WrittenOrQuiet(start, updated, system, input.next)
    && (input.active ==> WrittenNow(start, updated, input.next))
  }

  /** What an active transaction has in its mutation was written by it. */
  ghost predicate WrittenNow(start: Nodes, updated: map<string, Path>, next: VersionedTransition) {
    forall p | p in start && start[p].IsComponent() && Key(start, p) in updated ::
      start[p].serialized.value.lastUpdate == next
  }

  /** The whole state of the traversal after the components `visited`. */
  ghost predicate TraversalState(start: Nodes, updated: map<string, Path>, system: map<string, Path>,
                                 deleted: set<string>, visited: seq<Path>, input: CloseInput, nodes: Nodes,
                                 updated': map<string, Path>, deleted': set<string>, emitted: seq<Emission>,
                                 offset: int, first: Option<Path>)
  {
    && Traversed(start, visited, input, nodes, emitted, offset, first)
    && EntriesAdded(start, updated, deleted, visited, updated', deleted')
    && Accounted(start, nodes, system + updated', input.Mark())
    && (forall p | p in visited :: p in start && start[p].IsComponent() && Acceptable(TasksOf(start[p]), p, input))
  }

  lemma TraversalOneMore(start: Nodes, updated: map<string, Path>, system: map<string, Path>, deleted: set<string>,
                         visited: seq<Path>, p: Path, input: CloseInput, newTasks: map<nat, seq<NewTask>>, nodes: Nodes,
                         updated1: map<string, Path>, deleted1: set<string>, emitted: seq<Emission>, offset: int,
                         first: Option<Path>, nodes': Nodes, updated2: map<string, Path>, deleted2: set<string>,
                         emitted': seq<Emission>, offset': int)
    requires TraversalInput(start, updated, system, input, newTasks)
    requires TraversalState(start, updated, system, deleted, visited, input, nodes, updated1, deleted1, emitted,
                            offset, first)
    requires p in start && start[p].IsComponent() && p !in visited && Acceptable(TasksOf(start[p]), p, input)
    requires input.News(p) == NewsOf(nodes, updated1, p, input.active, input.next, input.Validator(p), newTasks)
    requires Key(start, p) in updated1 <==> Key(start, p) in updated
    requires ComponentClosed(nodes, updated1, deleted1, p, input, offset, nodes', updated2, deleted2, offset')
    requires var side := Logical(TasksOf(nodes[p]), p, input, offset).0.side;
             emitted' == emitted + EmissionsOf(p, Reverse(side[CreatedUpTo(side)..]))
    ensures TraversalState(start, updated, system, deleted, visited + [p], input, nodes', updated2, deleted2, emitted',
                           offset', if Earlier(CompsOf(nodes'), p, first) then Some(p) else first)
  {
    ClosedTasks(nodes, updated1, deleted1, p, input, offset, nodes', updated2, deleted2, offset');
    TraversedOneMore(start, visited, p, input, nodes, emitted, offset, first, nodes', emitted', offset');
    AccountedOneMore(start, updated, system, nodes, updated1, deleted1, p, input, newTasks, offset, nodes', updated2,
                     deleted2, offset');
    AccountedKeys(start, nodes, system + updated1, input.Mark());
    EntriesOneMore(start, updated, deleted, visited, p, updated1, deleted1,
                   NeedsCleanup(nodes[p], input.active, input.Validator(p)) && Key(nodes, p) !in updated1);
  }

  lemma ClosedTasks(nodes: Nodes, updated: map<string, Path>, deleted: set<string>, p: Path, input: CloseInput,
                    offset: int, nodes': Nodes, updated': map<string, Path>, deleted': set<string>, offset': int)
    requires p in nodes && nodes[p].IsComponent()
    requires ComponentClosed(nodes, updated, deleted, p, input, offset, nodes', updated', deleted', offset')
    ensures nodes'[p].IsComponent() && TasksOf(nodes'[p]) == Emitted(Logical(TasksOf(nodes[p]), p, input, offset).0)
  {
  }

  method VisitComponent(t: Tree, backend: Backend, p: Path, input: CloseInput, newTasks: map<nat, seq<NewTask>>,
                        offset: int, first: Option<Path>, ghost start: Nodes, ghost updated: map<string, Path>,
                        ghost system: map<string, Path>, ghost deleted: set<string>, ghost visited: seq<Path>,
                        ghost log: seq<Emission>, ghost emitted: seq<Emission>)
    returns (ok: bool, offset': int, first': Option<Path>, ghost emitted': seq<Emission>)
    requires t.Valid() && TraversalInput(start, updated, system, input, newTasks)
    requires TraversalState(start, updated, system, deleted, visited, input, t.nodes, t.updatedNodes, t.deletedNodes,
                            emitted, offset, first)
    requires backend.emitted == log + emitted
    requires p in start && start[p].IsComponent() && p !in visited
    modifies t`nodes, t`updatedNodes, t`deletedNodes, t`taskValueCache, backend`emitted
    ensures Acceptable(TasksOf(start[p]), p, input) && Encodable(start, p) ==> ok
    ensures ok ==> t.Valid() && backend.emitted == log + emitted'
    ensures ok ==>
            TraversalState(start, updated, system, deleted, visited + [p], input, t.nodes, t.updatedNodes,
                           t.deletedNodes, emitted', offset', first')
  {
    ghost var nodes, updated1, deleted1 := t.nodes, t.updatedNodes, t.deletedNodes;
    AccountedKeys(start, nodes, system + updated1, input.Mark());
    NewsUnaffected(start, updated, deleted, visited, p, input, newTasks, nodes, updated1, deleted1);
    first', emitted' := first, emitted;
    ok, offset' := CloseComponent(t, backend, p, input, newTasks, offset);
    if !ok {
      return;
    }
    ghost var side := Logical(TasksOf(nodes[p]), p, input, offset).0.side;
    emitted' := emitted + EmissionsOf(p, Reverse(side[CreatedUpTo(side)..]));
    AppendAssociative(log, emitted, EmissionsOf(p, Reverse(side[CreatedUpTo(side)..])));
    TraversalOneMore(start, updated, system, deleted, visited, p, input, newTasks, nodes, updated1, deleted1, emitted,
                     offset, first, t.nodes, t.updatedNodes, t.deletedNodes, emitted', offset');
    first' := FirstPureTask(t, p, first);
  }

  /** The comparison with the first pure task found so far. */
  method FirstPureTask(t: Tree, p: Path, first: Option<Path>) returns (first': Option<Path>)
    requires p in t.nodes && t.nodes[p].IsComponent()
    ensures first' == if Earlier(CompsOf(t.nodes), p, first) then Some(p) else first
  {
    first' := first;
    var pure := TasksOf(t.nodes[p]).pure;
    if |pure| == 0 {
      return;
    }
    if first.None? || first.value !in t.nodes || !t.nodes[first.value].IsComponent() ||
       TasksOf(t.nodes[first.value]).pure == [] ||
       ComparePureTasks(pure[0], TasksOf(t.nodes[first.value]).pure[0]) < 0 {
      first' := Some(p);
    }
  }

  // ----- The physical pure task

  ghost predicate FirstValid(nodes: Nodes, first: Option<Path>) {
    first.Some? ==> first.value in nodes && nodes[first.value].IsComponent() && TasksOf(nodes[first.value]).pure != []
  }

  function MarkFirstPure(n: Node): Node
    requires n.IsComponent() && TasksOf(n).pure != []
  {
    var lists := TasksOf(n);
    WithTasks(n, lists.(pure := lists.pure[0 := MarkCreated(lists.pure[0])]))
  }

  method GeneratePhysicalPureTask(t: Tree, backend: Backend, first: Option<Path>, chooses: Time -> bool)
    returns (ok: bool, dropped: set<Time>)
    requires t.Valid() && FirstValid(t.nodes, first)
    modifies t`nodes, t`systemUpdatedNodes, backend`timers
    ensures (first.Some? ==> Encodable(old(t.nodes), first.value)) ==> ok
    ensures ok ==> t.Valid()
    ensures first.None? ==> ok && t.nodes == old(t.nodes) && t.systemUpdatedNodes == old(t.systemUpdatedNodes) &&
                            backend.timers == old(backend.timers) - dropped
    ensures ok && first.Some? ==>
      var task := TasksOf(old(t.nodes)[first.value]).pure[0];
      && (forall time | time in dropped :: time < task.AsTime())
      && if task.status == Created then
           t.nodes == old(t.nodes) && t.systemUpdatedNodes == old(t.systemUpdatedNodes) &&
             backend.timers == old(backend.timers) - dropped
         else
           && t.nodes.Keys == old(t.nodes).Keys
           && (forall q | q in t.nodes && q != first.value :: t.nodes[q] == old(t.nodes)[q])
           && SameButCache(MarkFirstPure(old(t.nodes)[first.value]), t.nodes[first.value],
                           Key(old(t.nodes), first.value))
           && t.systemUpdatedNodes == old(t.systemUpdatedNodes)[Key(old(t.nodes), first.value) := first.value]
           && backend.timers == old(backend.timers) - dropped + {task.AsTime()}
  {
    ok := true;
    if first.None? {
      dropped := backend.DeletePureTasks(None, chooses);
      return;
    }
    var p := first.value;
    var task := TasksOf(t.nodes[p]).pure[0];
    dropped := backend.DeletePureTasks(Some(task.AsTime()), chooses);
    if task.status == Created {
      return;
    }
    backend.AddPureTask(task.AsTime());
    ReplaceRecord(t, p, MarkFirstPure(t.nodes[p]));
    var r := t.GetEncodedPath(p);
    ok := r.Ok?;
    if ok {
      t.systemUpdatedNodes := t.systemUpdatedNodes[r.value := p];
    }
  }

  // ----- closeTransactionUpdateComponentTasks

  method VisitAll(t: Tree, backend: Backend, input: CloseInput, newTasks: map<nat, seq<NewTask>>)
    returns (ok: bool, first: Option<Path>, ghost visited: seq<Path>, ghost offset': int, ghost emitted: seq<Emission>)
    requires t.Valid() && TraversalInput(t.nodes, t.updatedNodes, t.systemUpdatedNodes, input, newTasks)
    modifies t`nodes, t`updatedNodes, t`deletedNodes, t`taskValueCache, backend`emitted
    ensures AllAcceptable(old(t.nodes), input) ==> ok
    ensures ok ==> t.Valid() && backend.emitted == old(backend.emitted) + emitted
    ensures ok ==> Enumerates(visited, CompsOf(old(t.nodes)).Keys)
    ensures ok ==>
            TraversalState(old(t.nodes), old(t.updatedNodes), t.systemUpdatedNodes, old(t.deletedNodes), visited, input,
                           t.nodes, t.updatedNodes, t.deletedNodes, emitted, offset', first)
  {
    ghost var start, updated, deleted, log := t.nodes, t.updatedNodes, t.deletedNodes, backend.emitted;
    var order := WholePreOrder(t);
    ok, first, visited, emitted := true, None, [], [];
    var offset := 1;
    offset' := offset;
    TraversalStarts(start, updated, t.systemUpdatedNodes, deleted, input, order);
    for i := 0 to |order|
      invariant t.Valid() && backend.emitted == log + emitted && offset' == offset
      invariant t.nodes.Keys == start.Keys &&
                forall q | q in start :: t.nodes[q].IsComponent() == start[q].IsComponent()
      invariant ComponentsAmong(start, order[..i], visited)
      invariant TraversalState(start, updated, t.systemUpdatedNodes, deleted, visited, input, t.nodes, t.updatedNodes,
                               t.deletedNodes, emitted, offset, first)
    {
      var p := order[i];
      ComponentsAmongOneMore(start, order, i, visited);
      if !t.nodes[p].IsComponent() {
        continue;
      }
      ok, offset, first, emitted :=
        VisitComponent(t, backend, p, input, newTasks, offset, first, start, updated, t.systemUpdatedNodes, deleted,
                       visited, log, emitted);
      if !ok {
        return;
      }
      offset' := offset;
      visited := visited + [p];
    }
    AllVisited(start, order, visited);
  }

  lemma TraversalStarts(start: Nodes, updated: map<string, Path>, system: map<string, Path>, deleted: set<string>,
                        input: CloseInput, order: seq<Path>)
    ensures TraversalState(start, updated, system, deleted, [], input, start, updated, deleted, [], 1, None)
    ensures ComponentsAmong(start, order[..0], [])
  {
  }

  lemma AllVisited(start: Nodes, order: seq<Path>, visited: seq<Path>)
    requires Enumerates(order, start.Keys) && ComponentsAmong(start, order[..|order|], visited)
    ensures Enumerates(visited, CompsOf(start).Keys)
  {
    assert order[..|order|] == order;
  }

  /** `visited` lists the components among `paths`. */
  ghost predicate ComponentsAmong(nodes: Nodes, paths: seq<Path>, visited: seq<Path>) {
    && NoRepeats(visited)
    && forall p :: p in visited <==> p in paths && p in nodes && nodes[p].IsComponent()
  }

  lemma ComponentsAmongOneMore(nodes: Nodes, order: seq<Path>, i: nat, visited: seq<Path>)
    requires i < |order| && NoRepeats(order) && ComponentsAmong(nodes, order[..i], visited) && order[i] in nodes
    ensures order[i] !in visited
    ensures ComponentsAmong(nodes, order[..i + 1], if nodes[order[i]].IsComponent() then visited +
                            [order[i]] else visited)
  {
    assert order[..i + 1] == order[..i] + [order[i]];
    assert order[i] !in order[..i];
  }

  lemma {:induction false} FirstStaysValid(comps: Components, order: seq<Path>, input: CloseInput)
    requires NoRepeats(order) && forall p | p in order :: p in comps
    ensures var pr := CloseAll(comps, order, input);
            pr.first.Some? ==> pr.first.value in order && pr.comps[pr.first.value].pure != []
  {
    if order == [] {
    } else {
      NoRepeatsInit(order);
      FirstStaysValid(comps, order[..|order| - 1], input);
    }
  }

  /** What GeneratePhysicalPureTask leaves is what the runs say of the timers. */
  lemma TimersMatch(pr: Progress, nodes: Nodes, timers: set<Time>, dropped: set<Time>, nodes': Nodes,
                    timers': set<Time>)
    requires CompsOf(nodes) == pr.comps && FirstValid(nodes, pr.first) && nodes'.Keys == nodes.Keys
    requires pr.first.None? ==> nodes' == nodes && timers' == timers - dropped
    requires pr.first.Some? ==>
      var task := TasksOf(nodes[pr.first.value]).pure[0];
      if task.status == Created then nodes' == nodes && timers' == timers - dropped
      else
        && (forall q | q in nodes && q != pr.first.value :: nodes'[q] == nodes[q])
        && SameButCache(MarkFirstPure(nodes[pr.first.value]), nodes'[pr.first.value], Key(nodes, pr.first.value))
        && timers' == timers - dropped + {task.AsTime()}
    ensures (CompsOf(nodes'), timers') == WithFirstTimer(pr, timers, dropped)
  {
    if pr.first.Some? && TasksOf(nodes[pr.first.value]).pure[0].status != Created {
      CompsAfter(nodes, pr.first.value, nodes');
    }
  }

  /** The cluster that a tree and its backend make up, when `last` is the latest version. */
  ghost function ClusterOf(nodes: Nodes, timers: set<Time>, emitted: seq<Emission>,
                           last: VersionedTransition): Cluster {
    Cluster(CompsOf(nodes), timers, emitted, last)
  }

  /** The step of the cluster that the task phase makes. */
  ghost predicate CloseStep(before: Cluster, visited: seq<Path>, input: CloseInput, dropped: set<Time>,
                            after: Cluster) {
    Enabled(before, Close(visited, input, dropped)) && after == Exec(before, Close(visited, input, dropped))
  }

  /** What the task phase does to the nodes and to the mutation: every record that it changes
      is in the mutation. */
  ghost predicate MutationCovers(start: Nodes, updated: map<string, Path>, deleted: set<string>,
                                 system: map<string, Path>, visited: seq<Path>, nodes: Nodes,
                                 updated': map<string, Path>, deleted': set<string>, system': map<string, Path>,
                                 stamp: Stamp)
  {
    && EntriesAdded(start, updated, deleted, visited, updated', deleted')
    && Accounted(start, nodes, system + updated' + system', stamp)
    && SystemEntries(start, system, system')
  }

  /** What the traversal of all components leaves for the rest of the close. */
  ghost predicate TraversalDone(start: Nodes, updated: map<string, Path>, system: map<string, Path>,
                                deleted: set<string>, visited: seq<Path>, input: CloseInput, pr: Progress, nodes: Nodes,
                                updated': map<string, Path>, deleted': set<string>)
  {
    && Enumerates(visited, CompsOf(start).Keys) && pr == CloseAll(CompsOf(start), visited, input)
    && CompsOf(nodes) == pr.comps && FirstValid(nodes, pr.first)
    && Accounted(start, nodes, system + updated', input.Mark()) &&
       EntriesAdded(start, updated, deleted, visited, updated', deleted')
    && forall p | p in visited :: p in CompsOf(start) && Acceptable(CompsOf(start)[p], p, input)
  }

  method VisitComponents(t: Tree, backend: Backend, input: CloseInput, newTasks: map<nat, seq<NewTask>>)
    returns (ok: bool, first: Option<Path>, ghost visited: seq<Path>, ghost pr: Progress)
    requires t.Valid() && TraversalInput(t.nodes, t.updatedNodes, t.systemUpdatedNodes, input, newTasks)
    modifies t`nodes, t`updatedNodes, t`deletedNodes, t`taskValueCache, backend`emitted
    ensures ok ==> AllAnswer(old(t.nodes), input.active, input.next, input.validators, newTasks)
    ensures AllAnswer(old(t.nodes), input.active, input.next, input.validators, newTasks) &&
            ComponentsEncodable(old(t.nodes)) ==>
              ok
    ensures ok ==> t.Valid() && first == pr.first && backend.emitted == old(backend.emitted) + pr.emitted
    ensures ok ==>
            TraversalDone(old(t.nodes), old(t.updatedNodes), t.systemUpdatedNodes, old(t.deletedNodes), visited, input,
                          pr, t.nodes, t.updatedNodes, t.deletedNodes)
  {
    ghost var start, updated, deleted := t.nodes, t.updatedNodes, t.deletedNodes;
    pr := Progress(map[], 0, [], None);
    ghost var offset, emitted;
    AnswersAreAcceptable(start, updated, t.systemUpdatedNodes, input, newTasks);
    ok, first, visited, offset, emitted := VisitAll(t, backend, input, newTasks);
    if ok {
      pr := CloseAll(CompsOf(start), visited, input);
      AfterTraversal(start, updated, t.systemUpdatedNodes, deleted, visited, input, t.nodes, t.updatedNodes,
                     t.deletedNodes, emitted, offset, first);
      VisitedAnswer(start, updated, t.systemUpdatedNodes, deleted, visited, input, newTasks, pr, t.nodes,
                    t.updatedNodes, t.deletedNodes);
    }
  }

  lemma CloseStepUpdates(start: Nodes, updated: map<string, Path>, system: map<string, Path>, input: CloseInput,
                         newTasks: map<nat, seq<NewTask>>, before: Cluster, visited: seq<Path>, dropped: set<Time>,
                         nodes: Nodes, after: Cluster)
    requires TraversalInput(start, updated, system, input, newTasks)
    requires CloseStep(before, visited, input, dropped, after)
    requires before.comps == CompsOf(start) && after.comps == CompsOf(nodes)
    ensures TasksUpdated(start, nodes, input.active, input.next, input.validators, newTasks)
  {
    forall p | p in start && start[p].IsComponent()
      ensures p in nodes && nodes[p].IsComponent()
      ensures Updated(p, TasksOf(start[p]), TasksOf(nodes[p]), input.active, input.validators,
                      AddedTo(p, start[p], input.active, input.next, input.validators, newTasks), input.next)
    {
      assert NewsMatchAt(start, updated, input, newTasks, p);
      NewsAreAdded(start, updated, p, input, newTasks);
      CloseUpdates(before, Close(visited, input, dropped), p);
      assert p in CompsOf(nodes);
    }
  }

  /** Closing the tasks of the tree is a close step of the cluster. */
  method UpdateComponentTasks(t: Tree, backend: Backend, input: CloseInput, newTasks: map<nat, seq<NewTask>>,
                              chooses: Time -> bool, ghost last: VersionedTransition)
    returns (ok: bool, ghost visited: seq<Path>, ghost dropped: set<Time>)
    requires t.Valid() && TraversalInput(t.nodes, t.updatedNodes, t.systemUpdatedNodes, input, newTasks) &&
             CompareVT(last, input.next) < 0
    modifies t`nodes, t`updatedNodes, t`deletedNodes, t`systemUpdatedNodes, t`taskValueCache, backend
    ensures ok ==> t.Valid()
    ensures ok ==>
            CloseStep(ClusterOf(old(t.nodes), old(backend.timers), old(backend.emitted), last), visited, input, dropped,
                      ClusterOf(t.nodes, backend.timers, backend.emitted, input.next))
    ensures ok ==>
            MutationCovers(old(t.nodes), old(t.updatedNodes), old(t.deletedNodes), old(t.systemUpdatedNodes), visited,
                           t.nodes, t.updatedNodes, t.deletedNodes, t.systemUpdatedNodes, input.Mark())
    ensures ok ==> TasksUpdated(old(t.nodes), t.nodes, input.active, input.next, input.validators, newTasks)
    ensures ok ==> AllAnswer(old(t.nodes), input.active, input.next, input.validators, newTasks)
    ensures AllAnswer(old(t.nodes), input.active, input.next, input.validators, newTasks) &&
            ComponentsEncodable(old(t.nodes)) ==>
              ok
  {
    dropped := {};
    ghost var start, timers, log := t.nodes, backend.timers, backend.emitted;
    ghost var updated, deleted, system := t.updatedNodes, t.deletedNodes, t.systemUpdatedNodes;
    var first;
    ghost var pr;
    ok, first, visited, pr := VisitComponents(t, backend, input, newTasks);
    if !ok {
      return;
    }
    ghost var mid := t.nodes;
    ok, dropped := FinishTasks(t, backend, first, chooses, start, pr, input.Mark());
    if ok {
      TaskPhase(start, updated, deleted, system, visited, input, pr, timers, dropped, log, last, mid,
                t.nodes, t.updatedNodes, t.deletedNodes, t.systemUpdatedNodes, backend.timers);
      CloseStepUpdates(start, updated, system, input, newTasks, ClusterOf(start, timers, log, last), visited, dropped,
                       t.nodes, ClusterOf(t.nodes, backend.timers, backend.emitted, input.next));
    }
  }

  lemma AfterTraversal(start: Nodes, updated: map<string, Path>, system: map<string, Path>, deleted: set<string>,
                       visited: seq<Path>, input: CloseInput, nodes: Nodes, updated': map<string, Path>,
                       deleted': set<string>, emitted: seq<Emission>, offset: int, first: Option<Path>)
    requires TraversalState(start, updated, system, deleted, visited, input, nodes, updated', deleted', emitted,
                            offset, first)
    requires Enumerates(visited, CompsOf(start).Keys)
    ensures var pr := CloseAll(CompsOf(start), visited, input);
            first == pr.first && CompsOf(nodes) == pr.comps && emitted == pr.emitted && FirstValid(nodes, first)
    ensures TraversalDone(start, updated, system, deleted, visited, input, CloseAll(CompsOf(start), visited, input),
                          nodes, updated', deleted')
  {
    FirstStaysValid(CompsOf(start), visited, input);
  }

  /** What is done after the traversal. */
  ghost predicate TasksFinished(start: Nodes, updated: map<string, Path>, system: map<string, Path>, pr: Progress,
                                timers: set<Time>, dropped: set<Time>, nodes: Nodes, system': map<string, Path>,
                                timers': set<Time>, stamp: Stamp)
  {
    && (CompsOf(nodes), timers') == WithFirstTimer(pr, timers, dropped)
    && (forall time | time in dropped :: MayDrop(pr, time))
    && Accounted(start, nodes, system + updated + system', stamp)
    && SystemEntries(start, system, system')
  }

  lemma TaskPhase(start: Nodes, updated: map<string, Path>, deleted: set<string>, system: map<string, Path>,
                  visited: seq<Path>, input: CloseInput, pr: Progress, timers: set<Time>, dropped: set<Time>,
                  log: seq<Emission>, last: VersionedTransition, mid: Nodes, nodes: Nodes, updated': map<string, Path>,
                  deleted': set<string>, system': map<string, Path>, timers': set<Time>)
    requires TraversalDone(start, updated, system, deleted, visited, input, pr, mid, updated', deleted')
    requires TasksFinished(start, updated', system, pr, timers, dropped, nodes, system', timers', input.Mark())
    requires CompareVT(last, input.next) < 0
    ensures CloseStep(ClusterOf(start, timers, log, last), visited, input, dropped,
                      ClusterOf(nodes, timers', log + pr.emitted, input.next))
    ensures MutationCovers(start, updated, deleted, system, visited, nodes, updated', deleted', system', input.Mark())
  {
    IsCloseStep(start, timers, log, last, visited, input, dropped, nodes, timers', log + pr.emitted);
  }

  /** The end of closeTransactionUpdateComponentTasks, when all components have been visited. */
  method FinishTasks(t: Tree, backend: Backend, first: Option<Path>, chooses: Time -> bool, ghost start: Nodes,
                     ghost pr: Progress, ghost stamp: Stamp)
    returns (ok: bool, ghost dropped: set<Time>)
    requires t.Valid() && FirstValid(t.nodes, first) && first == pr.first && CompsOf(t.nodes) == pr.comps
    requires Accounted(start, t.nodes, t.systemUpdatedNodes + t.updatedNodes, stamp)
    modifies t`nodes, t`systemUpdatedNodes, backend`timers
    ensures ComponentsEncodable(start) ==> ok
    ensures ok ==> t.Valid()
    ensures ok ==> TasksFinished(start, t.updatedNodes, old(t.systemUpdatedNodes), pr, old(backend.timers), dropped,
                                 t.nodes, t.systemUpdatedNodes, backend.timers, stamp)
  {
    ghost var mid, timers, system := t.nodes, backend.timers, t.systemUpdatedNodes;
    var removed;
    ok, removed := GeneratePhysicalPureTask(t, backend, first, chooses);
    dropped := removed;
    if ok {
      TimersMatch(pr, mid, timers, dropped, t.nodes, backend.timers);
      MarkAccounted(start, mid, t.updatedNodes, system, t.systemUpdatedNodes, first, t.nodes, stamp);
    }
  }

  lemma IsCloseStep(start: Nodes, timers: set<Time>, log: seq<Emission>, last: VersionedTransition, visited: seq<Path>,
                    input: CloseInput, dropped: set<Time>, nodes: Nodes, timers': set<Time>, log': seq<Emission>)
    requires CompareVT(last, input.next) < 0 && Enumerates(visited, CompsOf(start).Keys)
    requires forall p | p in visited :: Acceptable(CompsOf(start)[p], p, input)
    requires var pr := CloseAll(CompsOf(start), visited, input);
             && (CompsOf(nodes), timers') == WithFirstTimer(pr, timers, dropped)
             && log' == log + pr.emitted
             && forall time | time in dropped :: MayDrop(pr, time)
    ensures CloseStep(ClusterOf(start, timers, log, last), visited, input, dropped,
                      ClusterOf(nodes, timers', log', input.next))
  {
  }

  /** Entries of the system mutation stand for nodes, under their keys. */
  ghost predicate SystemEntries(start: Nodes, system: map<string, Path>, system': map<string, Path>) {
    && (forall k | k in system :: k in system')
    && forall k | k in system' :: (k in system && system'[k] == system[k]) ||
         (system'[k] in start && start[system'[k]].IsComponent() && Key(start, system'[k]) == k)
  }

  lemma MarkAccounted(start: Nodes, mid: Nodes, updated: map<string, Path>, system: map<string, Path>,
                      system': map<string, Path>, first: Option<Path>, nodes: Nodes, stamp: Stamp)
    requires Accounted(start, mid, system + updated, stamp) && FirstValid(mid, first)
    requires first.None? ==> nodes == mid && system' == system
    requires first.Some? ==>
      if TasksOf(mid[first.value]).pure[0].status == Created then nodes == mid && system' == system
      else
        && nodes.Keys == mid.Keys
        && (forall q | q in mid && q != first.value :: nodes[q] == mid[q])
        && SameButCache(MarkFirstPure(mid[first.value]), nodes[first.value], Key(mid, first.value))
        && system' == system[Key(mid, first.value) := first.value]
    ensures Accounted(start, nodes, system + updated + system', stamp)
    ensures SystemEntries(start, system, system')
  {
    AccountedKeys(start, mid, system + updated, stamp);
    if first.Some? {
      MarkFirstStrips(mid[first.value]);
    }
  }
}
