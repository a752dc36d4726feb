/** RefreshTasks and the close that follows it (chasm/tree.go): all physical tasks are generated
    again, each once, and what has changed is persisted. */
module Regeneration {
  import opened Basics
  import opened PathEncoder
  import opened Tasks
  import opened ChasmTree
  import opened Sync
  import opened Transaction
  import opened CloseTasks
  import opened CloseTree
  import opened Runs
  import opened Persistence
  import opened Steps
  import opened Closability
  import opened Execution
  import opened Settled
  import opened Refresh

  /** A refreshed node is in the system mutation, or persisted as it is. */
  lemma RefreshedNodeWritten(start: Nodes, image: Records, nodes: Nodes, system: map<string, Path>, q: Path)
    requires FullImage(start, image) && (forall r | r in start :: Clean(start[r]) && Decoded(Key(start, r)) == Ok(r))
    requires RefreshedSoFar(start, start.Keys, nodes) && EntriesSoFar(start, start.Keys, map[], system) && q in nodes
    ensures WrittenAt(nodes, system, {}, image, q)
  {
    RefreshedKeys(start, start.Keys, nodes);
    assert RefreshedNode(start[q], nodes[q], Key(start, q));
    if Key(start, q) in system {
      assert Decoded(Key(start, system[Key(start, q)])) == Ok(system[Key(start, q)]);
    }
  }

  lemma RefreshedNodeSettled(start: Nodes, last: VersionedTransition, nodes: Nodes, system: map<string, Path>,
                             next: VersionedTransition, q: Path)
    requires Quiet(start, last) && CompareVT(last, next) < 0
    requires RefreshedSoFar(start, start.Keys, nodes) && EntriesSoFar(start, start.Keys, map[], system)
    ensures WrittenOrQuietAt(nodes, map[], system, next, q)
    ensures q in nodes && nodes[q].serialized.Some? ==> CompareVT(nodes[q].serialized.value.lastUpdate, next) <= 0
  {
    RefreshedKeys(start, start.Keys, nodes);
    if q in nodes {
      assert RefreshedNode(start[q], nodes[q], Key(start, q));
      assert start[q].serialized.Some? ==> QuietNode(start[q], last);
      CompareReflexive(next);
      if start[q].IsComponent() && !HasPhysicalTask(start[q]) {
        NothingToReset(TasksOf(start[q]));
      }
    }
  }

  lemma NothingToReset(lists: TaskLists)
    requires ResetLists(lists) == lists
    ensures forall t | t in lists.side :: t.status == NotCreated
  {
    forall t | t in lists.side
      ensures t.status == NotCreated
    {
      var i :| 0 <= i < |lists.side| && lists.side[i] == t;
      assert Reset(lists.side)[i] == lists.side[i];
    }
  }

  lemma RefreshSettles(start: Nodes, image: Records, last: VersionedTransition, nodes: Nodes, system: map<string, Path>,
                       next: VersionedTransition)
    requires FullImage(start, image) && (forall r | r in start :: Clean(start[r]) && Decoded(Key(start, r)) == Ok(r))
    requires Quiet(start, last) && CompareVT(last, next) < 0
    requires RefreshedSoFar(start, start.Keys, nodes) && EntriesSoFar(start, start.Keys, map[], system)
    ensures Settling(nodes, map[], system, {}, image, next)
    ensures forall home | AllAtHome(start, home) :: AllAtHome(nodes, home)
  {
    RefreshedKeys(start, start.Keys, nodes);
    assert map[] + system == system;
    forall q | q in nodes
      ensures WrittenAt(nodes, system, {}, image, q)
      ensures nodes[q].value == start[q].value
      ensures nodes[q].encodedPath.Some? ==> Decoded(nodes[q].encodedPath.value) == Ok(q)
    {
      RefreshedNodeWritten(start, image, nodes, system, q);
      assert RefreshedNode(start[q], nodes[q], Key(start, q));
    }
    forall q
      ensures WrittenOrQuietAt(nodes, map[], system, next, q)
      ensures q in nodes && nodes[q].serialized.Some? ==> CompareVT(nodes[q].serialized.value.lastUpdate, next) <= 0
    {
      RefreshedNodeSettled(start, last, nodes, system, next, q);
    }
    RefreshWrites(start, image, nodes, system);
  }

  lemma RefreshWrites(start: Nodes, image: Records, nodes: Nodes, system: map<string, Path>)
    requires FullImage(start, image) && (forall r | r in start :: Decoded(Key(start, r)) == Ok(r))
    requires RefreshedSoFar(start, start.Keys, nodes) && EntriesSoFar(start, start.Keys, map[], system)
    requires forall q | q in nodes :: WrittenAt(nodes, system, {}, image, q)
    ensures Written(nodes, system, {}, image)
  {
    RefreshedKeys(start, start.Keys, nodes);
    forall k | k in image
      ensures KeyOfNode(nodes, k)
    {
      assert KeyOfNode(start, k);
    }
  }

  lemma RefreshedEncodable(start: Nodes, nodes: Nodes)
    requires RefreshedSoFar(start, start.Keys, nodes)
    ensures NodesEncodable(start) ==> NodesEncodable(nodes)
  {
    forall q | q in nodes
      ensures Encodable(start, q) ==> Encodable(nodes, q)
    {
      assert RefreshedNode(start[q], nodes[q], Key(start, q));
    }
  }

  /** The first half: the tasks lose their physical tasks. */
  method RefreshAtRest(t: Tree, backend: Backend, ghost next: VersionedTransition, ghost image: Records,
                       ghost last: VersionedTransition)
    returns (ok: bool)
    requires Resting(t, backend, image, last) && CompareVT(last, next) < 0
    modifies t`nodes, t`systemUpdatedNodes, backend`emitted
    ensures NodesEncodable(old(t.nodes)) ==> ok && NodesEncodable(t.nodes)
    ensures ok ==> t.Valid() && backend.emitted == [] && t.nodes.Keys == old(t.nodes).Keys
    ensures ok ==> Settling(t.nodes, map[], t.systemUpdatedNodes, {}, image, next)
    ensures ok ==> forall home | AllAtHome(old(t.nodes), home) :: AllAtHome(t.nodes, home)
    ensures ok ==> Inv(ClusterOf(t.nodes, backend.timers, backend.emitted, last)) &&
                   ClusterOf(t.nodes, backend.timers, backend.emitted, last) ==
                   Exec(ClusterOf(old(t.nodes), backend.timers, old(backend.emitted), last), Event.RefreshTasks)
  {
    ghost var start := t.nodes;
    ghost var cluster := ClusterOf(start, backend.timers, backend.emitted, last);
    forall q | q in start
      ensures Decoded(Key(start, q)) == Ok(q)
    {
      assert NodePersisted(start, {}, image, q);
    }
    ok := Refresh.RefreshTasks(t);
    backend.StartAgain();
    if ok {
      RefreshSettles(start, image, last, t.nodes, t.systemUpdatedNodes, next);
      RefreshIsStep(start, t.nodes, cluster);
      RefreshedEncodable(start, t.nodes);
      RefreshKeepsInv(cluster, Event.RefreshTasks);
    }
  }

  /** RefreshTasks and CloseTransaction on a tree at rest: it is at rest again, all records it
      has changed are persisted, and every side-effect task has been emitted exactly once since. */
  method RefreshAndClose(t: Tree, backend: Backend, next: VersionedTransition, codec: Codec, validators: Validators,
                         newTasks: map<nat, seq<NewTask>>, chooses: Time -> bool, ghost records: Records,
                         ghost last: VersionedTransition, ghost home: map<nat, Path>)
    returns (ok: bool, mutation: Mutation, ghost visited: seq<Path>, ghost input: CloseInput, ghost dropped: set<Time>)
    requires AtRest(t, backend, records, last) && AllAtHome(t.nodes, home) && CompareVT(last, next) < 0
    modifies t, backend
    ensures NodesEncodable(old(t.nodes)) && newTasks == map[] ==> ok
    ensures ok ==> AtRest(t, backend, mutation.Apply(records), next) && mutation.updated.Keys !! mutation.deleted
    ensures ok ==> t.nodes.Keys == old(t.nodes).Keys
    ensures ok ==>
            CloseStep(Exec(ClusterOf(old(t.nodes), old(backend.timers), old(backend.emitted), last),
                           Event.RefreshTasks), visited, input, dropped,
                      ClusterOf(t.nodes, backend.timers, backend.emitted, next))
    ensures ok ==> AllEmitted(CompsOf(t.nodes), backend.emitted) && DistinctEmissions(backend.emitted)
  {
    ghost var before, image := t.nodes, Image(t.nodes, records);
    ok, mutation, visited, input, dropped :=
      RefreshOnImage(t, backend, next, codec, validators, newTasks, chooses, image, last, home);
    if ok {
      RootDecodes(before, {}, image);
      RootDecodes(t.nodes, {}, mutation.Apply(image));
      ImageAfterClose(before, records, mutation, t.nodes);
      EmittedAtRest(t.nodes, ClusterOf(t.nodes, backend.timers, backend.emitted, next));
    }
  }

  method RefreshOnImage(t: Tree, backend: Backend, next: VersionedTransition, codec: Codec, validators: Validators,
                        newTasks: map<nat, seq<NewTask>>, chooses: Time -> bool, ghost image: Records,
                        ghost last: VersionedTransition, ghost home: map<nat, Path>)
    returns (ok: bool, mutation: Mutation, ghost visited: seq<Path>, ghost input: CloseInput, ghost dropped: set<Time>)
    requires Resting(t, backend, image, last) && AllAtHome(t.nodes, home) && CompareVT(last, next) < 0
    modifies t, backend
    ensures NodesEncodable(old(t.nodes)) && newTasks == map[] ==> ok
    ensures ok ==> Resting(t, backend, mutation.Apply(image), next) && mutation.updated.Keys !! mutation.deleted
    ensures ok ==> t.nodes.Keys == old(t.nodes).Keys
    ensures ok ==>
            CloseStep(Exec(ClusterOf(old(t.nodes), old(backend.timers), old(backend.emitted), last),
                           Event.RefreshTasks), visited, input, dropped,
                      ClusterOf(t.nodes, backend.timers, backend.emitted, next))
  {
    mutation, visited, dropped, input := Mutation(map[], {}), [], {}, CloseInput(next, false, map[], validators);
    ok := RefreshAtRest(t, backend, next, image, last);
    if ok {
      ghost var synced := ClusterOf(t.nodes, backend.timers, backend.emitted, last);
      ok, mutation, visited, input, dropped :=
        CloseSettled(t, backend, next, codec, validators, newTasks, chooses, image, synced, home);
    }
  }

  /** At rest, every side-effect task has been emitted. */
  lemma EmittedAtRest(nodes: Nodes, s: Cluster)
    requires Inv(s) && s.comps == CompsOf(nodes) && Quiet(nodes, s.last)
    ensures AllEmitted(s.comps, s.log) && DistinctEmissions(s.log)
  {
    forall p, t | p in s.comps && t in s.comps[p].side
      ensures InLog(s.log, t.Key())
    {
      assert QuietNode(nodes[p], s.last);
      assert MarksMatchLog(s.comps[p].side, s.log);
    }
  }
}
