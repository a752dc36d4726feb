/** Whole runs of a cluster: transactions that close, task refreshes and replication, over
    the task lists of all components, the physical timers, and the emitted tasks. */
module Runs {
  import opened Basics
  import opened PathEncoder
  import opened Tasks
  import opened TaskFacts
  import opened CloseTasks

  /** `log` holds the side-effect tasks emitted since the last RefreshTasks. */
  datatype Cluster = Cluster(comps: Components, timers: set<Time>, log: seq<Emission>, last: VersionedTransition)

  // ----- Invariants

  ghost predicate Disjoint(comps: Components) {
    forall p, q | p in comps && q in comps && p != q :: KeysOf(comps[p]) !! KeysOf(comps[q])
  }

  ghost predicate TreeInv(comps: Components) {
    && (forall p | p in comps :: WellFormed(comps[p]))
    && Disjoint(comps)
  }

  ghost predicate KeysBefore(comps: Components, next: VersionedTransition, offset: int) {
    forall p, k | p in comps && k in KeysOf(comps[p]) :: KeyBefore(k, next, offset)
  }

  ghost predicate InLog(log: seq<Emission>, k: TaskKey) {
    exists i | 0 <= i < |log| :: log[i].task.Key() == k
  }

  /** A side-effect task is marked Created exactly if it has been emitted. */
  ghost predicate MarksMatchLog(tasks: seq<Task>, log: seq<Emission>) {
    forall t | t in tasks :: t.status == Created <==> InLog(log, t.Key())
  }

  ghost predicate LogInv(comps: Components, log: seq<Emission>, next: VersionedTransition, offset: int) {
    && DistinctEmissions(log)
    && (forall i | 0 <= i < |log| :: KeyBefore(log[i].task.Key(), next, offset))
    && (forall p | p in comps :: CreatedFirst(comps[p].side) && MarksMatchLog(comps[p].side, log))
  }

  /** Every pure task marked Created has a physical timer at its scheduled time. */
  ghost predicate TimersSafe(comps: Components, timers: set<Time>) {
    forall p, t | p in comps && t in comps[p].pure && t.status == Created :: t.AsTime() in timers
  }

  // ----- One component in a close

  /** The state in the middle of the traversal of a close that started in `start`. */
  ghost predicate Closing(start: Cluster, done: seq<Path>, next: VersionedTransition, pr: Progress) {
    && pr.comps.Keys == start.comps.Keys
    && TreeInv(pr.comps)
    && KeysBefore(pr.comps, next, pr.offset)
    && LogInv(pr.comps, start.log + pr.emitted, next, pr.offset)
    && Visited(start.comps, done, pr.comps)
    && FirstIsLeast(pr, done)
  }

  /** Unvisited components are as before, visited ones have all their side-effect tasks
      emitted, and no pure task has been marked. */
  ghost predicate Visited(start: Components, done: seq<Path>, comps: Components)
    requires comps.Keys == start.Keys
  {
    && (forall p | p in comps && p !in done :: comps[p] == start[p])
    && (forall p | p in comps && p in done :: AllCreated(comps[p].side))
    && (forall p | p in comps :: NoNewlyMarked(start[p].pure, comps[p].pure))
  }

  ghost predicate NoNewlyMarked(before: seq<Task>, after: seq<Task>) {
    forall t | t in after && t.status == Created :: t in before
  }

  /** `first` is the component with the earliest pure task among those visited. */
  ghost predicate FirstIsLeast(pr: Progress, done: seq<Path>) {
    && (pr.first.Some? ==> pr.first.value in pr.comps && pr.first.value in done && pr.comps[pr.first.value].pure != [])
    && (forall p | p in pr.comps && p in done && pr.comps[p].pure != [] ::
          pr.first.Some? && ComparePureTasks(pr.comps[pr.first.value].pure[0], pr.comps[p].pure[0]) <= 0)
  }

  lemma PurePart(lists: TaskLists, p: Path, input: CloseInput, offset: int)
    ensures NoNewlyMarked(lists.pure, Logical(lists, p, input, offset).0.pure)
  {
    var cleaned := if input.active then lists.Cleaned(input.Validator(p)) else lists;
    KeptSubsequence(lists.pure, input.Validator(p));
    AppendedPure(cleaned, input.News(p), input.NewValidator(p), input.next, offset);
    var added := Appended(cleaned, input.News(p), input.NewValidator(p), input.next, offset).0;
    SortFuncMembers(ByPureKey, added.pure);
  }

  lemma {:induction false} AppendedPure(lists: TaskLists, news: seq<NewTask>, validate: NewTask -> Verdict,
                                        next: VersionedTransition, offset: int)
    ensures forall t | t in Appended(lists, news, validate, next, offset).0.pure ::
              t in lists.pure || t.status == NotCreated
  {
    if news == [] {
    } else {
      AppendedPure(lists, news[..|news| - 1], validate, next, offset);
    }
  }

  lemma {:induction false} InsertMembers(order: Order, t: Task, tasks: seq<Task>)
    ensures forall u :: u in Insert(order, t, tasks) <==> u == t || u in tasks
  {
    if tasks != [] && Compare(order, t, tasks[0]) > 0 {
      InsertMembers(order, t, tasks[1..]);
      assert tasks == [tasks[0]] + tasks[1..];
    }
  }

  lemma {:induction false} SortFuncMembers(order: Order, tasks: seq<Task>)
    ensures forall u :: u in SortFunc(order, tasks) <==> u in tasks
  {
    if tasks == [] {
    } else {
      SortFuncMembers(order, tasks[1..]);
      InsertMembers(order, tasks[0], SortFunc(order, tasks[1..]));
      assert tasks == [tasks[0]] + tasks[1..];
    }
  }

  // ----- The traversal keeps the invariant

  lemma ReplaceComponent(comps: Components, p: Path, lists: TaskLists, next: VersionedTransition, offset: int,
                         offset': int)
    requires TreeInv(comps) && KeysBefore(comps, next, offset) && p in comps && offset <= offset'
    requires WellFormed(lists)
    requires forall k | k in KeysOf(lists) :: k in KeysOf(comps[p]) || (k.vt == next && offset <= k.offset < offset')
    ensures TreeInv(comps[p := lists]) && KeysBefore(comps[p := lists], next, offset')
  {
    forall q, k | q in comps && q != p && k in KeysOf(comps[q])
      ensures k !in KeysOf(lists)
    {
      assert KeyBefore(k, next, offset);
      assert KeysOf(comps[p]) !! KeysOf(comps[q]);
    }
    var comps' := comps[p := lists];
    forall q, k | q in comps' && k in KeysOf(comps'[q])
      ensures KeyBefore(k, next, offset')
    {
      assert k in KeysOf(comps[q]) ==> KeyBefore(k, next, offset);
    }
  }

  lemma InLogAppend(log: seq<Emission>, out: seq<Emission>, k: TaskKey)
    ensures InLog(log + out, k) <==> InLog(log, k) || InLog(out, k)
  {
    var both := log + out;
    if InLog(log, k) {
      var i :| 0 <= i < |log| && log[i].task.Key() == k;
      assert both[i].task.Key() == k;
    }
    if InLog(out, k) {
      var i :| 0 <= i < |out| && out[i].task.Key() == k;
      assert both[|log| + i].task.Key() == k;
    }
  }

  /** The tasks emitted for a component have not been emitted before. */
  lemma EmissionsAreNew(log: seq<Emission>, lists: TaskLists, logical: TaskLists, p: Path, next: VersionedTransition,
                        offset: int)
    requires forall i | 0 <= i < |log| :: KeyBefore(log[i].task.Key(), next, offset)
    requires MarksMatchLog(lists.side, log) && CreatedFirst(logical.side) && Sorted(BySideEffectKey, logical.side)
    requires forall t | t in logical.side ::
               t in lists.side || (t.status == NotCreated && t.vt == next && offset <= t.offset)
    requires DistinctEmissions(log)
    ensures DistinctEmissions(log + EmissionsOf(p, Reverse(logical.side[CreatedUpTo(logical.side)..])))
  {
    var out := EmissionsOf(p, Reverse(logical.side[CreatedUpTo(logical.side)..]));
    EmittedFacts(logical, p);
    EmissionsDistinct(logical, p);
    forall i, j | 0 <= i < |log| && 0 <= j < |out|
      ensures log[i].task.Key() != out[j].task.Key()
    {
      assert out[j] in out;
      assert InLog(log, log[i].task.Key());
    }
  }

  /** After emission all tasks of the component are marked, and all are in the log. */
  lemma MarksAfterEmission(log: seq<Emission>, lists: TaskLists, logical: TaskLists, p: Path, next: VersionedTransition,
                           offset: int)
    requires MarksMatchLog(lists.side, log) && CreatedFirst(logical.side)
    requires forall t | t in logical.side ::
               t in lists.side || (t.status == NotCreated && t.vt == next && offset <= t.offset)
    ensures var log' := log + EmissionsOf(p, Reverse(logical.side[CreatedUpTo(logical.side)..]));
            MarksMatchLog(Emitted(logical).side, log') && AllCreated(Emitted(logical).side)
  {
    var out := EmissionsOf(p, Reverse(logical.side[CreatedUpTo(logical.side)..]));
    EmittedFacts(logical, p);
    forall t | t in Emitted(logical).side
      ensures InLog(log + out, t.Key())
    {
      var i :| 0 <= i < |logical.side| && Emitted(logical).side[i] == t;
      var u := logical.side[i];
      InLogAppend(log, out, t.Key());
      if u.status == NotCreated {
        assert Emission(p, u) in out;
        var j :| 0 <= j < |out| && out[j] == Emission(p, u);
        assert InLog(out, t.Key());
      } else {
        assert u in lists.side;
      }
    }
  }

  /** Emissions of one component do not concern the tasks of the others. */
  lemma MarksElsewhere(log: seq<Emission>, tasks: seq<Task>, logical: TaskLists, p: Path)
    requires MarksMatchLog(tasks, log) && CreatedFirst(logical.side)
    requires TaskKeys(tasks) !! KeysOf(logical)
    ensures MarksMatchLog(tasks, log + EmissionsOf(p, Reverse(logical.side[CreatedUpTo(logical.side)..])))
  {
    var out := EmissionsOf(p, Reverse(logical.side[CreatedUpTo(logical.side)..]));
    EmittedFacts(logical, p);
    forall t | t in tasks
      ensures InLog(log + out, t.Key()) <==> InLog(log, t.Key())
    {
      InLogAppend(log, out, t.Key());
      assert t.Key() in TaskKeys(tasks);
      forall j | 0 <= j < |out|
        ensures out[j].task.Key() != t.Key()
      {
        assert out[j] in out && out[j].task.Key() in KeysOf(logical);
      }
    }
  }

  // ----- One step of the traversal

  lemma ClosingStep(start: Cluster, done: seq<Path>, p: Path, input: CloseInput, pr: Progress)
    requires Closing(start, done, input.next, pr) && p in pr.comps && p !in done
    ensures Closing(start, done + [p], input.next, CloseOne(pr, p, input))
  {
    StepTree(p, input, pr);
    StepLog(start, done, p, input, pr);
    StepVisited(start, done, p, input, pr);
    StepFirst(done, p, input, pr);
  }

  lemma StepTree(p: Path, input: CloseInput, pr: Progress)
    requires TreeInv(pr.comps) && KeysBefore(pr.comps, input.next, pr.offset) && p in pr.comps
    ensures var pr' := CloseOne(pr, p, input); TreeInv(pr'.comps) && KeysBefore(pr'.comps, input.next, pr'.offset)
  {
    var (logical, offset) := Logical(pr.comps[p], p, input, pr.offset);
    forall k | k in KeysOf(pr.comps[p])
      ensures KeyBefore(k, input.next, pr.offset)
    {
    }
    LogicalFacts(pr.comps[p], p, input, pr.offset);
    EmittedWellFormed(logical);
    ReplaceComponent(pr.comps, p, Emitted(logical), input.next, pr.offset, offset);
  }

  lemma StepVisited(start: Cluster, done: seq<Path>, p: Path, input: CloseInput, pr: Progress)
    requires pr.comps.Keys == start.comps.Keys && Visited(start.comps, done, pr.comps) && p in pr.comps && p !in done
    requires CreatedFirst(pr.comps[p].side)
    ensures Visited(start.comps, done + [p], CloseOne(pr, p, input).comps)
  {
    var (logical, offset) := Logical(pr.comps[p], p, input, pr.offset);
    LogicalShape(pr.comps[p], p, input, pr.offset);
    EmittedFacts(logical, p);
    PurePart(pr.comps[p], p, input, pr.offset);
  }

  lemma StepLog(start: Cluster, done: seq<Path>, p: Path, input: CloseInput, pr: Progress)
    requires Closing(start, done, input.next, pr) && p in pr.comps
    ensures LogInv(CloseOne(pr, p, input).comps, start.log + CloseOne(pr, p, input).emitted, input.next,
                   CloseOne(pr, p, input).offset)
  {
    var lists := pr.comps[p];
    var (logical, offset) := Logical(lists, p, input, pr.offset);
    var log := start.log + pr.emitted;
    var out := EmissionsOf(p, Reverse(logical.side[CreatedUpTo(logical.side)..]));
    AppendAssociative(start.log, pr.emitted, out);
    assert forall k | k in KeysOf(lists) :: KeyBefore(k, input.next, pr.offset);
    LogicalShape(lists, p, input, pr.offset);
    LogicalFacts(lists, p, input, pr.offset);
    EmissionsAreNew(log, lists, logical, p, input.next, pr.offset);
    MarksAfterEmission(log, lists, logical, p, input.next, pr.offset);
    LogElsewhere(pr, p, input, log);
    LogKeysBefore(log, logical, p, input.next, pr.offset, offset);
    CreatedAreFirst(Emitted(logical).side);
    LogInvOfParts(pr.comps, p, Emitted(logical), log + out, input.next, offset);
  }

  lemma AppendAssociative<T>(a: seq<T>, b: seq<T>, c: seq<T>)
    ensures a + (b + c) == a + b + c
  {
  }

  lemma CreatedAreFirst(tasks: seq<Task>)
    ensures AllCreated(tasks) ==> CreatedFirst(tasks)
  {
  }

  lemma LogInvOfParts(comps: Components, p: Path, lists: TaskLists, log: seq<Emission>, next: VersionedTransition,
                      offset: int)
    requires DistinctEmissions(log) && forall i | 0 <= i < |log| :: KeyBefore(log[i].task.Key(), next, offset)
    requires forall q | q in comps && q != p :: CreatedFirst(comps[q].side) && MarksMatchLog(comps[q].side, log)
    requires CreatedFirst(lists.side) && MarksMatchLog(lists.side, log)
    ensures LogInv(comps[p := lists], log, next, offset)
  {
  }

  lemma LogElsewhere(pr: Progress, p: Path, input: CloseInput, log: seq<Emission>)
    requires TreeInv(pr.comps) && KeysBefore(pr.comps, input.next, pr.offset) && p in pr.comps
    requires forall q | q in pr.comps :: CreatedFirst(pr.comps[q].side) && MarksMatchLog(pr.comps[q].side, log)
    ensures var logical := Logical(pr.comps[p], p, input, pr.offset).0;
            forall q | q in pr.comps && q != p ::
              MarksMatchLog(pr.comps[q].side, log + EmissionsOf(p, Reverse(logical.side[CreatedUpTo(logical.side)..])))
  {
    var logical := Logical(pr.comps[p], p, input, pr.offset).0;
    var comps' := CloseOne(pr, p, input).comps;
    StepTree(p, input, pr);
    LogicalShape(pr.comps[p], p, input, pr.offset);
    assert forall k | k in KeysOf(pr.comps[p]) :: KeyBefore(k, input.next, pr.offset);
    LogicalFacts(pr.comps[p], p, input, pr.offset);
    EmittedWellFormed(logical);
    forall q | q in pr.comps && q != p
      ensures MarksMatchLog(pr.comps[q].side, log + EmissionsOf(p, Reverse(logical.side[CreatedUpTo(logical.side)..])))
    {
      assert KeysOf(comps'[p]) !! KeysOf(comps'[q]);
      MarksElsewhere(log, pr.comps[q].side, logical, p);
    }
  }

  lemma LogKeysBefore(log: seq<Emission>, logical: TaskLists, p: Path, next: VersionedTransition, offset: int,
                      offset': int)
    requires CreatedFirst(logical.side) && offset <= offset'
    requires forall i | 0 <= i < |log| :: KeyBefore(log[i].task.Key(), next, offset)
    requires forall k | k in KeysOf(logical) :: KeyBefore(k, next, offset')
    ensures var log' := log + EmissionsOf(p, Reverse(logical.side[CreatedUpTo(logical.side)..]));
            forall i | 0 <= i < |log'| :: KeyBefore(log'[i].task.Key(), next, offset')
  {
    var out := EmissionsOf(p, Reverse(logical.side[CreatedUpTo(logical.side)..]));
    EmittedFacts(logical, p);
    forall i | 0 <= i < |out|
      ensures KeyBefore(out[i].task.Key(), next, offset')
    {
      assert out[i] in out;
      assert out[i].task.Key() in KeysOf(logical);
    }
  }

  lemma StepFirst(done: seq<Path>, p: Path, input: CloseInput, pr: Progress)
    requires FirstIsLeast(pr, done) && p in pr.comps && p !in done
    ensures FirstIsLeast(CloseOne(pr, p, input), done + [p])
  {
    var pr' := CloseOne(pr, p, input);
    if pr'.comps[p].pure != [] {
      forall q | q in pr.comps && q in done && pr.comps[q].pure != []
        ensures ComparePureTasks(pr'.comps[pr'.first.value].pure[0], pr.comps[q].pure[0]) <= 0
      {
        CompareIsOrder(ByPureKey, pr'.comps[p].pure[0], pr.comps[pr.first.value].pure[0], pr.comps[q].pure[0]);
      }
      CompareIsOrder(ByPureKey, pr'.comps[p].pure[0], pr'.comps[pr'.first.value].pure[0], pr'.comps[p].pure[0]);
      CompareIsOrder(ByPureKey, pr'.comps[p].pure[0], pr'.comps[p].pure[0], pr'.comps[p].pure[0]);
    }
  }

  // ----- A whole close

  /** What holds of a cluster at any time. */
  ghost predicate Inv(s: Cluster) {
    && TreeInv(s.comps)
    && KeysUpTo(s.comps, s.last)
    && LogUpTo(s.log, s.last)
    && DistinctEmissions(s.log)
    && (forall p | p in s.comps :: CreatedFirst(s.comps[p].side) && MarksMatchLog(s.comps[p].side, s.log))
    && TimersSafe(s.comps, s.timers)
  }

  ghost predicate KeysUpTo(comps: Components, last: VersionedTransition) {
    forall p, k | p in comps && k in KeysOf(comps[p]) :: CompareVT(k.vt, last) <= 0
  }

  ghost predicate LogUpTo(log: seq<Emission>, last: VersionedTransition) {
    forall i | 0 <= i < |log| :: CompareVT(log[i].task.vt, last) <= 0
  }

  lemma {:induction false} CloseAllKeeps(start: Cluster, order: seq<Path>, input: CloseInput)
    requires Inv(start) && CompareVT(start.last, input.next) < 0
    requires forall p | p in order :: p in start.comps
    requires NoRepeats(order)
    ensures Closing(start, order, input.next, CloseAll(start.comps, order, input))
  {
    if order == [] {
      ClosingStarts(start, input);
    } else {
      var n := |order| - 1;
      NoRepeatsInit(order);
      CloseAllKeeps(start, order[..n], input);
      ClosingStep(start, order[..n], order[n], input, CloseAll(start.comps, order[..n], input));
    }
  }

  lemma ClosingStarts(start: Cluster, input: CloseInput)
    requires Inv(start) && CompareVT(start.last, input.next) < 0
    ensures Closing(start, [], input.next, Progress(start.comps, 1, [], None))
  {
    assert start.log + [] == start.log;
    forall p, k | p in start.comps && k in KeysOf(start.comps[p])
      ensures KeyBefore(k, input.next, 1)
    {
      assert CompareVT(k.vt, start.last) <= 0;
    }
  }

  /** closeTransactionGeneratePhysicalPureTask; DeleteCHASMPureTasks has removed `dropped`. */
  function WithFirstTimer(pr: Progress, timers: set<Time>, dropped: set<Time>): (Components, set<Time>) {
    if pr.first.None? || pr.first.value !in pr.comps || pr.comps[pr.first.value].pure == [] then
       (pr.comps, timers - dropped)
    else
      var lists := pr.comps[pr.first.value];
      var task := lists.pure[0];
      if task.status == Created then (pr.comps, timers - dropped)
      else (pr.comps[pr.first.value := lists.(pure := lists.pure[0 := MarkCreated(task)])], timers - dropped +
            {task.AsTime()})
  }

  /** The bound that the code passes to DeleteCHASMPureTasks: only timers strictly before it
      are removed, and without a pure task any. */
  predicate MayDrop(pr: Progress, time: Time) {
    pr.first.None? || pr.first.value !in pr.comps || pr.comps[pr.first.value].pure == [] ||
    time < pr.comps[pr.first.value].pure[0].AsTime()
  }

  lemma MarkFirst(lists: TaskLists)
    requires WellFormed(lists) && lists.pure != []
    ensures var marked := lists.(pure := lists.pure[0 := MarkCreated(lists.pure[0])]);
            WellFormed(marked) && KeysOf(marked) == KeysOf(lists)
  {
    var pure := lists.pure[0 := MarkCreated(lists.pure[0])];
    assert forall i | 0 <= i < |pure| ::
             pure[i].Key() == lists.pure[i].Key() && pure[i].AsTime() == lists.pure[i].AsTime();
    forall i, j | 0 <= i < j < |pure|
      ensures Compare(ByPureKey, pure[i], pure[j]) < 0
    {
      assert Compare(ByPureKey, lists.pure[i], lists.pure[j]) < 0;
    }
    SameKeys(lists.pure, pure);
    forall t, u | t in lists.side && u in pure
      ensures t.Key() != u.Key()
    {
      assert u.Key() in TaskKeys(lists.pure);
    }
  }

  lemma SameKeys(a: seq<Task>, b: seq<Task>)
    requires |a| == |b| && forall i | 0 <= i < |a| :: a[i].Key() == b[i].Key()
    ensures TaskKeys(a) == TaskKeys(b)
  {
    forall t | t in a
      ensures t.Key() in TaskKeys(b)
    {
      var i :| 0 <= i < |a| && a[i] == t;
      assert b[i] in b && b[i].Key() == t.Key();
    }
    forall t | t in b
      ensures t.Key() in TaskKeys(a)
    {
      var i :| 0 <= i < |b| && b[i] == t;
      assert a[i] in a && a[i].Key() == t.Key();
    }
  }

  // ----- What a close guarantees

  /** `f` has a pure task at least as early as any in the tree. */
  ghost predicate HasEarliest(comps: Components, f: Path) {
    && f in comps && comps[f].pure != []
    && forall p, t | p in comps && t in comps[p].pure :: ComparePureTasks(comps[f].pure[0], t) <= 0
  }

  ghost predicate EarliestCreated(comps: Components) {
    || (forall p | p in comps :: comps[p].pure == [])
    || exists f :: HasEarliest(comps, f) && comps[f].pure[0].status == Created
  }

  /** The least head of the lists is the least task of all. */
  lemma LeastHeadIsLeast(comps: Components, f: Path, p: Path, t: Task)
    requires forall q | q in comps :: WellFormed(comps[q])
    requires f in comps && comps[f].pure != [] && p in comps && t in comps[p].pure
    requires ComparePureTasks(comps[f].pure[0], comps[p].pure[0]) <= 0
    ensures ComparePureTasks(comps[f].pure[0], t) <= 0
  {
    var i :| 0 <= i < |comps[p].pure| && comps[p].pure[i] == t;
    if i > 0 {
      assert Compare(ByPureKey, comps[p].pure[0], comps[p].pure[i]) < 0;
      CompareIsOrder(ByPureKey, comps[f].pure[0], comps[p].pure[0], t);
    }
  }

  /** After all components have been visited: the first pure task found is the earliest. */
  lemma FirstFound(start: Cluster, order: seq<Path>, next: VersionedTransition, pr: Progress)
    requires Closing(start, order, next, pr) && Enumerates(order, start.comps.Keys)
    ensures if pr.first.Some? then HasEarliest(pr.comps, pr.first.value)
            else forall p | p in pr.comps :: pr.comps[p].pure == []
  {
    if pr.first.Some? {
      forall p, t | p in pr.comps && t in pr.comps[p].pure
        ensures ComparePureTasks(pr.comps[pr.first.value].pure[0], t) <= 0
      {
        assert p in order;
        LeastHeadIsLeast(pr.comps, pr.first.value, p, t);
      }
    }
  }

  lemma TimersAfterClose(start: Cluster, order: seq<Path>, next: VersionedTransition, pr: Progress, dropped: set<Time>)
    requires Closing(start, order, next, pr) && Enumerates(order, start.comps.Keys) &&
             TimersSafe(start.comps, start.timers)
    requires forall time | time in dropped :: MayDrop(pr, time)
    ensures var (comps, timers) := WithFirstTimer(pr, start.timers, dropped);
            TimersSafe(comps, timers) && EarliestCreated(comps) && |timers - start.timers| <= 1
  {
    FirstFound(start, order, next, pr);
    var (comps, timers) := WithFirstTimer(pr, start.timers, dropped);
    if pr.first.Some? {
      var f := pr.first.value;
      var first := pr.comps[f].pure[0];
      forall p, t | p in pr.comps && t in pr.comps[p].pure && t.status == Created
        ensures t.AsTime() in timers
      {
        assert t in start.comps[p].pure;
        assert ComparePureTasks(first, t) <= 0;
      }
      if first.status == Created {
        assert first in pr.comps[f].pure;
        assert pr.comps[f].pure[0 := MarkCreated(first)] == pr.comps[f].pure;
      }
      FirstMarked(pr.comps, f, comps, timers);
      assert timers - start.timers <= {first.AsTime()};
      SubsetOfOne(timers - start.timers, first.AsTime());
    } else {
      assert timers - start.timers == {};
    }
  }

  lemma SubsetOfOne(s: set<Time>, x: Time)
    requires s <= {x}
    ensures |s| <= 1
  {
    assert s == {} || s == {x};
  }

  lemma FirstMarked(comps: Components, f: Path, comps': Components, timers: set<Time>)
    requires HasEarliest(comps, f) && comps[f].pure[0].AsTime() in timers
    requires TimersSafe(comps, timers)
    requires comps' == comps[f := comps[f].(pure := comps[f].pure[0 := MarkCreated(comps[f].pure[0])])]
    ensures TimersSafe(comps', timers) && HasEarliest(comps', f) && comps'[f].pure[0].status == Created
  {
    var first := comps[f].pure[0];
    forall p, t | p in comps' && t in comps'[p].pure
      ensures t in comps[p].pure || t == MarkCreated(first)
      ensures ComparePureTasks(comps'[f].pure[0], t) <= 0
    {
      if t in comps[p].pure {
        assert ComparePureTasks(first, t) <= 0;
      }
    }
  }

  // ----- Events

  /** A step of a cluster.  `Close` visits the components in `order`, and the backend removes
      the timers `dropped`; `Replicate` makes the tree that of another cluster. */
  datatype Event =
    | Close(order: seq<Path>, input: CloseInput, dropped: set<Time>)
    | CreateComponent(path: Path)
    | RemoveComponents(paths: set<Path>)
    | RefreshTasks
    | Replicate(incoming: Components, version: VersionedTransition)

  /** An incoming side-effect list extends a sublist of the local one, and the tasks in it
      that are not known here have not been emitted here. */
  ghost predicate Follows(local: seq<Task>, incoming: seq<Task>, log: seq<Emission>) {
    && ExtendsSublist(BySideEffectKey, local, incoming)
    && forall t | t in incoming :: Matched(BySideEffectKey, local, t) || !InLog(log, t.Key())
  }

  ghost predicate Enabled(s: Cluster, e: Event) {
    match e
    case Close(order, input, dropped) =>
      && CompareVT(s.last, input.next) < 0
      && Enumerates(order, s.comps.Keys)
      && (forall p | p in s.comps :: Acceptable(s.comps[p], p, input))
      && (forall time | time in dropped :: MayDrop(CloseAll(s.comps, order, input), time))
    case CreateComponent(path) => path !in s.comps
    case RemoveComponents(paths) => true
    case RefreshTasks => true
    case Replicate(incoming, version) =>
      && TreeInv(incoming)
      && KeysUpTo(incoming, version)
      && forall p | p in incoming :: Follows(if p in s.comps then s.comps[p].side else [], incoming[p].side, s.log)
  }

  function ResetLists(lists: TaskLists): TaskLists {
    TaskLists(Reset(lists.side), Reset(lists.pure))
  }

  function MergeLists(local: TaskLists, incoming: TaskLists): TaskLists {
    TaskLists(Merge(BySideEffectKey, local.side, incoming.side), Merge(ByPureKey, local.pure, incoming.pure))
  }

  /** The lists after replication: known components keep their statuses, new ones get none. */
  function Replicated(local: Components, incoming: Components): Components {
    map p | p in incoming :: if p in local then MergeLists(local[p], incoming[p]) else ResetLists(incoming[p])
  }

  ghost function Exec(s: Cluster, e: Event): Cluster
    requires Enabled(s, e)
  {
    match e
    case Close(order, input, dropped) =>
      var pr := CloseAll(s.comps, order, input);
      var (comps, timers) := WithFirstTimer(pr, s.timers, dropped);
      Cluster(comps, timers, s.log + pr.emitted, input.next)
    case CreateComponent(path) => s.(comps := s.comps[path := TaskLists([], [])])
    case RemoveComponents(paths) => s.(comps := s.comps - paths)
    case RefreshTasks => s.(comps := map p | p in s.comps :: ResetLists(s.comps[p]), log := [])
    case Replicate(incoming, version) =>
      s.(comps := Replicated(s.comps, incoming),
         last := if CompareVT(s.last, version) < 0 then version else s.last)
  }

  // ----- Every event keeps the invariant

  lemma CloseKeepsInv(s: Cluster, e: Event)
    requires Inv(s) && e.Close? && Enabled(s, e)
    ensures Inv(Exec(s, e))
    ensures EarliestCreated(Exec(s, e).comps) && |Exec(s, e).timers - s.timers| <= 1
    ensures forall p | p in Exec(s, e).comps :: AllCreated(Exec(s, e).comps[p].side)
  {
    var pr := CloseAll(s.comps, e.order, e.input);
    CloseAllKeeps(s, e.order, e.input);
    TimersAfterClose(s, e.order, e.input.next, pr, e.dropped);
    MarkKeepsTree(pr, s.timers, e.dropped, e.input.next);
    LogAfterClose(s.log + pr.emitted, e.input.next, pr.offset);
  }

  lemma LogAfterClose(log: seq<Emission>, next: VersionedTransition, offset: int)
    requires forall i | 0 <= i < |log| :: KeyBefore(log[i].task.Key(), next, offset)
    ensures LogUpTo(log, next)
  {
    forall i | 0 <= i < |log|
      ensures CompareVT(log[i].task.vt, next) <= 0
    {
      assert KeyBefore(log[i].task.Key(), next, offset);
    }
  }

  lemma MarkKeepsTree(pr: Progress, timers: set<Time>, dropped: set<Time>, next: VersionedTransition)
    requires TreeInv(pr.comps) && KeysBefore(pr.comps, next, pr.offset)
    ensures var comps := WithFirstTimer(pr, timers, dropped).0;
            TreeInv(comps) && KeysUpTo(comps, next) && comps.Keys == pr.comps.Keys &&
            forall p | p in comps :: comps[p].side == pr.comps[p].side
  {
    var comps := WithFirstTimer(pr, timers, dropped).0;
    if comps != pr.comps {
      MarkFirst(pr.comps[pr.first.value]);
    }
    SameButMark(pr.comps, comps, next, pr.offset);
  }

  /** Marking a pure task changes neither keys nor side-effect lists. */
  lemma SameButMark(comps: Components, comps': Components, next: VersionedTransition, offset: int)
    requires TreeInv(comps) && KeysBefore(comps, next, offset) && comps'.Keys == comps.Keys
    requires forall p | p in comps ::
               WellFormed(comps'[p]) && KeysOf(comps'[p]) == KeysOf(comps[p]) && comps'[p].side == comps[p].side
    ensures TreeInv(comps') && KeysUpTo(comps', next)
  {
    forall p, k | p in comps' && k in KeysOf(comps'[p])
      ensures CompareVT(k.vt, next) <= 0
    {
      assert KeyBefore(k, next, offset);
    }
  }

  lemma ResetFacts(lists: TaskLists)
    requires WellFormed(lists)
    ensures WellFormed(ResetLists(lists)) && KeysOf(ResetLists(lists)) == KeysOf(lists)
  {
    var side, pure := Reset(lists.side), Reset(lists.pure);
    SameKeys(lists.side, side);
    SameKeys(lists.pure, pure);
    ResetSorted(BySideEffectKey, lists.side);
    ResetSorted(ByPureKey, lists.pure);
    forall t, u | t in side && u in pure
      ensures t.Key() != u.Key()
    {
      assert t.Key() in TaskKeys(lists.side) && u.Key() in TaskKeys(lists.pure);
    }
  }

  lemma ResetSorted(order: Order, tasks: seq<Task>)
    requires Sorted(order, tasks)
    ensures Sorted(order, Reset(tasks))
  {
    var out := Reset(tasks);
    forall i, j | 0 <= i < j < |out|
      ensures Compare(order, out[i], out[j]) < 0
    {
      CompareIgnoresStatus(order, tasks[i], tasks[j]);
      assert Compare(order, tasks[i], tasks[j]) < 0;
    }
  }

  lemma CompareIgnoresStatus(order: Order, a: Task, b: Task)
    ensures Compare(order, a.(status := NotCreated), b.(status := NotCreated)) == Compare(order, a, b)
  {
  }

  lemma MergeFacts(local: TaskLists, incoming: TaskLists)
    requires WellFormed(incoming)
    ensures WellFormed(MergeLists(local, incoming)) && KeysOf(MergeLists(local, incoming)) == KeysOf(incoming)
  {
    var merged := MergeLists(local, incoming);
    MergeSameKeys(BySideEffectKey, local.side, incoming.side);
    MergeSameKeys(ByPureKey, local.pure, incoming.pure);
    MergeSorted(BySideEffectKey, BySideEffectKey, local.side, incoming.side);
    MergeSorted(ByPureKey, ByPureKey, local.pure, incoming.pure);
    forall t, u | t in merged.side && u in merged.pure
      ensures t.Key() != u.Key()
    {
      assert t.Key() in TaskKeys(incoming.side) && u.Key() in TaskKeys(incoming.pure);
    }
  }

  lemma MergeSameKeys(order: Order, source: seq<Task>, target: seq<Task>)
    ensures forall j | 0 <= j < |target| :: Merge(order, source, target)[j].Key() == target[j].Key()
    ensures TaskKeys(Merge(order, source, target)) == TaskKeys(target)
  {
    forall j | 0 <= j < |target|
      ensures Merge(order, source, target)[j].Key() == target[j].Key()
    {
      MergeKeepsTasks(order, source, target, j);
    }
    SameKeys(target, Merge(order, source, target));
  }

  /** After carry-over a side-effect task is marked exactly if it was emitted here. */
  lemma MergeMarks(local: seq<Task>, incoming: seq<Task>, log: seq<Emission>)
    requires Sorted(BySideEffectKey, local) && Sorted(BySideEffectKey, incoming)
    requires CreatedFirst(local) && MarksMatchLog(local, log) && Follows(local, incoming, log)
    ensures CreatedFirst(Merge(BySideEffectKey, local, incoming))
    ensures MarksMatchLog(Merge(BySideEffectKey, local, incoming), log)
  {
    ExtendedSublistKeepsShape(BySideEffectKey, local, incoming);
    var out := Merge(BySideEffectKey, local, incoming);
    forall j | 0 <= j < |out|
      ensures out[j].status == Created <==> InLog(log, out[j].Key())
    {
      MergeKeepsTasks(BySideEffectKey, local, incoming, j);
      if Matched(BySideEffectKey, local, incoming[j]) {
        var i :| 0 <= i < |local| && Compare(BySideEffectKey, local[i], incoming[j]) == 0;
        MergeTakesMatch(BySideEffectKey, local, incoming, i, j);
        CompareIsOrder(BySideEffectKey, local[i], incoming[j], incoming[j]);
        assert local[i] in local;
      } else {
        MergeResetsUnmatched(BySideEffectKey, local, incoming, j);
        assert incoming[j] in incoming;
      }
    }
  }

  lemma MergeTimers(local: seq<Task>, incoming: seq<Task>, timers: set<Time>)
    requires forall t | t in local && t.status == Created :: t.AsTime() in timers
    ensures forall t | t in Merge(ByPureKey, local, incoming) && t.status == Created :: t.AsTime() in timers
  {
    var out := Merge(ByPureKey, local, incoming);
    forall j | 0 <= j < |out| && out[j].status == Created
      ensures out[j].AsTime() in timers
    {
      MergeKeepsTasks(ByPureKey, local, incoming, j);
      var i :| 0 <= i < |local| && local[i].status == Created && Compare(ByPureKey, local[i], incoming[j]) == 0;
      assert local[i] in local;
      CompareIsOrder(ByPureKey, local[i], incoming[j], incoming[j]);
    }
  }

  lemma CreateKeepsInv(s: Cluster, e: Event)
    requires Inv(s) && e.CreateComponent? && Enabled(s, e)
    ensures Inv(Exec(s, e))
  {
    assert KeysOf(TaskLists([], [])) == {};
  }

  lemma RemoveKeepsInv(s: Cluster, e: Event)
    requires Inv(s) && e.RemoveComponents? && Enabled(s, e)
    ensures Inv(Exec(s, e))
  {
  }

  lemma RefreshKeepsInv(s: Cluster, e: Event)
    requires Inv(s) && e.RefreshTasks? && Enabled(s, e)
    ensures Inv(Exec(s, e))
  {
    var s' := Exec(s, e);
    forall p | p in s.comps
      ensures WellFormed(s'.comps[p]) && KeysOf(s'.comps[p]) == KeysOf(s.comps[p])
      ensures forall t | t in s'.comps[p].side || t in s'.comps[p].pure :: t.status == NotCreated
    {
      ResetFacts(s.comps[p]);
    }
    KeysFollow(s.comps, s'.comps, s.last, s.last);
    forall p | p in s'.comps
      ensures CreatedFirst(s'.comps[p].side) && MarksMatchLog(s'.comps[p].side, [])
    {
    }
  }

  /** Lists with the same keys: the conditions on keys carry over. */
  lemma KeysFollow(comps: Components, comps': Components, last: VersionedTransition, last': VersionedTransition)
    requires comps'.Keys == comps.Keys && forall p | p in comps :: KeysOf(comps'[p]) == KeysOf(comps[p])
    requires Disjoint(comps) && KeysUpTo(comps, last) && CompareVT(last, last') <= 0
    ensures Disjoint(comps') && KeysUpTo(comps', last')
  {
    forall p, k | p in comps' && k in KeysOf(comps'[p])
      ensures CompareVT(k.vt, last') <= 0
    {
      assert k in KeysOf(comps[p]);
    }
    forall p, q | p in comps' && q in comps' && p != q
      ensures KeysOf(comps'[p]) !! KeysOf(comps'[q])
    {
      assert KeysOf(comps[p]) !! KeysOf(comps[q]);
    }
  }

  lemma ReplicateKeepsInv(s: Cluster, e: Event)
    requires Inv(s) && e.Replicate? && Enabled(s, e)
    ensures Inv(Exec(s, e))
  {
    var s' := Exec(s, e);
    forall p | p in s'.comps
      ensures WellFormed(s'.comps[p]) && KeysOf(s'.comps[p]) == KeysOf(e.incoming[p])
      ensures CreatedFirst(s'.comps[p].side) && MarksMatchLog(s'.comps[p].side, s.log)
      ensures forall t | t in s'.comps[p].pure && t.status == Created :: t.AsTime() in s.timers
    {
      ReplicatedComponent(s, e, p);
    }
    KeysFollow(e.incoming, s'.comps, e.version, s'.last);
    forall i | 0 <= i < |s.log|
      ensures CompareVT(s.log[i].task.vt, s'.last) <= 0
    {
    }
  }

  lemma ReplicatedComponent(s: Cluster, e: Event, p: Path)
    requires Inv(s) && e.Replicate? && Enabled(s, e) && p in e.incoming
    ensures var lists := Exec(s, e).comps[p];
            && WellFormed(lists) && KeysOf(lists) == KeysOf(e.incoming[p])
            && CreatedFirst(lists.side) && MarksMatchLog(lists.side, s.log)
            && forall t | t in lists.pure && t.status == Created :: t.AsTime() in s.timers
  {
    var incoming := e.incoming[p];
    if p in s.comps {
      MergeFacts(s.comps[p], incoming);
      MergeMarks(s.comps[p].side, incoming.side, s.log);
      MergeTimers(s.comps[p].pure, incoming.pure, s.timers);
    } else {
      ResetFacts(incoming);
      assert Follows([], incoming.side, s.log);
      forall t | t in Reset(incoming.side)
        ensures !InLog(s.log, t.Key())
      {
        var i :| 0 <= i < |incoming.side| && Reset(incoming.side)[i] == t;
        assert incoming.side[i] in incoming.side && incoming.side[i].Key() == t.Key();
      }
    }
  }

  // ----- Runs

  ghost predicate AllEmitted(comps: Components, log: seq<Emission>) {
    forall p | p in comps :: forall t | t in comps[p].side :: InLog(log, t.Key())
  }

  const EMPTY: Cluster := Cluster(map[], {}, [], ZERO_VT)

  ghost predicate IsRun(states: seq<Cluster>, events: seq<Event>) {
    && |states| == |events| + 1
    && states[0] == EMPTY
    && forall i | 0 <= i < |events| :: Enabled(states[i], events[i]) && states[i + 1] == Exec(states[i], events[i])
  }

  /** In every state of every run: the lists are strictly sorted and task keys are unique in
      the tree; side-effect tasks with a physical task come first; a side-effect task is
      marked exactly if it has been emitted since the last refresh, and none was emitted
      twice; every pure task marked Created has its timer. */
  lemma {:induction false} RunKeepsInv(states: seq<Cluster>, events: seq<Event>, n: nat)
    requires IsRun(states, events) && n < |states|
    ensures Inv(states[n])
  {
    if n == 0 {
    } else {
      RunKeepsInv(states, events, n - 1);
      var s, e := states[n - 1], events[n - 1];
      assert Enabled(s, e) && states[n] == Exec(s, e);
      match e
      case Close(_, _, _) => CloseKeepsInv(s, e);
      case CreateComponent(_) => CreateKeepsInv(s, e);
      case RemoveComponents(_) => RemoveKeepsInv(s, e);
      case RefreshTasks => RefreshKeepsInv(s, e);
      case Replicate(_, _) => ReplicateKeepsInv(s, e);
    }
  }

  /** After every close of every run, each side-effect task has been emitted exactly once
      since the last refresh, the earliest pure task of the tree is marked and has a timer,
      and the close has added at most one timer. */
  lemma CloseInRun(states: seq<Cluster>, events: seq<Event>, n: nat)
    requires IsRun(states, events) && n < |events| && events[n].Close?
    ensures AllEmitted(states[n + 1].comps, states[n + 1].log)
    ensures DistinctEmissions(states[n + 1].log)
    ensures EarliestCreated(states[n + 1].comps) && TimersSafe(states[n + 1].comps, states[n + 1].timers)
    ensures |states[n + 1].timers - states[n].timers| <= 1
  {
    RunKeepsInv(states, events, n);
    RunKeepsInv(states, events, n + 1);
    assert Enabled(states[n], events[n]) && states[n + 1] == Exec(states[n], events[n]);
    CloseKeepsInv(states[n], events[n]);
  }
}
