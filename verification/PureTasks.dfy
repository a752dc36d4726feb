/** EachPureTask (chasm/tree.go): running the pure tasks of the tree that are due. */
module PureTasks {
  import opened Basics
  import opened PathEncoder
  import opened Tasks
  import opened ChasmTree
  import opened Transaction
  import opened CloseTasks
  import opened CloseTree

  /** Task times are compared in milliseconds. */
  const PRECISION: Time := 1000000

  /** Truncate: down to a multiple of the precision. */
  function Truncated(time: Time): (r: Time)
    ensures r <= time < r + PRECISION && r % PRECISION == 0
  {
    time - time % PRECISION
  }

  predicate Expired(reference: Time, task: Task) {
    task.scheduled.Some? && Truncated(task.AsTime()) <= Truncated(reference)
  }

  /** The task is scheduled no later than at the end of the millisecond of the reference. */
  predicate Due(reference: Time, task: Task) {
    task.scheduled.Some? && task.scheduled.value < (reference / 1000000 + 1) * 1000000
  }

  lemma ExpiredIsDue(reference: Time, task: Task)
    ensures Expired(reference, task) <==> Due(reference, task)
    ensures task.scheduled.Some? && task.scheduled.value <= reference ==> Due(reference, task)
  {
    if task.scheduled.Some? {
      SameMillisecond(task.scheduled.value, reference);
    }
  }

  lemma SameMillisecond(time: Time, reference: Time)
    ensures Truncated(time) <= Truncated(reference) <==> time < (reference / 1000000 + 1) * 1000000
    ensures time <= reference ==> time < (reference / 1000000 + 1) * 1000000
  {
  }

  /** How many tasks at the front of the list are due. */
  function ExpiredUpTo(reference: Time, tasks: seq<Task>): (n: nat)
    ensures n <= |tasks|
    ensures forall i | 0 <= i < n :: Due(reference, tasks[i])
    ensures n < |tasks| ==> !Due(reference, tasks[n])
  {
    if tasks == [] then 0
    else
      ExpiredIsDue(reference, tasks[0]);
      if !Expired(reference, tasks[0]) then 0
      else
        assert forall i | 1 <= i < |tasks| :: tasks[i] == tasks[1..][i - 1];
        1 + ExpiredUpTo(reference, tasks[1..])
  }

  /** A task without scheduled time, which sorts as the epoch but is never due, in front of
      one that is due. */
  ghost predicate UnscheduledInFront(reference: Time, tasks: seq<Task>) {
    exists i, j :: 0 <= i < j < |tasks| && tasks[i].scheduled.None? && Due(reference, tasks[j])
  }

  lemma DueEarlier(reference: Time, a: Task, b: Task)
    requires Compare(ByPureKey, a, b) < 0 && a.scheduled.Some? && Due(reference, b)
    ensures Due(reference, a)
  {
  }

  /** On a list sorted by time, stopping at the first task that is not due misses none,
      exactly if no task without scheduled time stands in front of one that is due. */
  lemma StoppingEarlyLosesNothing(reference: Time, tasks: seq<Task>)
    requires Sorted(ByPureKey, tasks)
    ensures (forall i | 0 <= i < |tasks| :: Due(reference, tasks[i]) <==> i < ExpiredUpTo(reference, tasks)) <==>
            !UnscheduledInFront(reference, tasks)
  {
    var n := ExpiredUpTo(reference, tasks);
    if !UnscheduledInFront(reference, tasks) {
      forall i | n <= i < |tasks|
        ensures !Due(reference, tasks[i])
      {
        if i > n && Due(reference, tasks[i]) && tasks[n].scheduled.Some? {
          assert Compare(ByPureKey, tasks[n], tasks[i]) < 0;
          DueEarlier(reference, tasks[n], tasks[i]);
        }
      }
    } else {
      var i, j :| 0 <= i < j < |tasks| && tasks[i].scheduled.None? && Due(reference, tasks[j]);
      assert !Due(reference, tasks[i]);
    }
  }

  // ----- Callbacks

  /** The callback has been given the task at `index` of the component at `path`. */
  datatype Call = Call(path: Path, index: nat)

  /** What is passed to EachPureTask: an arbitrary callback, which may fail, and which may
      remove components from the tree when the structure is synchronised after it. */
  class Callback {
    var calls: seq<Call>
    var gone: set<Path>
    const removes: (seq<Call>, Call) -> set<Path>
    const fails: (seq<Call>, Call) -> bool

    constructor (removes: (seq<Call>, Call) -> set<Path>, fails: (seq<Call>, Call) -> bool)
      ensures this.removes == removes && this.fails == fails && calls == [] && gone == {}
    {
      this.removes, this.fails := removes, fails;
      calls, gone := [], {};
    }

    method Run(p: Path, index: nat) returns (ok: bool)
      modifies this
      ensures calls == old(calls) + [Call(p, index)]
      ensures ok ==> gone == old(gone) + removes(old(calls), Call(p, index))
      ensures ok == !fails(old(calls), Call(p, index))
    {
      var call := Call(p, index);
      ok := !fails(calls, call);
      if ok {
        gone := gone + removes(calls, call);
      }
      calls := calls + [call];
    }
  }

  /** The components that the first `n` calls have removed. */
  function RemovedBy(removes: (seq<Call>, Call) -> set<Path>, calls: seq<Call>, n: nat): set<Path>
    requires n <= |calls|
  {
    if n == 0 then {} else RemovedBy(removes, calls, n - 1) + removes(calls[..n - 1], calls[n - 1])
  }

  lemma {:induction false} RemovedByPrefix(removes: (seq<Call>, Call) -> set<Path>, calls: seq<Call>, more: seq<Call>,
                                           n: nat)
    requires n <= |calls|
    ensures RemovedBy(removes, calls + more, n) == RemovedBy(removes, calls, n)
  {
    if n == 0 {
    } else {
      RemovedByPrefix(removes, calls, more, n - 1);
      assert (calls + more)[..n - 1] == calls[..n - 1];
    }
  }

  // ----- What a run has done

  ghost predicate OnlyDue(comps: Components, reference: Time, visited: seq<Path>, calls: seq<Call>) {
    forall c | c in calls ::
      c.path in visited && c.path in comps && c.index < ExpiredUpTo(reference, comps[c.path].pure)
  }

  ghost predicate AllDue(comps: Components, reference: Time, visited: seq<Path>, calls: seq<Call>, gone: set<Path>) {
    forall p, i | p in visited && p in comps && 0 <= i < ExpiredUpTo(reference, comps[p].pure) ::
      Call(p, i) in calls || p in gone
  }

  /** No call is made twice, or before an earlier task of its component, nor for a component that
      an earlier call has removed. */
  ghost predicate OnceEach(removes: (seq<Call>, Call) -> set<Path>, calls: seq<Call>) {
    && NoRepeats(calls)
    && (forall i, j | 0 <= i < j < |calls| && calls[i].path == calls[j].path :: calls[i].index < calls[j].index)
    && forall i: nat | i < |calls| :: StillThere(removes, calls, i)
  }

  ghost predicate StillThere(removes: (seq<Call>, Call) -> set<Path>, calls: seq<Call>, i: nat)
    requires i < |calls|
  {
    calls[i].path !in RemovedBy(removes, calls, i)
  }

  lemma NoRepeatsMore(calls: seq<Call>, c: Call)
    requires NoRepeats(calls) && c !in calls
    ensures NoRepeats(calls + [c])
  {
  }

  lemma OnceMore(removes: (seq<Call>, Call) -> set<Path>, calls: seq<Call>, c: Call)
    requires OnceEach(removes, calls) && c.path !in RemovedBy(removes, calls, |calls|)
    requires forall d | d in calls && d.path == c.path :: d.index < c.index
    ensures OnceEach(removes, calls + [c])
  {
    NoRepeatsMore(calls, c);
    var all := calls + [c];
    forall i: nat | i < |all|
      ensures StillThere(removes, all, i)
    {
      RemovedByPrefix(removes, calls, [c], i);
      if i < |calls| {
        assert StillThere(removes, calls, i);
      }
    }
  }

  lemma RemovedOneMore(removes: (seq<Call>, Call) -> set<Path>, calls: seq<Call>, c: Call)
    ensures RemovedBy(removes, calls + [c], |calls| + 1) == RemovedBy(removes, calls, |calls|) + removes(calls, c)
  {
    assert (calls + [c])[..|calls|] == calls;
    RemovedByPrefix(removes, calls, [c], |calls|);
  }

  /** No call has failed. */
  ghost predicate NoneFailed(fails: (seq<Call>, Call) -> bool, calls: seq<Call>) {
    forall i | 0 <= i < |calls| :: !fails(calls[..i], calls[i])
  }

  lemma NoneFailedMore(fails: (seq<Call>, Call) -> bool, calls: seq<Call>, c: Call)
    ensures NoneFailed(fails, calls + [c]) <==> NoneFailed(fails, calls) && !fails(calls, c)
  {
    var more := calls + [c];
    assert more[..|calls|] == calls && more[|calls|] == c;
    assert forall i | 0 <= i < |calls| :: more[..i] == calls[..i] && more[i] == calls[i];
  }

  /** The state of the run: what has been called, and what is gone by now. */
  ghost predicate RunState(comps: Components, reference: Time, visited: seq<Path>, cb: Callback)
    reads cb
  {
    && OnlyDue(comps, reference, visited, cb.calls)
    && OnceEach(cb.removes, cb.calls)
    && cb.gone == RemovedBy(cb.removes, cb.calls, |cb.calls|)
  }

  lemma RunStateMore(comps: Components, reference: Time, visited: seq<Path>, calls: seq<Call>,
                     removes: (seq<Call>, Call) -> set<Path>, c: Call)
    requires OnlyDue(comps, reference, visited, calls) && OnceEach(removes, calls)
    requires c.path in visited && c.path in comps && c.index < ExpiredUpTo(reference, comps[c.path].pure)
    requires c.path !in RemovedBy(removes, calls, |calls|)
    requires forall d | d in calls && d.path == c.path :: d.index < c.index
    ensures OnlyDue(comps, reference, visited, calls + [c]) && OnceEach(removes, calls + [c])
    ensures RemovedBy(removes, calls + [c], |calls + [c]|) == RemovedBy(removes, calls, |calls|) + removes(calls, c)
  {
    OnceMore(removes, calls, c);
    RemovedOneMore(removes, calls, c);
  }

  /** The first `n` tasks of the component have been called, and no other one of it. */
  ghost predicate CalledUpTo(calls: seq<Call>, p: Path, n: nat) {
    && (forall c | c in calls && c.path == p :: c.index < n)
    && forall i | 0 <= i < n :: Call(p, i) in calls
  }

  lemma CalledOneMore(calls: seq<Call>, p: Path, n: nat)
    requires CalledUpTo(calls, p, n)
    ensures CalledUpTo(calls + [Call(p, n)], p, n + 1)
  {
    assert Call(p, n) in calls + [Call(p, n)];
  }

  // ----- The loops

  /** The tasks of one component up to the first that is not due, or until it is removed. */
  method RunComponent(comps: Components, reference: Time, p: Path, cb: Callback, ghost visited: seq<Path>)
    returns (ok: bool)
    requires p in comps && p !in visited && RunState(comps, reference, visited, cb)
    modifies cb
    ensures ok ==> RunState(comps, reference, visited + [p], cb)
    ensures NoneFailed(cb.fails, old(cb.calls)) ==> (ok <==> NoneFailed(cb.fails, cb.calls))
    ensures ok ==> forall i | 0 <= i < ExpiredUpTo(reference, comps[p].pure) :: Call(p, i) in cb.calls || p in cb.gone
    ensures old(cb.calls) <= cb.calls && (ok ==> old(cb.gone) <= cb.gone)
  {
    ok := true;
    ghost var before := cb.calls;
    var tasks := comps[p].pure;
    var index := 0;
    while index < |tasks|
      invariant index <= ExpiredUpTo(reference, tasks)
      invariant RunState(comps, reference, visited + [p], cb)
      invariant before <= cb.calls && old(cb.gone) <= cb.gone
      invariant NoneFailed(cb.fails, before) ==> NoneFailed(cb.fails, cb.calls)
      invariant CalledUpTo(cb.calls, p, index)
    {
      ExpiredIsDue(reference, tasks[index]);
      if !Expired(reference, tasks[index]) {
        break;
      }
      DueAt(reference, tasks, index);
      if p in cb.gone {
        break;
      }
      RunStateMore(comps, reference, visited + [p], cb.calls, cb.removes, Call(p, index));
      NoneFailedMore(cb.fails, cb.calls, Call(p, index));
      CalledOneMore(cb.calls, p, index);
      ok := cb.Run(p, index);
      if !ok {
        return;
      }
      index := index + 1;
    }
  }

  lemma DueAt(reference: Time, tasks: seq<Task>, i: nat)
    requires i < |tasks| && i <= ExpiredUpTo(reference, tasks) && Due(reference, tasks[i])
    ensures i < ExpiredUpTo(reference, tasks)
  {
  }

  /** The components that EachPureTask gathers: those whose first pure task is due. */
  predicate HasDue(comps: Components, reference: Time, p: Path) {
    p in comps && ExpiredUpTo(reference, comps[p].pure) > 0
  }

  method GatherDue(t: Tree, reference: Time) returns (due: seq<Path>)
    requires t.Valid()
    ensures NoRepeats(due) && forall p :: p in due <==> HasDue(CompsOf(t.nodes), reference, p)
    ensures forall p :: p in due <==> p in t.nodes && t.nodes[p].IsComponent() && TasksOf(t.nodes[p]).pure != [] &&
                                      Due(reference, TasksOf(t.nodes[p]).pure[0])
  {
    ghost var comps := CompsOf(t.nodes);
    var order := WholePreOrder(t);
    due := [];
    for i := 0 to |order|
      invariant NoRepeats(due) && forall p :: p in due <==> p in order[..i] && HasDue(comps, reference, p)
    {
      var p := order[i];
      assert order[..i + 1] == order[..i] + [p];
      if t.nodes[p].IsComponent() && |TasksOf(t.nodes[p]).pure| != 0 {
        ExpiredIsDue(reference, TasksOf(t.nodes[p]).pure[0]);
      }
      if !t.nodes[p].IsComponent() || |TasksOf(t.nodes[p]).pure| == 0 ||
         !Expired(reference, TasksOf(t.nodes[p]).pure[0]) {
        continue;
      }
      assert p !in order[..i];
      due := due + [p];
    }
    assert order[..|order|] == order;
  }

  method EachPureTask(t: Tree, reference: Time, cb: Callback) returns (ok: bool)
    requires t.Valid() && cb.calls == [] && cb.gone == {}
    modifies cb
    ensures ok <==> NoneFailed(cb.fails, cb.calls)
    ensures ok ==> OnceEach(cb.removes, cb.calls) && cb.gone == RemovedBy(cb.removes, cb.calls, |cb.calls|)
    ensures ok ==> forall c | c in cb.calls ::
                     c.path in CompsOf(t.nodes) && c.index < ExpiredUpTo(reference, CompsOf(t.nodes)[c.path].pure)
    ensures ok ==> forall p, i | p in CompsOf(t.nodes) && 0 <= i < ExpiredUpTo(reference, CompsOf(t.nodes)[p].pure) ::
              Call(p, i) in cb.calls || p in cb.gone
    ensures ok ==> forall c | c in cb.calls ::
                     c.path in CompsOf(t.nodes) && c.index < |CompsOf(t.nodes)[c.path].pure| &&
                     Due(reference, CompsOf(t.nodes)[c.path].pure[c.index])
    ensures ok && Scannable(CompsOf(t.nodes), reference) && cb.gone == {} ==>
              forall p, i: nat :: Call(p, i) in cb.calls <==>
                p in CompsOf(t.nodes) && i < |CompsOf(t.nodes)[p].pure| && Due(reference, CompsOf(t.nodes)[p].pure[i])
  {
    var due := GatherDue(t, reference);
    var comps := CompsOf(t.nodes);
    ok := true;
    for i := 0 to |due|
      invariant RunState(comps, reference, due[..i], cb)
      invariant AllDue(comps, reference, due[..i], cb.calls, cb.gone) && NoneFailed(cb.fails, cb.calls)
    {
      assert due[..i + 1] == due[..i] + [due[i]] && due[i] !in due[..i];
      assert due[i] in due && HasDue(comps, reference, due[i]);
      if due[i] in cb.gone {
        continue;
      }
      ok := RunComponent(comps, reference, due[i], cb, due[..i]);
      if !ok {
        return;
      }
    }
    assert due[..|due|] == due;
    AllComponentsDone(comps, reference, due, cb.calls, cb.gone);
    if Scannable(comps, reference) && cb.gone == {} {
      ExactlyTheDueTasks(comps, reference, cb.calls, cb.removes);
    }
  }

  lemma AllComponentsDone(comps: Components, reference: Time, due: seq<Path>, calls: seq<Call>, gone: set<Path>)
    requires forall p :: p in due <==> HasDue(comps, reference, p)
    requires AllDue(comps, reference, due, calls, gone)
    ensures forall p, i | p in comps && 0 <= i < ExpiredUpTo(reference, comps[p].pure) ::
              Call(p, i) in calls || p in gone
  {
    forall p, i | p in comps && 0 <= i < ExpiredUpTo(reference, comps[p].pure)
      ensures Call(p, i) in calls || p in gone
    {
      assert HasDue(comps, reference, p);
    }
  }

  // ----- Nothing is lost

  ghost predicate Scannable(comps: Components, reference: Time) {
    forall p | p in comps :: Sorted(ByPureKey, comps[p].pure) && !UnscheduledInFront(reference, comps[p].pure)
  }

  /** If no call removes a component, the callback has been given exactly the tasks of the
      tree that are scheduled before the end of the millisecond of the reference, each of them
      once; so all that are scheduled at the reference itself or before. */
  lemma ExactlyTheDueTasks(comps: Components, reference: Time, calls: seq<Call>,
                           removes: (seq<Call>, Call) -> set<Path>)
    requires OnceEach(removes, calls) && RemovedBy(removes, calls, |calls|) == {} && Scannable(comps, reference)
    requires forall c | c in calls :: c.path in comps && c.index < ExpiredUpTo(reference, comps[c.path].pure)
    requires forall p, i | p in comps && 0 <= i < ExpiredUpTo(reference, comps[p].pure) ::
               Call(p, i) in calls || p in RemovedBy(removes, calls, |calls|)
    ensures forall p, i: nat :: Call(p, i) in calls <==> p in comps && i < |comps[p].pure| &&
                                                         Due(reference, comps[p].pure[i])
    ensures forall p, i: nat | p in comps && i < |comps[p].pure| && comps[p].pure[i].scheduled.Some? &&
                               comps[p].pure[i].scheduled.value <= reference :: Call(p, i) in calls
    ensures NoRepeats(calls)
  {
    forall p, i: nat
      ensures Call(p, i) in calls <==> p in comps && i < |comps[p].pure| && Due(reference, comps[p].pure[i])
    {
      if p in comps {
        StoppingEarlyLosesNothing(reference, comps[p].pure);
      }
    }
    forall p, i: nat | p in comps && i < |comps[p].pure|
      ensures comps[p].pure[i].scheduled.Some? && comps[p].pure[i].scheduled.value <= reference ==>
                Due(reference, comps[p].pure[i])
    {
      ExpiredIsDue(reference, comps[p].pure[i]);
    }
  }

  /** In general, a due task is left out only if its component has been removed. */
  lemma OnlyRemovedAreLeftOut(comps: Components, reference: Time, calls: seq<Call>, gone: set<Path>, p: Path, i: nat)
    requires Scannable(comps, reference) && p in comps && i < |comps[p].pure|
    requires forall q, j | q in comps && 0 <= j < ExpiredUpTo(reference, comps[q].pure) ::
               Call(q, j) in calls || q in gone
    ensures Due(reference, comps[p].pure[i]) ==> Call(p, i) in calls || p in gone
  {
    StoppingEarlyLosesNothing(reference, comps[p].pure);
  }
}
