/** The task part of closing a transaction (chasm/tree.go, closeTransactionUpdateComponentTasks)
    as a function of the task lists of all components. */
module CloseTasks {
  import opened Basics
  import opened PathEncoder
  import opened Tasks
  import opened TaskFacts

  type Components = map<Path, TaskLists>

  /** What the validators of the task types answer, for the component at a path. */
  datatype Validators = Validators(validate: (Path, Task) -> Verdict, validateNew: (Path, NewTask) -> Verdict)
  {
    function Existing(p: Path): Task -> Verdict {
      t => validate(p, t)
    }

    function New(p: Path): NewTask -> Verdict {
      t => validateNew(p, t)
    }
  }

  /** The version that a close writes, and whether cleaning up a component writes it: only the
      active side does that. */
  datatype Stamp = Stamp(next: VersionedTransition, cleansUp: bool)

  /** What a close is given: the version it writes, whether the active cluster changed state,
      the new tasks of the components it wrote, and the validators. */
  datatype CloseInput = CloseInput(
    next: VersionedTransition,
    active: bool,
    news: map<Path, seq<NewTask>>,
    validators: Validators)
  {
    function Mark(): Stamp {
      Stamp(next, active)
    }

    function Validator(p: Path): Task -> Verdict {
      validators.Existing(p)
    }

    function NewValidator(p: Path): NewTask -> Verdict {
      validators.New(p)
    }

    function News(p: Path): seq<NewTask> {
      if p in news then news[p] else []
    }
  }

  /** A physical side-effect task handed to the queues. */
  datatype Emission = Emission(path: Path, task: Task)

  /** How far the traversal has got: lists, next offset, emissions, and the component with
      the first pure task so far. */
  datatype Progress = Progress(comps: Components, offset: int, emitted: seq<Emission>, first: Option<Path>)

  // ----- One component

  /** The logical lists after cleanup and new tasks. */
  function Logical(lists: TaskLists, p: Path, input: CloseInput, offset: int): (TaskLists, int) {
    var cleaned := if input.active then lists.Cleaned(input.Validator(p)) else lists;
    WithNewTasks(cleaned, input.News(p), input.NewValidator(p), input.next, offset)
  }

  predicate Acceptable(lists: TaskLists, p: Path, input: CloseInput) {
    && (input.active ==> AllAnswered(lists.side, input.Validator(p)) && AllAnswered(lists.pure, input.Validator(p)))
    && NewTasksAcceptable(input.News(p), input.NewValidator(p))
  }

  function MarkedFrom(tasks: seq<Task>, n: nat): (out: seq<Task>)
    requires n <= |tasks|
    ensures |out| == |tasks|
    ensures forall i | 0 <= i < |tasks| :: out[i] == if i < n then tasks[i] else MarkCreated(tasks[i])
  {
    seq(|tasks|, i requires 0 <= i < |tasks| => if i < n then tasks[i] else MarkCreated(tasks[i]))
  }

  /** The lists after physical side-effect tasks have been generated. */
  function Emitted(lists: TaskLists): TaskLists {
    lists.(side := MarkedFrom(lists.side, CreatedUpTo(lists.side)))
  }

  function EmissionsOf(p: Path, tasks: seq<Task>): (out: seq<Emission>)
    ensures |out| == |tasks|
    ensures forall i | 0 <= i < |out| :: out[i] == Emission(p, tasks[i])
  {
    seq(|tasks|, i requires 0 <= i < |tasks| => Emission(p, tasks[i]))
  }

  function Earlier(comps: Components, p: Path, first: Option<Path>): bool {
    p in comps && comps[p].pure != [] &&
    (first.None? || first.value !in comps || comps[first.value].pure == [] ||
     ComparePureTasks(comps[p].pure[0], comps[first.value].pure[0]) < 0)
  }

  function CloseOne(pr: Progress, p: Path, input: CloseInput): Progress
    requires p in pr.comps
  {
    var (lists, offset) := Logical(pr.comps[p], p, input, pr.offset);
    var comps := pr.comps[p := Emitted(lists)];
    var emitted := pr.emitted + EmissionsOf(p, Reverse(lists.side[CreatedUpTo(lists.side)..]));
    Progress(comps, offset, emitted, if Earlier(comps, p, pr.first) then Some(p) else pr.first)
  }

  function CloseAll(comps: Components, order: seq<Path>, input: CloseInput): (pr: Progress)
    requires forall p | p in order :: p in comps
    ensures pr.comps.Keys == comps.Keys
  {
    if order == [] then Progress(comps, 1, [], None)
    else CloseOne(CloseAll(comps, order[..|order| - 1], input), order[|order| - 1], input)
  }

  // ----- What the lists keep

  function TaskKeys(tasks: seq<Task>): set<TaskKey> {
    set t | t in tasks :: t.Key()
  }

  function KeysOf(lists: TaskLists): set<TaskKey> {
    TaskKeys(lists.side) + TaskKeys(lists.pure)
  }

  ghost predicate DistinctKeys(a: seq<Task>, b: seq<Task>) {
    && (forall i, j | 0 <= i < j < |b| :: b[i].Key() != b[j].Key())
    && (forall t, u | t in a && u in b :: t.Key() != u.Key())
  }

  ghost predicate WellFormed(lists: TaskLists) {
    && Sorted(BySideEffectKey, lists.side)
    && Sorted(ByPureKey, lists.pure)
    && DistinctKeys(lists.side, lists.pure)
  }

  /** The key was given out before `offset` in the transaction that writes `next`. */
  predicate KeyBefore(k: TaskKey, next: VersionedTransition, offset: int) {
    CompareVT(k.vt, next) < 0 || (k.vt == next && k.offset < offset)
  }

  lemma {:induction false} KeptSubsequence(tasks: seq<Task>, validate: Task -> Verdict)
    ensures forall t | t in Kept(tasks, validate) :: t in tasks
    ensures forall o | Sorted(o, tasks) :: Sorted(o, Kept(tasks, validate))
    ensures (forall i, j | 0 <= i < j < |tasks| :: tasks[i].Key() != tasks[j].Key()) ==>
      forall i, j | 0 <= i < j < |Kept(tasks, validate)| ::
        Kept(tasks, validate)[i].Key() != Kept(tasks, validate)[j].Key()
  {
    if tasks == [] {
    } else {
      var n := |tasks| - 1;
      var kept := Kept(tasks[..n], validate);
      KeptSubsequence(tasks[..n], validate);
      forall o | Sorted(o, tasks)
        ensures Sorted(o, Kept(tasks, validate))
      {
        assert Sorted(o, tasks[..n]);
        forall i | 0 <= i < |kept|
          ensures Compare(o, kept[i], tasks[n]) < 0
        {
          assert kept[i] in tasks[..n];
        }
      }
      forall i | 0 <= i < |kept|
        ensures kept[i] in tasks[..n]
      {
      }
    }
  }

  lemma CleanedWellFormed(lists: TaskLists, validate: Task -> Verdict)
    requires WellFormed(lists)
    ensures WellFormed(lists.Cleaned(validate))
    ensures KeysOf(lists.Cleaned(validate)) <= KeysOf(lists)
  {
    KeptSubsequence(lists.side, validate);
    KeptSubsequence(lists.pure, validate);
  }

  /** New tasks get consecutive keys of the new version, and join behind the old ones. */
  lemma {:induction false} AppendedFacts(lists: TaskLists, news: seq<NewTask>, validate: NewTask -> Verdict,
                                         next: VersionedTransition, offset: int)
    requires WellFormed(lists)
    requires forall k | k in KeysOf(lists) :: KeyBefore(k, next, offset)
    ensures var (added, o) := Appended(lists, news, validate, next, offset);
            && offset <= o
            && Sorted(BySideEffectKey, added.side)
            && DistinctKeys(added.side, added.pure)
            && (forall k | k in KeysOf(added) :: k in KeysOf(lists) || (k.vt == next && offset <= k.offset < o))
            && (!AddsPure(news, validate) ==> added.pure == lists.pure)
  {
    if news == [] {
    } else {
      var n := |news| - 1;
      assert news == news[..n] + [news[n]];
      AppendedFacts(lists, news[..n], validate, next, offset);
      var (sofar, o) := Appended(lists, news[..n], validate, next, offset);
      if validate(news[n]) == Valid {
        var t := news[n].Logical(next, o);
        AppendOne(sofar, t, next, o);
      }
    }
  }

  lemma AppendOne(lists: TaskLists, t: Task, next: VersionedTransition, offset: int)
    requires t.Key() == TaskKey(next, offset)
    requires forall k | k in KeysOf(lists) :: KeyBefore(k, next, offset)
    requires Sorted(BySideEffectKey, lists.side) && DistinctKeys(lists.side, lists.pure)
    ensures Sorted(BySideEffectKey, lists.side + [t])
    ensures DistinctKeys(lists.side + [t], lists.pure)
    ensures DistinctKeys(lists.side, lists.pure + [t])
    ensures KeysOf(lists.(side := lists.side + [t])) == KeysOf(lists) + {t.Key()}
    ensures KeysOf(lists.(pure := lists.pure + [t])) == KeysOf(lists) + {t.Key()}
  {
    forall i | 0 <= i < |lists.side|
      ensures CompareSideEffectTasks(lists.side[i], t) < 0
    {
      assert lists.side[i].Key() in KeysOf(lists);
    }
    forall i | 0 <= i < |lists.pure|
      ensures lists.pure[i].Key() != t.Key()
    {
      assert lists.pure[i].Key() in KeysOf(lists);
    }
    forall u | u in lists.side
      ensures u.Key() != t.Key()
    {
      assert u.Key() in KeysOf(lists);
    }
  }

  lemma SortedPureFacts(side: seq<Task>, pure: seq<Task>)
    requires DistinctKeys(side, pure)
    ensures var sorted := SortFunc(ByPureKey, pure);
            && Sorted(ByPureKey, sorted) && DistinctKeys(side, sorted)
            && KeysOf(TaskLists(side, sorted)) == KeysOf(TaskLists(side, pure))
            && (forall t :: t in sorted <==> t in pure)
  {
    var sorted := SortFunc(ByPureKey, pure);
    forall i, j | 0 <= i < j < |pure|
      ensures Compare(ByPureKey, pure[i], pure[j]) != 0
    {
      CompareIsOrder(ByPureKey, pure[i], pure[j], pure[j]);
    }
    SortFuncSorts(ByPureKey, pure);
    forall t
      ensures t in sorted <==> t in pure
    {
      assert t in multiset(sorted) <==> t in multiset(pure);
    }
    DistinctSorted(pure, sorted);
  }

  /** A list without two tasks of one key has none after a permutation. */
  lemma DistinctSorted(a: seq<Task>, b: seq<Task>)
    requires forall i, j | 0 <= i < j < |a| :: a[i].Key() != a[j].Key()
    requires Sorted(ByPureKey, b) && multiset(a) == multiset(b)
    ensures forall i, j | 0 <= i < j < |b| :: b[i].Key() != b[j].Key()
  {
    forall i, j | 0 <= i < j < |b|
      ensures b[i].Key() != b[j].Key()
    {
      assert b[i] in multiset(a) && b[j] in multiset(a);
      var m :| 0 <= m < |a| && a[m] == b[i];
      var n :| 0 <= n < |a| && a[n] == b[j];
      CompareIsOrder(ByPureKey, b[i], b[j], b[j]);
      assert m != n;
    }
  }

  lemma LogicalFacts(lists: TaskLists, p: Path, input: CloseInput, offset: int)
    requires WellFormed(lists)
    requires forall k | k in KeysOf(lists) :: KeyBefore(k, input.next, offset)
    ensures var (out, o) := Logical(lists, p, input, offset);
            && offset <= o && WellFormed(out)
            && (forall k | k in KeysOf(out) :: KeyBefore(k, input.next, o))
            && forall k | k in KeysOf(out) :: k in KeysOf(lists) || (k.vt == input.next && offset <= k.offset < o)
  {
    var cleaned := if input.active then lists.Cleaned(input.Validator(p)) else lists;
    CleanedWellFormed(lists, input.Validator(p));
    AppendedFacts(cleaned, input.News(p), input.NewValidator(p), input.next, offset);
    var (added, o) := Appended(cleaned, input.News(p), input.NewValidator(p), input.next, offset);
    SortedPureFacts(added.side, added.pure);
  }

  // ----- Which side-effect tasks are emitted

  lemma {:induction false} KeptShape(tasks: seq<Task>, validate: Task -> Verdict)
    requires CreatedFirst(tasks)
    ensures CreatedFirst(Kept(tasks, validate))
  {
    if tasks == [] {
    } else {
      var n := |tasks| - 1;
      KeptShape(tasks[..n], validate);
      KeptSubsequence(tasks[..n], validate);
      var kept := Kept(tasks[..n], validate);
      forall i | 0 <= i < |kept|
        ensures kept[i] in tasks[..n]
      {
      }
    }
  }

  lemma {:induction false} AppendedShape(lists: TaskLists, news: seq<NewTask>, validate: NewTask -> Verdict,
                                         next: VersionedTransition, offset: int)
    requires CreatedFirst(lists.side)
    ensures CreatedFirst(Appended(lists, news, validate, next, offset).0.side)
    ensures offset <= Appended(lists, news, validate, next, offset).1
    ensures forall t | t in Appended(lists, news, validate, next, offset).0.side ::
              t in lists.side || (t.status == NotCreated && t.vt == next && offset <= t.offset)
  {
    if news == [] {
    } else {
      AppendedShape(lists, news[..|news| - 1], validate, next, offset);
    }
  }

  lemma LogicalShape(lists: TaskLists, p: Path, input: CloseInput, offset: int)
    requires CreatedFirst(lists.side)
    ensures var side := Logical(lists, p, input, offset).0.side;
            && CreatedFirst(side)
            && forall t | t in side ::
                 t in lists.side || (t.status == NotCreated && t.vt == input.next && offset <= t.offset)
  {
    var cleaned := if input.active then lists.Cleaned(input.Validator(p)) else lists;
    KeptShape(lists.side, input.Validator(p));
    KeptSubsequence(lists.side, input.Validator(p));
    AppendedShape(cleaned, input.News(p), input.NewValidator(p), input.next, offset);
  }

  ghost predicate AllCreated(tasks: seq<Task>) {
    forall t | t in tasks :: t.status == Created
  }

  lemma {:induction false} ReverseMembers<T>(s: seq<T>)
    ensures |Reverse(s)| == |s|
    ensures forall i | 0 <= i < |s| :: Reverse(s)[i] == s[|s| - 1 - i]
  {
    if s == [] {
    } else {
      ReverseMembers(s[..|s| - 1]);
    }
  }

  /** What generating the physical side-effect tasks of one component does to a list with
      the Created tasks in front: every task without physical one is emitted, no other. */
  lemma EmittedFacts(lists: TaskLists, p: Path)
    requires CreatedFirst(lists.side)
    ensures var out := EmissionsOf(p, Reverse(lists.side[CreatedUpTo(lists.side)..]));
            && AllCreated(Emitted(lists).side)
            && (forall e | e in out :: e.path == p && e.task in lists.side && e.task.status == NotCreated)
            && (forall t | t in lists.side && t.status == NotCreated :: Emission(p, t) in out)
  {
    var n := CreatedUpTo(lists.side);
    var rest := lists.side[n..];
    var out := EmissionsOf(p, Reverse(rest));
    ScanReachesAll(lists.side);
    ReverseMembers(rest);
    forall t | t in lists.side && t.status == NotCreated
      ensures Emission(p, t) in out
    {
      var i :| 0 <= i < |lists.side| && lists.side[i] == t;
      assert rest[i - n] == t;
      assert Reverse(rest)[|rest| - 1 - (i - n)] == t;
      assert out[|rest| - 1 - (i - n)] == Emission(p, t);
    }
  }

  ghost predicate DistinctEmissions(emitted: seq<Emission>) {
    forall i, j | 0 <= i < j < |emitted| :: emitted[i].task.Key() != emitted[j].task.Key()
  }

  lemma EmissionsDistinct(lists: TaskLists, p: Path)
    requires Sorted(BySideEffectKey, lists.side)
    ensures DistinctEmissions(EmissionsOf(p, Reverse(lists.side[CreatedUpTo(lists.side)..])))
  {
    var rest := lists.side[CreatedUpTo(lists.side)..];
    ReverseMembers(rest);
    forall i, j | 0 <= i < j < |rest|
      ensures Reverse(rest)[i].Key() != Reverse(rest)[j].Key()
    {
      CompareIsOrder(BySideEffectKey, rest[|rest| - 1 - j], rest[|rest| - 1 - i], rest[0]);
    }
  }

  lemma MarkedKeys(tasks: seq<Task>, n: nat)
    requires n <= |tasks|
    ensures TaskKeys(MarkedFrom(tasks, n)) == TaskKeys(tasks)
  {
    var out := MarkedFrom(tasks, n);
    forall t | t in tasks
      ensures t.Key() in TaskKeys(out)
    {
      var i :| 0 <= i < |out| && tasks[i] == t;
      assert out[i] in out && out[i].Key() == t.Key();
    }
    forall t | t in out
      ensures t.Key() in TaskKeys(tasks)
    {
      var i :| 0 <= i < |out| && out[i] == t;
      assert tasks[i] in tasks && tasks[i].Key() == t.Key();
    }
  }

  lemma MarkedSorted(tasks: seq<Task>, n: nat)
    requires n <= |tasks| && Sorted(BySideEffectKey, tasks)
    ensures Sorted(BySideEffectKey, MarkedFrom(tasks, n))
  {
    var out := MarkedFrom(tasks, n);
    forall i, j | 0 <= i < j < |out|
      ensures Compare(BySideEffectKey, out[i], out[j]) < 0
    {
      assert Compare(BySideEffectKey, tasks[i], tasks[j]) < 0;
    }
  }

  lemma EmittedWellFormed(lists: TaskLists)
    requires WellFormed(lists)
    ensures WellFormed(Emitted(lists)) && KeysOf(Emitted(lists)) == KeysOf(lists)
  {
    var n := CreatedUpTo(lists.side);
    MarkedSorted(lists.side, n);
    MarkedKeys(lists.side, n);
    forall t, u | t in Emitted(lists).side && u in lists.pure
      ensures t.Key() != u.Key()
    {
      assert t.Key() in TaskKeys(lists.side);
    }
  }
}
