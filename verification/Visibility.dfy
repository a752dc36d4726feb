/** The visibility component (chasm/visibility.go) as a client of the close protocol: of all
    the tasks it ever generates, one is live. */
module Visibility {
  import opened Basics
  import opened PathEncoder
  import opened Tasks
  import opened TaskFacts
  import opened CloseTasks
  import opened Runs

  /** How the payload of a visibility task holds its transition count. */
  datatype Payloads = Payloads(encode: int -> Blob, decode: Blob -> int)
  {
    ghost predicate Valid() {
      forall count :: decode(encode(count)) == count
    }
  }

  const VISIBILITY_TASK_TYPE: int := 1

  function VisibilityTask(payloads: Payloads, count: int): NewTask {
    NewTask(VISIBILITY_TASK_TYPE, false, IMMEDIATE, "", payloads.encode(count))
  }

  /** The tasks of `n` transitions after the one with the count `count`. */
  function Generated(payloads: Payloads, count: int, n: nat): (news: seq<NewTask>)
    ensures |news| == n
    ensures forall i | 0 <= i < n :: news[i] == VisibilityTask(payloads, count + 1 + i)
  {
    if n == 0 then [] else Generated(payloads, count, n - 1) + [VisibilityTask(payloads, count + n)]
  }

  class VisibilityComponent {
    var transitionCount: int
    var newTasks: seq<NewTask>

    /** NewVisibility generates a first task. */
    constructor (payloads: Payloads)
      ensures transitionCount == 1 && newTasks == Generated(payloads, 0, 1)
      ensures newTasks == [NewTask(1, false, IMMEDIATE, "", payloads.encode(1))]
    {
      transitionCount, newTasks := 0, [];
      new;
      GenerateTask(payloads, 0, 0);
    }

    /** generateTask, after `n` other calls in the transaction that started at `count`. */
    method GenerateTask(payloads: Payloads, ghost count: int, ghost n: nat)
      requires transitionCount == count + n && newTasks == Generated(payloads, count, n)
      modifies this
      ensures transitionCount == count + n + 1 && newTasks == Generated(payloads, count, n + 1)
      ensures newTasks == old(newTasks) + [NewTask(1, false, IMMEDIATE, "", payloads.encode(transitionCount))]
    {
      transitionCount := transitionCount + 1;
      newTasks := newTasks + [VisibilityTask(payloads, transitionCount)];
    }
  }

  /** visibilityTaskHandler.Validate. */
  predicate Current(payloads: Payloads, count: int, data: Blob) {
    payloads.decode(data) == count
  }

  /** The list holds at most one task, and that is the current one. */
  predicate OneLive(lists: TaskLists, payloads: Payloads, count: int) {
    && |lists.side| <= 1 && lists.pure == []
    && forall t | t in lists.side :: payloads.decode(t.data) == count
  }

  /** No task is found valid that is not current; it may be invalid for other reasons. */
  ghost predicate Sound(input: CloseInput, p: Path, payloads: Payloads, count: int) {
    && (forall t: Task :: input.Validator(p)(t) == Valid ==> Current(payloads, count, t.data))
    && (forall t: NewTask :: input.NewValidator(p)(t) == Valid ==> Current(payloads, count, t.payload))
  }

  // ----- The list of the component

  /** Tasks of earlier transitions than the last are not appended. */
  lemma {:induction false} EarlierNotAppended(lists: TaskLists, payloads: Payloads, count: int, n: nat, last: int,
                                              validate: NewTask -> Verdict, next: VersionedTransition, offset: int)
    requires payloads.Valid() && count + n < last
    requires forall t: NewTask :: validate(t) == Valid ==> Current(payloads, last, t.payload)
    ensures Appended(lists, Generated(payloads, count, n), validate, next, offset) == (lists, offset)
  {
    if n == 0 {
    } else {
      assert Generated(payloads, count, n)[..n - 1] == Generated(payloads, count, n - 1);
      EarlierNotAppended(lists, payloads, count, n - 1, last, validate, next, offset);
      assert payloads.decode(payloads.encode(count + n)) == count + n;
    }
  }

  lemma AppendedStep(lists: TaskLists, news: seq<NewTask>, t: NewTask, validate: NewTask -> Verdict,
                     next: VersionedTransition, offset: int)
    requires !t.isPure && Appended(lists, news, validate, next, offset) == (lists, offset)
    ensures Appended(lists, news + [t], validate, next, offset) ==
            if validate(t) == Valid then (lists.(side := lists.side + [t.Logical(next, offset)]), offset + 1)
            else (lists, offset)
  {
    assert (news + [t])[..|news|] == news;
  }

  /** Of all the tasks of a transaction, the last is appended at most. */
  lemma OnlyLastAppended(lists: TaskLists, payloads: Payloads, count: int, n: nat,
                         validate: NewTask -> Verdict, next: VersionedTransition, offset: int)
    requires payloads.Valid() && n > 0
    requires forall t: NewTask :: validate(t) == Valid ==> Current(payloads, count + n, t.payload)
    ensures var last := VisibilityTask(payloads, count + n);
            Appended(lists, Generated(payloads, count, n), validate, next, offset) ==
            if validate(last) == Valid then (lists.(side := lists.side + [last.Logical(next, offset)]), offset + 1)
            else (lists, offset)
  {
    EarlierNotAppended(lists, payloads, count, n - 1, count + n, validate, next, offset);
    AppendedStep(lists, Generated(payloads, count, n - 1), VisibilityTask(payloads, count + n), validate, next, offset);
  }

  lemma {:induction false} NoneAddsPure(news: seq<NewTask>, validate: NewTask -> Verdict)
    requires forall t | t in news :: !t.isPure
    ensures !AddsPure(news, validate)
  {
  }

  /** Once the count has moved on, cleanup removes whatever was live before. */
  lemma {:induction false} NothingKept(tasks: seq<Task>, validate: Task -> Verdict)
    requires forall t | t in tasks :: validate(t) == Invalid
    ensures Kept(tasks, validate) == []
  {
    if tasks == [] {
    } else {
      NothingKept(tasks[..|tasks| - 1], validate);
    }
  }

  /** The physical tasks that a close generates for a component. */
  function ToEmit(lists: TaskLists): seq<Task> {
    lists.side[CreatedUpTo(lists.side)..]
  }

  /** Any number of calls of generateTask in a transaction leave one live task, and at most
      one physical task. */
  lemma OneLiveAfterClose(lists: TaskLists, p: Path, input: CloseInput, offset: int, payloads: Payloads,
                          count: int, n: nat)
    requires payloads.Valid() && OneLive(lists, payloads, count)
    requires Sound(input, p, payloads, count + n) && Acceptable(lists, p, input)
    requires input.News(p) == Generated(payloads, count, n) && (n > 0 ==> input.active)
    ensures var logical := Logical(lists, p, input, offset).0;
            && OneLive(Emitted(logical), payloads, count + n)
            && |ToEmit(logical)| <= 1
            && (n > 0 && input.NewValidator(p)(VisibilityTask(payloads, count + n)) == Valid ==> |ToEmit(logical)| == 1)
  {
    var validate := input.Validator(p);
    var cleaned := if input.active then lists.Cleaned(validate) else lists;
    NoneAddsPure(input.News(p), input.NewValidator(p));
    assert payloads.decode(payloads.encode(count + n)) == count + n;
    if n > 0 {
      OnlyLastAppended(cleaned, payloads, count, n, input.NewValidator(p), input.next, offset);
      NothingKept(lists.side, validate);
    } else if input.active {
      KeptSubsequence(lists.side, validate);
      KeptChanges(lists.side, validate);
    }
    assert Kept(lists.pure, validate) == [];
    OneLiveEmitted(Logical(lists, p, input, offset).0, payloads, count + n);
  }

  lemma OneLiveEmitted(lists: TaskLists, payloads: Payloads, count: int)
    requires OneLive(lists, payloads, count)
    ensures OneLive(Emitted(lists), payloads, count) && |ToEmit(lists)| <= 1
    ensures |lists.side| == 1 && lists.side[0].status == NotCreated ==> |ToEmit(lists)| == 1
  {
    CreatedUpToMeaning(lists.side);
  }

  // ----- Within the close of a whole tree

  /** The physical tasks among `emitted` that are for the component at `p`. */
  function EmissionsAt(emitted: seq<Emission>, p: Path): seq<Emission> {
    if emitted == [] then []
    else EmissionsAt(emitted[..|emitted| - 1], p) + (if emitted[|emitted| - 1].path == p then [emitted[|emitted| - 1]]
                                                     else [])
  }

  lemma {:induction false} EmissionsAtAppend(a: seq<Emission>, b: seq<Emission>, p: Path)
    ensures EmissionsAt(a + b, p) == EmissionsAt(a, p) + EmissionsAt(b, p)
  {
    if b == [] {
      assert a + b == a;
    } else {
      assert (a + b)[..|a + b| - 1] == a + b[..|b| - 1];
      EmissionsAtAppend(a, b[..|b| - 1], p);
    }
  }

  lemma {:induction false} EmissionsAtSame(emitted: seq<Emission>, p: Path, q: Path)
    requires forall e | e in emitted :: e.path == q
    ensures EmissionsAt(emitted, p) == if p == q then emitted else []
  {
    if emitted == [] {
    } else {
      EmissionsAtSame(emitted[..|emitted| - 1], p, q);
      assert emitted == emitted[..|emitted| - 1] + [emitted[|emitted| - 1]];
    }
  }

  /** What the traversal of a close does to one component. */
  ghost predicate ClosedAt(comps: Components, order: seq<Path>, input: CloseInput, p: Path, offset: int)
    requires forall q | q in order :: q in comps
  {
    var pr := CloseAll(comps, order, input);
    if p in comps && p in order then
      var logical := Logical(comps[p], p, input, offset).0;
      pr.comps[p] == Emitted(logical) && EmissionsAt(pr.emitted, p) == EmissionsOf(p, Reverse(ToEmit(logical)))
    else
      (p in comps ==> pr.comps[p] == comps[p]) && EmissionsAt(pr.emitted, p) == []
  }

  lemma {:induction false} TraversalAt(comps: Components, order: seq<Path>, input: CloseInput, p: Path)
    returns (offset: int)
    requires NoRepeats(order) && forall q | q in order :: q in comps
    ensures ClosedAt(comps, order, input, p, offset)
  {
    offset := 1;
    if order != [] {
      NoRepeatsInit(order);
      var n := |order| - 1;
      var before := CloseAll(comps, order[..n], input);
      offset := TraversalAt(comps, order[..n], input, p);
      if order[n] == p {
        offset := before.offset;
      }
      TraversalAtOneMore(before, order[n], input, p);
    }
  }

  lemma TraversalAtOneMore(before: Progress, q: Path, input: CloseInput, p: Path)
    requires q in before.comps
    ensures var logical := Logical(before.comps[q], q, input, before.offset).0;
            EmissionsAt(CloseOne(before, q, input).emitted, p) ==
            EmissionsAt(before.emitted, p) + if p == q then EmissionsOf(p, Reverse(ToEmit(logical))) else []
  {
    var logical := Logical(before.comps[q], q, input, before.offset).0;
    var out := EmissionsOf(q, Reverse(ToEmit(logical)));
    EmissionsAtAppend(before.emitted, out, p);
    EmissionsAtSame(out, p, q);
  }

  lemma OneLiveInTraversal(comps: Components, order: seq<Path>, input: CloseInput, p: Path, payloads: Payloads,
                           count: int, n: nat)
    requires p in comps && p in order && NoRepeats(order) && forall q | q in order :: q in comps
    requires OneLive(comps[p], payloads, count) && payloads.Valid() && Sound(input, p, payloads, count + n) &&
             Acceptable(comps[p], p, input)
    requires input.News(p) == Generated(payloads, count, n) && (n > 0 ==> input.active)
    ensures OneLive(CloseAll(comps, order, input).comps[p], payloads, count + n)
    ensures |EmissionsAt(CloseAll(comps, order, input).emitted, p)| <= 1
  {
    var offset := TraversalAt(comps, order, input, p);
    OneLiveAfterClose(comps[p], p, input, offset, payloads, count, n);
    ReverseMembers(ToEmit(Logical(comps[p], p, input, offset).0));
  }

  lemma MarkingKeepsOneLive(pr: Progress, timers: set<Time>, dropped: set<Time>, p: Path, payloads: Payloads,
                            count: int)
    requires p in pr.comps && OneLive(pr.comps[p], payloads, count)
    ensures var comps := WithFirstTimer(pr, timers, dropped).0; p in comps && OneLive(comps[p], payloads, count)
  {
  }

  /** After every close of the tree the visibility component has at most one logical task,
      the one with the transition count of its data, and the close has generated at most one
      physical task for it. */
  lemma OneLiveInClose(s: Cluster, e: Event, p: Path, payloads: Payloads, count: int, n: nat)
    requires e.Close? && Enabled(s, e) && p in s.comps && OneLive(s.comps[p], payloads, count)
    requires payloads.Valid() && Sound(e.input, p, payloads, count + n)
    requires e.input.News(p) == Generated(payloads, count, n) && (n > 0 ==> e.input.active)
    ensures p in Exec(s, e).comps && OneLive(Exec(s, e).comps[p], payloads, count + n)
    ensures |EmissionsAt(CloseAll(s.comps, e.order, e.input).emitted, p)| <= 1
  {
    OneLiveInTraversal(s.comps, e.order, e.input, p, payloads, count, n);
    MarkingKeepsOneLive(CloseAll(s.comps, e.order, e.input), s.timers, e.dropped, p, payloads, count + n);
  }

  // ----- Whole runs

  /** What the visibility component at `p` goes through in a step of its active cluster, with
      its transition count before and after. */
  ghost predicate VisibilityStep(e: Event, p: Path, payloads: Payloads, count: int, count': int) {
    match e
    case Close(_, input, _) =>
      && count <= count' && Sound(input, p, payloads, count')
      && input.News(p) == Generated(payloads, count, count' - count) && (count < count' ==> input.active)
    case RemoveComponents(paths) => p !in paths && count' == count
    case Replicate(_, _) => false
    case _ => count' == count
  }

  lemma VisibilityStepKeeps(s: Cluster, e: Event, p: Path, payloads: Payloads, count: int, count': int)
    requires Enabled(s, e) && payloads.Valid() && VisibilityStep(e, p, payloads, count, count')
    requires p in s.comps && OneLive(s.comps[p], payloads, count)
    ensures p in Exec(s, e).comps && OneLive(Exec(s, e).comps[p], payloads, count')
  {
    if e.Close? {
      OneLiveInClose(s, e, p, payloads, count, count' - count);
    }
  }

  ghost predicate VisibilityRun(events: seq<Event>, counts: seq<int>, p: Path, payloads: Payloads, m: nat)
    requires |counts| == |events| + 1
  {
    forall i: nat | m <= i < |events| :: VisibilityStep(events[i], p, payloads, counts[i], counts[i + 1])
  }

  ghost predicate OneLiveAt(states: seq<Cluster>, counts: seq<int>, p: Path, payloads: Payloads, i: nat)
    requires i < |states| && i < |counts|
  {
    p in states[i].comps && OneLive(states[i].comps[p], payloads, counts[i])
  }

  lemma StepInRun(states: seq<Cluster>, events: seq<Event>, p: Path, payloads: Payloads, counts: seq<int>, i: nat)
    requires |states| == |events| + 1 == |counts| && i < |events|
    requires Enabled(states[i], events[i]) && states[i + 1] == Exec(states[i], events[i])
    requires VisibilityStep(events[i], p, payloads, counts[i], counts[i + 1])
    requires payloads.Valid() && OneLiveAt(states, counts, p, payloads, i)
    ensures OneLiveAt(states, counts, p, payloads, i + 1)
  {
    VisibilityStepKeeps(states[i], events[i], p, payloads, counts[i], counts[i + 1]);
  }

  /** In all of a run after its creation, whatever transactions, refreshes and changes of
      other components happen, the visibility component has at most one logical task. */
  lemma OneLiveInRun(states: seq<Cluster>, events: seq<Event>, p: Path, payloads: Payloads, counts: seq<int>,
                     m: nat, n: nat)
    requires IsRun(states, events) && |counts| == |states| && m <= n < |states|
    requires payloads.Valid() && VisibilityRun(events, counts, p, payloads, m) &&
             OneLiveAt(states, counts, p, payloads, m)
    ensures OneLiveAt(states, counts, p, payloads, n)
  {
    var i := m;
    while i < n
      invariant m <= i <= n && OneLiveAt(states, counts, p, payloads, i)
    {
      StepInRun(states, events, p, payloads, counts, i);
      i := i + 1;
    }
  }
}
