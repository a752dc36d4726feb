/** Which tasks a close takes up, and which it keeps (chasm/tree.go, the task part of
    CloseTransaction): each valid new task stands in the list of its kind, with its attributes,
    and apart from those nothing is there but what was there before. */
module NewTasks {
  import opened Basics
  import opened PathEncoder
  import opened Tasks
  import opened CloseTasks
  import opened Runs

  // ----- What is promised

  /** The logical task made of a new one, as the `offset`-th of the transaction `next`. */
  predicate Made(nt: NewTask, next: VersionedTransition, offset: int, u: Task) {
    && u.typeId == nt.typeId && u.destination == nt.destination && u.scheduled == Some(nt.scheduled)
    && u.data == nt.payload && u.vt == next && u.offset == offset
  }

  /** The old task has stayed; at most its physical task has been generated. */
  predicate Stays(t: Task, u: Task) {
    u == t || u == t.(status := Created)
  }

  /** How many of the new tasks of the component at `p` are found valid. */
  function NumValid(p: Path, news: seq<NewTask>, validators: Validators): nat {
    if news == [] then 0
    else
      NumValid(p, news[..|news| - 1], validators) +
      if validators.validateNew(p, news[|news| - 1]) == Valid then 1 else 0
  }

  /** The list has a task that the old task `t` has become. */
  ghost predicate Has(after: seq<Task>, t: Task) {
    exists u | u in after :: Stays(t, u)
  }

  /** The `i`-th new task is found valid and belongs into this list. */
  predicate Wanted(p: Path, news: seq<NewTask>, validators: Validators, pure: bool, i: nat) {
    i < |news| && news[i].isPure == pure && validators.validateNew(p, news[i]) == Valid
  }

  /** `u` is the logical task of the `i`-th new one; valid ones are numbered from `base` on. */
  predicate MadeAt(p: Path, news: seq<NewTask>, validators: Validators, next: VersionedTransition, base: int, i: nat,
                   u: Task) {
    i < |news| && Made(news[i], next, base + NumValid(p, news[..i], validators), u)
  }

  ghost predicate HasNew(p: Path, news: seq<NewTask>, validators: Validators, next: VersionedTransition, base: int,
                         after: seq<Task>, i: nat)
  {
    exists u | u in after :: MadeAt(p, news, validators, next, base, i, u)
  }

  /** `u` is an old task that is still valid, or one of the new ones. */
  ghost predicate OldOrNew(p: Path, before: seq<Task>, pure: bool, active: bool, validators: Validators,
                           news: seq<NewTask>, next: VersionedTransition, base: int, u: Task)
  {
    || (exists t | t in before :: Stays(t, u) && !(active && validators.validate(p, t) == Invalid))
    || (exists i: nat :: Wanted(p, news, validators, pure, i) && MadeAt(p, news, validators, next, base, i, u))
  }

  /** One list of the component at `p` before and after: on the active side invalid tasks are
      gone, all others stay, and the valid new tasks of this kind have joined. */
  ghost predicate ListUpdated(p: Path, before: seq<Task>, after: seq<Task>, pure: bool, active: bool,
                              validators: Validators, news: seq<NewTask>, next: VersionedTransition, base: int)
  {
    && (forall t | t in before && !(active && validators.validate(p, t) == Invalid) :: Has(after, t))
    && (forall i: nat | Wanted(p, news, validators, pure, i) :: HasNew(p, news, validators, next, base, after, i))
    && (forall u | u in after :: OldOrNew(p, before, pure, active, validators, news, next, base, u))
  }

  ghost predicate ListsUpdated(p: Path, before: TaskLists, after: TaskLists, active: bool, validators: Validators,
                               news: seq<NewTask>, next: VersionedTransition, base: int)
  {
    && ListUpdated(p, before.side, after.side, false, active, validators, news, next, base)
    && ListUpdated(p, before.pure, after.pure, true, active, validators, news, next, base)
  }

  /** The tasks of a transaction are numbered from one on. */
  ghost predicate Updated(p: Path, before: TaskLists, after: TaskLists, active: bool, validators: Validators,
                          news: seq<NewTask>, next: VersionedTransition)
  {
    exists base: int :: base >= 1 && ListsUpdated(p, before, after, active, validators, news, next, base)
  }

  // ----- One component

  /** One list after appending: what it had, and the valid new tasks of its kind. */
  ghost predicate ListAppended(p: Path, before: seq<Task>, after: seq<Task>, pure: bool, validators: Validators,
                               news: seq<NewTask>, next: VersionedTransition, base: int)
  {
    && (forall t | t in before :: t in after)
    && (forall i: nat | Wanted(p, news, validators, pure, i) :: HasNew(p, news, validators, next, base, after, i))
    && (forall u | u in after && u !in before :: Joined(p, pure, validators, news, next, base, u))
  }

  ghost predicate Joined(p: Path, pure: bool, validators: Validators, news: seq<NewTask>, next: VersionedTransition,
                         base: int, u: Task)
  {
    exists i: nat :: Wanted(p, news, validators, pure, i) && MadeAt(p, news, validators, next, base, i, u)
  }

  lemma AppendedOther(p: Path, before: seq<Task>, after: seq<Task>, pure: bool, validators: Validators,
                      news: seq<NewTask>, nt: NewTask, next: VersionedTransition, base: int)
    requires ListAppended(p, before, after, pure, validators, news, next, base)
    requires validators.validateNew(p, nt) != Valid || nt.isPure != pure
    ensures ListAppended(p, before, after, pure, validators, news + [nt], next, base)
  {
    ListAppendedMore(p, before, after, pure, validators, news, nt, next, base);
    forall i: nat | Wanted(p, news + [nt], validators, pure, i)
      ensures HasNew(p, news + [nt], validators, next, base, after, i)
    {
      assert Wanted(p, news, validators, pure, i);
    }
  }

  /** What has joined before one more new task is looked at has joined afterwards. */
  lemma ListAppendedMore(p: Path, before: seq<Task>, after: seq<Task>, pure: bool, validators: Validators,
                         news: seq<NewTask>, nt: NewTask, next: VersionedTransition, base: int)
    requires ListAppended(p, before, after, pure, validators, news, next, base)
    ensures forall i: nat | Wanted(p, news, validators, pure, i) ::
              Wanted(p, news + [nt], validators, pure, i) && HasNew(p, news + [nt], validators, next, base, after, i)
    ensures forall u | u in after && u !in before :: Joined(p, pure, validators, news + [nt], next, base, u)
  {
    forall i: nat, u | i < |news| && MadeAt(p, news, validators, next, base, i, u)
      ensures MadeAt(p, news + [nt], validators, next, base, i, u)
    {
      assert (news + [nt])[..i] == news[..i];
    }
    forall i: nat | Wanted(p, news, validators, pure, i)
      ensures Wanted(p, news + [nt], validators, pure, i) && HasNew(p, news + [nt], validators, next, base, after, i)
    {
      var u :| u in after && MadeAt(p, news, validators, next, base, i, u);
      assert MadeAt(p, news + [nt], validators, next, base, i, u);
    }
    forall u | u in after && u !in before
      ensures Joined(p, pure, validators, news + [nt], next, base, u)
    {
      assert Joined(p, pure, validators, news, next, base, u);
      var i: nat :| Wanted(p, news, validators, pure, i) && MadeAt(p, news, validators, next, base, i, u);
      assert Wanted(p, news + [nt], validators, pure, i);
    }
  }

  lemma AppendedHere(p: Path, before: seq<Task>, after: seq<Task>, pure: bool, validators: Validators,
                     news: seq<NewTask>, nt: NewTask, next: VersionedTransition, base: int, u: Task)
    requires ListAppended(p, before, after, pure, validators, news, next, base)
    requires validators.validateNew(p, nt) == Valid && nt.isPure == pure
    requires Made(nt, next, base + NumValid(p, news, validators), u)
    ensures ListAppended(p, before, after + [u], pure, validators, news + [nt], next, base)
  {
    ListAppendedMore(p, before, after, pure, validators, news, nt, next, base);
    var n := |news|;
    assert (news + [nt])[..n] == news;
    assert MadeAt(p, news + [nt], validators, next, base, n, u) && Wanted(p, news + [nt], validators, pure, n);
    forall i: nat | Wanted(p, news + [nt], validators, pure, i)
      ensures HasNew(p, news + [nt], validators, next, base, after + [u], i)
    {
      if i == n {
        assert u in after + [u];
      } else {
        assert Wanted(p, news, validators, pure, i);
        var v :| v in after && MadeAt(p, news + [nt], validators, next, base, i, v);
        assert v in after + [u];
      }
    }
    forall v | v in after + [u] && v !in before
      ensures Joined(p, pure, validators, news + [nt], next, base, v)
    {
    }
  }

  lemma {:induction false} AppendedTakes(lists: TaskLists, p: Path, news: seq<NewTask>, validators: Validators,
                                         next: VersionedTransition, offset: int)
    ensures var (out, o) := Appended(lists, news, validators.New(p), next, offset);
            && o == offset + NumValid(p, news, validators)
            && ListAppended(p, lists.side, out.side, false, validators, news, next, offset)
            && ListAppended(p, lists.pure, out.pure, true, validators, news, next, offset)
  {
    if news == [] {
    } else {
      var n := |news| - 1;
      var nt := news[n];
      assert news == news[..n] + [nt];
      AppendedTakes(lists, p, news[..n], validators, next, offset);
      var (sofar, o) := Appended(lists, news[..n], validators.New(p), next, offset);
      var u := nt.Logical(next, o);
      if validators.validateNew(p, nt) != Valid {
        AppendedOther(p, lists.side, sofar.side, false, validators, news[..n], nt, next, offset);
        AppendedOther(p, lists.pure, sofar.pure, true, validators, news[..n], nt, next, offset);
      } else if nt.isPure {
        AppendedOther(p, lists.side, sofar.side, false, validators, news[..n], nt, next, offset);
        AppendedHere(p, lists.pure, sofar.pure, true, validators, news[..n], nt, next, offset, u);
      } else {
        AppendedHere(p, lists.side, sofar.side, false, validators, news[..n], nt, next, offset, u);
        AppendedOther(p, lists.pure, sofar.pure, true, validators, news[..n], nt, next, offset);
      }
    }
  }

  /** Every task of `after` is one of `added`, at most marked, and none of those is missing. */
  ghost predicate OnlyMarked(added: seq<Task>, after: seq<Task>) {
    && (forall t | t in added :: Has(after, t))
    && forall u | u in after :: ComesFrom(added, u)
  }

  ghost predicate ComesFrom(added: seq<Task>, u: Task) {
    exists t | t in added :: Stays(t, u)
  }

  lemma NewIsMarked(p: Path, news: seq<NewTask>, validators: Validators, next: VersionedTransition, base: int,
                    added: seq<Task>, after: seq<Task>, i: nat)
    requires OnlyMarked(added, after) && HasNew(p, news, validators, next, base, added, i)
    ensures HasNew(p, news, validators, next, base, after, i)
  {
    var t :| t in added && MadeAt(p, news, validators, next, base, i, t);
    var u :| u in after && Stays(t, u);
    assert MadeAt(p, news, validators, next, base, i, u);
  }

  lemma MarkedOldOrNew(p: Path, before: seq<Task>, kept: seq<Task>, added: seq<Task>, pure: bool, active: bool,
                       validators: Validators, news: seq<NewTask>, next: VersionedTransition, base: int, u: Task)
    requires forall t | t in kept :: t in before && !(active && validators.validate(p, t) == Invalid)
    requires ListAppended(p, kept, added, pure, validators, news, next, base) && ComesFrom(added, u)
    ensures OldOrNew(p, before, pure, active, validators, news, next, base, u)
  {
    var t :| t in added && Stays(t, u);
    if t !in kept {
      assert Joined(p, pure, validators, news, next, base, t);
      var i: nat :| Wanted(p, news, validators, pure, i) && MadeAt(p, news, validators, next, base, i, t);
      assert MadeAt(p, news, validators, next, base, i, u);
    }
  }

  /** Marking tasks does not take any out of the list, or put any in. */
  lemma MarkingUpdates(p: Path, before: seq<Task>, kept: seq<Task>, added: seq<Task>, after: seq<Task>, pure: bool,
                       active: bool, validators: Validators, news: seq<NewTask>, next: VersionedTransition, base: int)
    requires forall t :: t in kept <==> t in before && !(active && validators.validate(p, t) == Invalid)
    requires ListAppended(p, kept, added, pure, validators, news, next, base) && OnlyMarked(added, after)
    ensures ListUpdated(p, before, after, pure, active, validators, news, next, base)
  {
    forall i: nat | Wanted(p, news, validators, pure, i)
      ensures HasNew(p, news, validators, next, base, after, i)
    {
      NewIsMarked(p, news, validators, next, base, added, after, i);
    }
    forall u | u in after
      ensures OldOrNew(p, before, pure, active, validators, news, next, base, u)
    {
      MarkedOldOrNew(p, before, kept, added, pure, active, validators, news, next, base, u);
    }
  }

  lemma MarkedFromStays(tasks: seq<Task>, n: nat)
    requires n <= |tasks|
    ensures OnlyMarked(tasks, MarkedFrom(tasks, n))
  {
    var out := MarkedFrom(tasks, n);
    forall t | t in tasks
      ensures Has(out, t)
    {
      var i :| 0 <= i < |tasks| && tasks[i] == t;
      assert out[i] in out && Stays(t, out[i]);
    }
    forall u | u in out
      ensures ComesFrom(tasks, u)
    {
      var i :| 0 <= i < |out| && out[i] == u;
      assert tasks[i] in tasks && Stays(tasks[i], u);
    }
  }

  /** Sorted, and the first task marked if `first` says so. */
  lemma SortedMarkedStays(added: seq<Task>, sorted: seq<Task>, first: bool, after: seq<Task>)
    requires forall t :: t in sorted <==> t in added
    requires after == if first && sorted != [] then sorted[0 := MarkCreated(sorted[0])] else sorted
    ensures OnlyMarked(added, after)
  {
    forall t | t in added
      ensures Has(after, t)
    {
      var i :| 0 <= i < |sorted| && sorted[i] == t;
      assert after[i] in after && Stays(t, after[i]);
    }
    forall u | u in after
      ensures ComesFrom(added, u)
    {
      var i :| 0 <= i < |after| && after[i] == u;
      assert sorted[i] in sorted && Stays(sorted[i], u);
    }
  }

  /** The lists that a close leaves, if `first` is the component with the first pure task. */
  function ClosedLists(lists: TaskLists, p: Path, input: CloseInput, offset: int, first: bool): TaskLists {
    var out := Emitted(Logical(lists, p, input, offset).0);
    if first && out.pure != [] then out.(pure := out.pure[0 := MarkCreated(out.pure[0])]) else out
  }

  lemma ClosedListsUpdated(lists: TaskLists, p: Path, input: CloseInput, offset: int, first: bool)
    ensures ListsUpdated(p, lists, ClosedLists(lists, p, input, offset, first), input.active, input.validators,
                         input.News(p), input.next, offset)
  {
    var v, news := input.validators, input.News(p);
    var kept := if input.active then lists.Cleaned(input.Validator(p)) else lists;
    KeptExactly(lists.side, input.Validator(p));
    KeptExactly(lists.pure, input.Validator(p));
    AppendedTakes(kept, p, news, v, input.next, offset);
    var added := Appended(kept, news, v.New(p), input.next, offset).0;
    var logical := Logical(lists, p, input, offset).0;
    MarkedFromStays(added.side, CreatedUpTo(added.side));
    MarkingUpdates(p, lists.side, kept.side, added.side, Emitted(logical).side, false, input.active, v, news,
                   input.next, offset);
    SortFuncMembers(ByPureKey, added.pure);
    var after := ClosedLists(lists, p, input, offset, first).pure;
    SortedMarkedStays(added.pure, logical.pure, first, after);
    MarkingUpdates(p, lists.pure, kept.pure, added.pure, after, true, input.active, v, news, input.next, offset);
  }

  // ----- A whole close

  /** How many new tasks of these components are found valid. */
  function ValidAmong(order: seq<Path>, input: CloseInput): nat {
    if order == [] then 0
    else
      var p := order[|order| - 1];
      ValidAmong(order[..|order| - 1], input) + NumValid(p, input.News(p), input.validators)
  }

  lemma {:induction false} OffsetCounts(comps: Components, order: seq<Path>, input: CloseInput)
    requires forall q | q in order :: q in comps
    ensures CloseAll(comps, order, input).offset == 1 + ValidAmong(order, input)
  {
    if order != [] {
      var n := |order| - 1;
      OffsetCounts(comps, order[..n], input);
      var before := CloseAll(comps, order[..n], input);
      NextOffset(before.comps[order[n]], order[n], input, before.offset);
    }
  }

  lemma NextOffset(lists: TaskLists, p: Path, input: CloseInput, offset: int)
    ensures Logical(lists, p, input, offset).1 == offset + NumValid(p, input.News(p), input.validators)
  {
    var kept := if input.active then lists.Cleaned(input.Validator(p)) else lists;
    AppendedTakes(kept, p, input.News(p), input.validators, input.next, offset);
  }

  lemma CloseLastAt(comps: Components, order: seq<Path>, input: CloseInput, p: Path, before: Progress)
    requires order != [] && p in comps && (forall q | q in order :: q in comps)
    requires before == CloseAll(comps, order[..|order| - 1], input)
    ensures CloseAll(comps, order, input).comps[p] ==
            if order[|order| - 1] == p then Emitted(Logical(before.comps[p], p, input, before.offset).0)
            else before.comps[p]
  {
  }

  lemma {:induction false} NotVisited(comps: Components, order: seq<Path>, input: CloseInput, p: Path)
    requires (forall q | q in order :: q in comps) && p in comps && p !in order
    ensures CloseAll(comps, order, input).comps[p] == comps[p]
  {
    if order != [] {
      var n := |order| - 1;
      NotVisited(comps, order[..n], input, p);
      CloseLastAt(comps, order, input, p, CloseAll(comps, order[..n], input));
    }
  }

  /** A component is closed when the traversal comes to it, and not touched again. */
  lemma {:induction false} VisitedOnce(comps: Components, order: seq<Path>, i: nat, input: CloseInput, offset: int)
    requires NoRepeats(order) && (forall q | q in order :: q in comps) && i < |order|
    requires offset == CloseAll(comps, order[..i], input).offset
    ensures CloseAll(comps, order, input).comps[order[i]] ==
            Emitted(Logical(comps[order[i]], order[i], input, offset).0)
  {
    var n, p := |order| - 1, order[i];
    NoRepeatsInit(order);
    if i == n {
      NotVisited(comps, order[..n], input, p);
    } else {
      assert order[..n][..i] == order[..i];
      VisitedOnce(comps, order[..n], i, input, offset);
    }
    CloseLastAt(comps, order, input, p, CloseAll(comps, order[..n], input));
  }

  /** At most the first pure task of a component is marked when the earliest one gets its timer. */
  lemma MarkedOrNot(pr: Progress, timers: set<Time>, dropped: set<Time>, p: Path) returns (first: bool)
    requires p in pr.comps
    ensures var comps := WithFirstTimer(pr, timers, dropped).0;
            && p in comps
            && comps[p] == if first && pr.comps[p].pure != [] then
                             pr.comps[p].(pure := pr.comps[p].pure[0 := MarkCreated(pr.comps[p].pure[0])])
                           else pr.comps[p]
  {
    first := pr.first == Some(p) && pr.comps[p].pure != [] && pr.comps[p].pure[0].status != Created;
  }

  lemma FirstIsMarked(s: Cluster, e: Event, p: Path, offset: int) returns (first: bool)
    requires e.Close? && Enabled(s, e) && p in s.comps
    requires CloseAll(s.comps, e.order, e.input).comps[p] == Emitted(Logical(s.comps[p], p, e.input, offset).0)
    ensures p in Exec(s, e).comps && Exec(s, e).comps[p] == ClosedLists(s.comps[p], p, e.input, offset, first)
  {
    first := MarkedOrNot(CloseAll(s.comps, e.order, e.input), s.timers, e.dropped, p);
  }

  lemma MarkedIsUpdated(s: Cluster, e: Event, p: Path, offset: int)
    requires e.Close? && Enabled(s, e) && p in s.comps
    requires CloseAll(s.comps, e.order, e.input).comps[p] == Emitted(Logical(s.comps[p], p, e.input, offset).0)
    ensures p in Exec(s, e).comps
    ensures ListsUpdated(p, s.comps[p], Exec(s, e).comps[p], e.input.active, e.input.validators, e.input.News(p),
                         e.input.next, offset)
  {
    var first := FirstIsMarked(s, e, p, offset);
    ClosedListsUpdated(s.comps[p], p, e.input, offset, first);
  }

  /** A component gets exactly its valid new tasks, when the traversal comes to it as the `i`-th:
      the tasks of the whole transaction are numbered one by one, from one on. */
  lemma CloseNumbers(s: Cluster, e: Event, p: Path) returns (i: nat, base: int)
    requires e.Close? && Enabled(s, e) && p in s.comps
    ensures i < |e.order| && e.order[i] == p && base == 1 + ValidAmong(e.order[..i], e.input)
    ensures p in Exec(s, e).comps
    ensures ListsUpdated(p, s.comps[p], Exec(s, e).comps[p], e.input.active, e.input.validators, e.input.News(p),
                         e.input.next, base)
  {
    assert p in e.order;
    i :| 0 <= i < |e.order| && e.order[i] == p;
    OffsetCounts(s.comps, e.order[..i], e.input);
    base := 1 + ValidAmong(e.order[..i], e.input);
    VisitedOnce(s.comps, e.order, i, e.input, base);
    MarkedIsUpdated(s, e, p, base);
  }

  /** Every component of the tree gets exactly its valid new tasks. */
  lemma CloseUpdates(s: Cluster, e: Event, p: Path)
    requires e.Close? && Enabled(s, e) && p in s.comps
    ensures p in Exec(s, e).comps
    ensures Updated(p, s.comps[p], Exec(s, e).comps[p], e.input.active, e.input.validators, e.input.News(p),
                    e.input.next)
  {
    var i, base := CloseNumbers(s, e, p);
  }
}
