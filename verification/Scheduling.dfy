/** All pure tasks have a scheduled time (chasm/tree.go, closeTransactionHandleNewTasks), so the
    early exit of EachPureTask loses nothing in any run. */
module Scheduling {
  import opened PathEncoder
  import opened Tasks
  import opened TaskFacts
  import opened CloseTasks
  import opened Runs
  import opened PureTasks

  predicate AllTimed(tasks: seq<Task>) {
    forall t | t in tasks :: t.scheduled.Some?
  }

  predicate Timed(comps: Components) {
    forall p | p in comps :: AllTimed(comps[p].pure)
  }

  lemma {:induction false} AppendedTimed(lists: TaskLists, news: seq<NewTask>, validate: NewTask -> Verdict,
                                         next: VersionedTransition, offset: int)
    requires AllTimed(lists.pure)
    ensures AllTimed(Appended(lists, news, validate, next, offset).0.pure)
  {
    if news == [] {
    } else {
      AppendedTimed(lists, news[..|news| - 1], validate, next, offset);
    }
  }

  lemma LogicalTimed(lists: TaskLists, p: Path, input: CloseInput, offset: int)
    requires AllTimed(lists.pure)
    ensures AllTimed(Logical(lists, p, input, offset).0.pure)
  {
    var cleaned := if input.active then lists.Cleaned(input.Validator(p)) else lists;
    KeptSubsequence(lists.pure, input.Validator(p));
    AppendedTimed(cleaned, input.News(p), input.NewValidator(p), input.next, offset);
    SortFuncMembers(ByPureKey, Appended(cleaned, input.News(p), input.NewValidator(p), input.next, offset).0.pure);
  }

  lemma {:induction false} CloseAllTimed(comps: Components, order: seq<Path>, input: CloseInput)
    requires Timed(comps) && forall p | p in order :: p in comps
    ensures Timed(CloseAll(comps, order, input).comps)
  {
    if order == [] {
    } else {
      var p, init := order[|order| - 1], order[..|order| - 1];
      CloseAllTimed(comps, init, input);
      LogicalTimed(CloseAll(comps, init, input).comps[p], p, input, CloseAll(comps, init, input).offset);
    }
  }

  lemma CarriedTimed(order: Order, source: seq<Task>, target: seq<Task>)
    requires AllTimed(target)
    ensures AllTimed(Merge(order, source, target)) && AllTimed(Reset(target))
  {
    forall t | t in Merge(order, source, target)
      ensures t.scheduled.Some?
    {
      var j :| 0 <= j < |Merge(order, source, target)| && Merge(order, source, target)[j] == t;
      MergeKeepsTasks(order, source, target, j);
    }
  }

  lemma StepTimed(s: Cluster, e: Event)
    requires Timed(s.comps) && Enabled(s, e) && (e.Replicate? ==> Timed(e.incoming))
    ensures Timed(Exec(s, e).comps)
  {
    match e
    case Close(order, input, dropped) => CloseAllTimed(s.comps, order, input);
    case CreateComponent(_) =>
    case RemoveComponents(_) =>
    case RefreshTasks =>
    case Replicate(incoming, _) =>
      forall p | p in incoming
        ensures AllTimed(Exec(s, e).comps[p].pure)
      {
        CarriedTimed(ByPureKey, if p in s.comps then s.comps[p].pure else [], incoming[p].pure);
      }
  }

  /** In every state of every run, if what is replicated has times as well, every pure task has
      its time; so no list of pure tasks is ever cut short before a task that is due. */
  lemma {:induction false} TimedInRun(states: seq<Cluster>, events: seq<Event>, n: nat)
    requires IsRun(states, events) && n < |states| && forall e | e in events && e.Replicate? :: Timed(e.incoming)
    ensures Timed(states[n].comps)
    ensures forall reference :: Scannable(states[n].comps, reference)
  {
    if n > 0 {
      TimedInRun(states, events, n - 1);
      assert events[n - 1] in events && Enabled(states[n - 1], events[n - 1]);
      StepTimed(states[n - 1], events[n - 1]);
    }
    RunKeepsInv(states, events, n);
  }
}
