/** Logical tasks of a component, their two orders, and the list operations the tree
    applies to them (chasm/tree.go). */
module Tasks {
  import opened Basics

  /** A versioned transition; a missing one is the zero value. */
  datatype VersionedTransition = VT(version: int, count: int)

  const ZERO_VT := VT(0, 0)

  /** Nanoseconds since Go's zero time, which is also the time of an immediate task. */
  type Time = int

  const IMMEDIATE: Time := 0
  const UNIX_EPOCH: Time := 62135596800 * 1000000000

  /** The identity of a serialized payload. */
  type Blob = int

  datatype Status = NotCreated | Created

  datatype Task = Task(typeId: int, destination: string, scheduled: Option<Time>, data: Blob,
                       vt: VersionedTransition, offset: int, status: Status)
  {
    /** A missing timestamp converts to the Unix epoch. */
    function AsTime(): Time {
      if scheduled.Some? then scheduled.value else UNIX_EPOCH
    }

    function Key(): TaskKey {
      TaskKey(vt, offset)
    }
  }

  datatype TaskKey = TaskKey(vt: VersionedTransition, offset: int)

  datatype Order = BySideEffectKey | ByPureKey

  function CompareInt(a: int, b: int): int {
    if a < b then -1 else if a > b then 1 else 0
  }

  function CompareVT(a: VersionedTransition, b: VersionedTransition): int {
    if a.version != b.version then CompareInt(a.version, b.version) else CompareInt(a.count, b.count)
  }

  function CompareSideEffectTasks(a: Task, b: Task): int {
    var r := CompareVT(a.vt, b.vt);
    if r != 0 then r else CompareInt(a.offset, b.offset)
  }

  function ComparePureTasks(a: Task, b: Task): int {
    var r := CompareInt(a.AsTime(), b.AsTime());
    if r != 0 then r else CompareSideEffectTasks(a, b)
  }

  function Compare(order: Order, a: Task, b: Task): int {
    match order
    case BySideEffectKey => CompareSideEffectTasks(a, b)
    case ByPureKey => ComparePureTasks(a, b)
  }

  ghost predicate Sorted(order: Order, tasks: seq<Task>) {
    forall i, j | 0 <= i < j < |tasks| :: Compare(order, tasks[i], tasks[j]) < 0
  }

  // ----- carryOverTaskStatus

  /** The list that carryOverTaskStatus leaves in place of `target`. */
  function Merge(order: Order, source: seq<Task>, target: seq<Task>): (out: seq<Task>)
    ensures |out| == |target|
  {
    if target == [] then []
    else if source == [] then [target[0].(status := NotCreated)] + Merge(order, source, target[1..])
    else
      var c := Compare(order, source[0], target[0]);
      if c == 0 then
        [target[0].(status := source[0].status, data := source[0].data)] + Merge(order, source[1..], target[1..])
      else if c < 0 then Merge(order, source[1..], target)
      else [target[0].(status := NotCreated)] + Merge(order, source, target[1..])
  }

  /** The payloads that it evicts from the cache of deserialized tasks. */
  function Evicted(order: Order, source: seq<Task>, target: seq<Task>): set<Blob> {
    if source == [] then {}
    else if target == [] then {source[0].data} + Evicted(order, source[1..], target)
    else
      var c := Compare(order, source[0], target[0]);
      if c == 0 then Evicted(order, source[1..], target[1..])
      else if c < 0 then {source[0].data} + Evicted(order, source[1..], target)
      else Evicted(order, source, target[1..])
  }

  /** What the loops of CarryOverTaskStatus still have to do at (`i`, `j`): the rest of the list they
      will produce, and the payloads they will evict. */
  ghost function MergeFrom(order: Order, source: seq<Task>, i: nat, target: seq<Task>, j: nat): seq<Task>
    requires i <= |source| && j <= |target|
  {
    Merge(order, source[i..], target[j..])
  }

  ghost function EvictedFrom(order: Order, source: seq<Task>, i: nat, target: seq<Task>, j: nat): set<Blob>
    requires i <= |source| && j <= |target|
  {
    Evicted(order, source[i..], target[j..])
  }

  /** The state of the loops at (`i`, `j`): what is done and what is left make up the result. */
  ghost predicate CarryState(order: Order, source: seq<Task>, i: nat, target: seq<Task>, j: nat, cache: set<Blob>,
                             out: seq<Task>, cache': set<Blob>)
  {
    && i <= |source| && j <= |target| == |out| && out[j..] == target[j..]
    && out[..j] + MergeFrom(order, source, i, target, j) == Merge(order, source, target)
    && cache' - EvictedFrom(order, source, i, target, j) == cache - Evicted(order, source, target)
  }

  lemma UpdateExtendsPrefix<T>(s: seq<T>, i: nat, x: T, rest: seq<T>)
    requires i < |s|
    ensures s[i := x][..i + 1] + rest == s[..i] + ([x] + rest)
    ensures s[i := x][i + 1..] == s[i..][1..]
  {
  }

  lemma RemoveTwice(s: set<Blob>, x: Blob, r: set<Blob>)
    ensures s - {x} - r == s - ({x} + r)
  {
  }

  /** A target task is done, with the status that the merge gives it. */
  lemma TargetDone(order: Order, source: seq<Task>, i: nat, target: seq<Task>, j: nat, cache: set<Blob>, out: seq<Task>,
                   cache': set<Blob>)
    requires CarryState(order, source, i, target, j, cache, out, cache') && j < |target|
    ensures out[j] == target[j]
    ensures i == |source| || Compare(order, source[i], target[j]) > 0 ==>
      CarryState(order, source, i, target, j + 1, cache, out[j := target[j].(status := NotCreated)], cache')
    ensures i < |source| && Compare(order, source[i], target[j]) == 0 ==>
      CarryState(order, source, i + 1, target, j +
                 1, cache, out[j := target[j].(status := source[i].status, data := source[i].data)], cache')
  {
    assert target[j..][0] == target[j] && target[j..][1..] == target[j + 1..] && out[j..][0] == out[j];
    if i < |source| {
      assert source[i..][0] == source[i] && source[i..][1..] == source[i + 1..];
      UpdateExtendsPrefix(out, j, target[j].(status := source[i].status, data := source[i].data),
                          MergeFrom(order, source, i + 1, target, j + 1));
    }
    UpdateExtendsPrefix(out, j, target[j].(status := NotCreated), MergeFrom(order, source, i, target, j + 1));
  }

  /** A source task is skipped: it has no counterpart, and its payload is evicted. */
  lemma SourceSkipped(order: Order, source: seq<Task>, i: nat, target: seq<Task>, j: nat, cache: set<Blob>,
                      out: seq<Task>, cache': set<Blob>)
    requires CarryState(order, source, i, target, j, cache, out, cache') && i < |source|
    requires j == |target| || Compare(order, source[i], target[j]) < 0
    ensures CarryState(order, source, i + 1, target, j, cache, out, cache' - {source[i].data})
  {
    assert source[i..][0] == source[i] && source[i..][1..] == source[i + 1..];
    if j < |target| {
      assert target[j..][0] == target[j];
    }
    RemoveTwice(cache', source[i].data, EvictedFrom(order, source, i + 1, target, j));
  }

  lemma CarryStarts(order: Order, source: seq<Task>, target: seq<Task>, cache: set<Blob>)
    ensures CarryState(order, source, 0, target, 0, cache, target, cache)
  {
    assert source[0..] == source && target[0..] == target;
  }

  method CarryOverTaskStatus(order: Order, source: seq<Task>, target: seq<Task>, cache: set<Blob>)
    returns (out: seq<Task>, cache': set<Blob>)
    ensures out == Merge(order, source, target)
    ensures cache' == cache - Evicted(order, source, target)
  {
    var sourceIdx, targetIdx;
    out, cache', sourceIdx, targetIdx := CarryOverWhileBoth(order, source, target, cache);
    while targetIdx < |out|
      invariant 0 <= targetIdx && CarryState(order, source, sourceIdx, target, targetIdx, cache, out, cache')
      invariant targetIdx < |out| ==> sourceIdx == |source|
    {
      TargetDone(order, source, sourceIdx, target, targetIdx, cache, out, cache');
      out := out[targetIdx := out[targetIdx].(status := NotCreated)];
      targetIdx := targetIdx + 1;
    }
    while sourceIdx < |source|
      invariant 0 <= sourceIdx && CarryState(order, source, sourceIdx, target, targetIdx, cache, out, cache')
    {
      SourceSkipped(order, source, sourceIdx, target, targetIdx, cache, out, cache');
      cache' := cache' - {source[sourceIdx].data};
      sourceIdx := sourceIdx + 1;
    }
  }

  /** Its first loop, until one of the lists is used up. */
  method CarryOverWhileBoth(order: Order, source: seq<Task>, target: seq<Task>, cache: set<Blob>)
    returns (out: seq<Task>, cache': set<Blob>, sourceIdx: nat, targetIdx: nat)
    ensures CarryState(order, source, sourceIdx, target, targetIdx, cache, out, cache')
    ensures sourceIdx == |source| || targetIdx == |target|
  {
    out, cache' := target, cache;
    sourceIdx, targetIdx := 0, 0;
    CarryStarts(order, source, target, cache);
    while sourceIdx < |source| && targetIdx < |out|
      invariant CarryState(order, source, sourceIdx, target, targetIdx, cache, out, cache')
      decreases |source| - sourceIdx + |target| - targetIdx
    {
      var s, t := source[sourceIdx], out[targetIdx];
      TargetDone(order, source, sourceIdx, target, targetIdx, cache, out, cache');
      match Compare(order, s, t) {
        case 0 =>
          out := out[targetIdx := t.(status := s.status, data := s.data)];
          sourceIdx := sourceIdx + 1;
          targetIdx := targetIdx + 1;
        case -1 =>
          SourceSkipped(order, source, sourceIdx, target, targetIdx, cache, out, cache');
          sourceIdx := sourceIdx + 1;
          cache' := cache' - {s.data};
        case _ =>
          out := out[targetIdx := t.(status := NotCreated)];
          targetIdx := targetIdx + 1;
      }
    }
  }

  // ----- closeTransactionCleanupInvalidTasks

  /** What a task's registered validator answers. */
  datatype Verdict = Valid | Invalid | Failed

  /** The tasks that remain of a list; a task whose validation fails is not removed. */
  function Kept(tasks: seq<Task>, validate: Task -> Verdict): seq<Task> {
    if tasks == [] then []
    else
      var last := tasks[|tasks| - 1];
      Kept(tasks[..|tasks| - 1], validate) + (if validate(last) == Invalid then [] else [last])
  }

  predicate AllAnswered(tasks: seq<Task>, validate: Task -> Verdict) {
    forall t | t in tasks :: validate(t) != Failed
  }

  predicate AnyInvalid(tasks: seq<Task>, validate: Task -> Verdict) {
    exists t | t in tasks :: validate(t) == Invalid
  }

  /** The payloads of the tasks that cleanup removes. */
  function InvalidBlobs(tasks: seq<Task>, validate: Task -> Verdict): set<Blob> {
    set t | t in tasks && validate(t) == Invalid :: t.data
  }

  /** The outcome of DeleteFunc on a list. */
  ghost predicate CleanedUp(tasks: seq<Task>, validate: Task -> Verdict, cache: set<Blob>, ok: bool, out: seq<Task>,
                            cleanedUp: bool, cache': set<Blob>)
  {
    && ok == AllAnswered(tasks, validate) && out == Kept(tasks, validate) && cleanedUp == AnyInvalid(tasks, validate)
    && cache' == cache - InvalidBlobs(tasks, validate)
  }

  lemma InTaken(tasks: seq<Task>, i: nat)
    requires i < |tasks|
    ensures forall t :: t in tasks[..i + 1] <==> t in tasks[..i] || t == tasks[i]
    ensures tasks[..i + 1][..i] == tasks[..i]
  {
    assert tasks[..i + 1] == tasks[..i] + [tasks[i]];
  }

  lemma CleanedOneMore(tasks: seq<Task>, i: nat, validate: Task -> Verdict, cache: set<Blob>, ok: bool, out: seq<Task>,
                       cleanedUp: bool, cache': set<Blob>)
    requires i < |tasks| && CleanedUp(tasks[..i], validate, cache, ok, out, cleanedUp, cache')
    ensures var t := tasks[i];
            CleanedUp(tasks[..i + 1], validate, cache, ok &&
                      validate(t) != Failed, if validate(t) == Invalid then out else out + [t], cleanedUp ||
                      validate(t) == Invalid, if validate(t) == Invalid then cache' - {t.data} else cache')
  {
    InTaken(tasks, i);
  }

  /** One pass of slices.DeleteFunc over a task list. */
  method RemoveInvalid(tasks: seq<Task>, validate: Task -> Verdict, cache: set<Blob>)
    returns (ok: bool, out: seq<Task>, cleanedUp: bool, cache': set<Blob>)
    ensures ok == AllAnswered(tasks, validate)
    ensures out == Kept(tasks, validate)
    ensures cleanedUp == AnyInvalid(tasks, validate)
    ensures cache' == cache - InvalidBlobs(tasks, validate)
    ensures ok <==> forall t | t in tasks :: validate(t) != Failed
    ensures forall t :: t in out <==> t in tasks && validate(t) != Invalid
    ensures cleanedUp <==> exists t | t in tasks :: validate(t) == Invalid
    ensures forall b :: b in cache' <==> b in cache && !exists t | t in tasks :: validate(t) == Invalid && t.data == b
  {
    ok, out, cleanedUp, cache' := true, [], false, cache;
    KeptExactly(tasks, validate);
    for i := 0 to |tasks|
      invariant CleanedUp(tasks[..i], validate, cache, ok, out, cleanedUp, cache')
    {
      var t := tasks[i];
      CleanedOneMore(tasks, i, validate, cache, ok, out, cleanedUp, cache');
      match validate(t) {
        case Valid => out := out + [t];
        case Invalid =>
          cleanedUp := true;
          cache' := cache' - {t.data};
        case Failed =>
          ok := false;
          out := out + [t];
      }
    }
    assert tasks[..|tasks|] == tasks;
  }

  /** Cleaning up keeps exactly the tasks that are not found invalid. */
  lemma {:induction false} KeptExactly(tasks: seq<Task>, validate: Task -> Verdict)
    ensures forall t :: t in Kept(tasks, validate) <==> t in tasks && validate(t) != Invalid
  {
    if tasks != [] {
      var n := |tasks| - 1;
      KeptExactly(tasks[..n], validate);
      assert tasks == tasks[..n] + [tasks[n]];
    }
  }

  method CleanupInvalidTasks(lists: TaskLists, validate: Task -> Verdict, cache: set<Blob>)
    returns (ok: bool, lists': TaskLists, cleanedUp: bool, cache': set<Blob>)
    ensures ok == (AllAnswered(lists.side, validate) && AllAnswered(lists.pure, validate))
    ensures ok ==> lists' == lists.Cleaned(validate)
    ensures ok ==> (cleanedUp <==> lists' != lists)
    ensures ok ==> cache' == cache - InvalidBlobs(lists.side, validate) - InvalidBlobs(lists.pure, validate)
    ensures ok <==> forall t | t in lists.side || t in lists.pure :: validate(t) != Failed
    ensures ok ==> forall t :: t in lists'.side <==> t in lists.side && validate(t) != Invalid
    ensures ok ==> forall t :: t in lists'.pure <==> t in lists.pure && validate(t) != Invalid
    ensures ok ==> (cleanedUp <==> exists t | t in lists.side || t in lists.pure :: validate(t) == Invalid)
    ensures ok ==> forall b :: b in cache' <==>
                     b in cache && !exists t | t in lists.side || t in lists.pure ::
                                      validate(t) == Invalid && t.data == b
  {
    lists', cleanedUp := lists, false;
    var side, sideCleaned;
    ok, side, sideCleaned, cache' := RemoveInvalid(lists.side, validate, cache);
    if !ok {
      return;
    }
    var pure, pureCleaned;
    ok, pure, pureCleaned, cache' := RemoveInvalid(lists.pure, validate, cache');
    lists' := TaskLists(side, pure);
    cleanedUp := sideCleaned || pureCleaned;
    KeptChanges(lists.side, validate);
    KeptChanges(lists.pure, validate);
  }

  lemma {:induction false} KeptChanges(tasks: seq<Task>, validate: Task -> Verdict)
    ensures |Kept(tasks, validate)| <= |tasks|
    ensures AnyInvalid(tasks, validate) <==> Kept(tasks, validate) != tasks
    ensures AnyInvalid(tasks, validate) ==> |Kept(tasks, validate)| < |tasks|
  {
    if tasks == [] {
    } else {
      var n := |tasks| - 1;
      KeptChanges(tasks[..n], validate);
      InTaken(tasks, n);
      assert tasks[..n + 1] == tasks == tasks[..n] + [tasks[n]];
      KeptChangesByLast(tasks, validate);
    }
  }

  lemma KeptChangesByLast(tasks: seq<Task>, validate: Task -> Verdict)
    requires tasks != []
    ensures var init, last := tasks[..|tasks| - 1], tasks[|tasks| - 1];
            Kept(tasks, validate) == Kept(init, validate) + if validate(last) == Invalid then [] else [last]
  {
  }

  /** The two task lists of a component. */
  datatype TaskLists = TaskLists(side: seq<Task>, pure: seq<Task>)
  {
    function Cleaned(validate: Task -> Verdict): TaskLists {
      TaskLists(Kept(side, validate), Kept(pure, validate))
    }
  }

  // ----- closeTransactionHandleNewTasks

  /** A task that a transition has added to a component. */
  datatype NewTask = NewTask(typeId: int, isPure: bool, scheduled: Time, destination: string, payload: Blob)
  {
    predicate IsImmediate() {
      scheduled == IMMEDIATE
    }

    predicate AttributesValid() {
      destination == "" || IsImmediate()
    }

    function Logical(next: VersionedTransition, offset: int): Task {
      Task(typeId, destination, Some(scheduled), payload, next, offset, NotCreated)
    }
  }

  /** The lists with the valid tasks among `news` appended, unsorted, and the next offset. */
  function Appended(lists: TaskLists, news: seq<NewTask>, validate: NewTask -> Verdict,
                    next: VersionedTransition, offset: int): (TaskLists, int)
  {
    if news == [] then (lists, offset)
    else
      var t := news[|news| - 1];
      var (sofar, o) := Appended(lists, news[..|news| - 1], validate, next, offset);
      if validate(t) != Valid then (sofar, o)
      else if t.isPure then (sofar.(pure := sofar.pure + [t.Logical(next, o)]), o + 1)
      else (sofar.(side := sofar.side + [t.Logical(next, o)]), o + 1)
  }

  predicate NewTasksAcceptable(news: seq<NewTask>, validate: NewTask -> Verdict) {
    forall t | t in news :: t.AttributesValid() && validate(t) != Failed
  }

  predicate AddsPure(news: seq<NewTask>, validate: NewTask -> Verdict) {
    exists t | t in news :: t.isPure && validate(t) == Valid
  }

  function Insert(order: Order, t: Task, tasks: seq<Task>): seq<Task> {
    if tasks == [] || Compare(order, t, tasks[0]) <= 0 then [t] + tasks
    else [tasks[0]] + Insert(order, t, tasks[1..])
  }

  /** slices.SortFunc; on lists with distinct keys there is only one sorted permutation
      (`TaskFacts.SortedPermutationUnique`), so the algorithm does not matter. */
  function SortFunc(order: Order, tasks: seq<Task>): seq<Task> {
    if tasks == [] then [] else Insert(order, tasks[0], SortFunc(order, tasks[1..]))
  }

  function WithNewTasks(lists: TaskLists, news: seq<NewTask>, validate: NewTask -> Verdict,
                        next: VersionedTransition, offset: int): (TaskLists, int)
  {
    var (added, o) := Appended(lists, news, validate, next, offset);
    (if AddsPure(news, validate) then added.(pure := SortFunc(ByPureKey, added.pure)) else added, o)
  }

  function ValidPayloads(news: seq<NewTask>, validate: NewTask -> Verdict): set<Blob> {
    set t | t in news && validate(t) == Valid :: t.payload
  }

  method HandleNewTasks(lists: TaskLists, news: seq<NewTask>, validate: NewTask -> Verdict,
                        next: VersionedTransition, offset: int, cache: set<Blob>)
    returns (ok: bool, lists': TaskLists, offset': int, cache': set<Blob>)
    ensures ok == NewTasksAcceptable(news, validate)
    ensures ok ==> (lists', offset') == WithNewTasks(lists, news, validate, next, offset)
    ensures ok ==> cache' == cache + ValidPayloads(news, validate)
    ensures ok <==> forall nt | nt in news :: (nt.destination == "" || nt.scheduled == 0) && validate(nt) != Failed
    ensures ok ==> forall b ::
                     b in cache' <==> b in cache || exists nt | nt in news :: validate(nt) == Valid && nt.payload == b
  {
    ok, lists', offset', cache' := true, lists, offset, cache;
    var sortPureTasks := false;
    for i := 0 to |news|
      invariant NewTasksAcceptable(news[..i], validate)
      invariant (lists', offset') == Appended(lists, news[..i], validate, next, offset)
      invariant sortPureTasks == AddsPure(news[..i], validate)
      invariant cache' == cache + ValidPayloads(news[..i], validate)
    {
      var t := news[i];
      assert news[..i + 1] == news[..i] + [t];
      assert news[..i + 1][..|news[..i + 1]| - 1] == news[..i];
      if !t.AttributesValid() {
        return false, lists', offset', cache';
      }
      var verdict := validate(t);
      if verdict == Failed {
        return false, lists', offset', cache';
      }
      if verdict == Invalid {
        continue;
      }
      cache' := cache' + {t.payload};
      var logical := t.Logical(next, offset');
      if t.isPure {
        lists' := lists'.(pure := lists'.pure + [logical]);
        sortPureTasks := true;
      } else {
        lists' := lists'.(side := lists'.side + [logical]);
      }
      offset' := offset' + 1;
    }
    assert news[..|news|] == news;
    if sortPureTasks {
      lists' := lists'.(pure := SortFunc(ByPureKey, lists'.pure));
    }
  }

  // ----- Physical side-effect tasks

  /** The number of tasks up to the last one whose physical task exists. */
  function CreatedUpTo(tasks: seq<Task>): (n: nat)
    ensures n <= |tasks|
  {
    if tasks == [] then 0
    else if tasks[|tasks| - 1].status == Created then |tasks|
    else CreatedUpTo(tasks[..|tasks| - 1])
  }

  function MarkCreated(t: Task): Task {
    t.(status := Created)
  }

  function Reverse<T>(s: seq<T>): seq<T> {
    if s == [] then [] else [s[|s| - 1]] + Reverse(s[..|s| - 1])
  }

  /** The backward scan of closeTransactionUpdateComponentTasks: emits a physical task for
      each logical one from the end of the list until it meets one that already has it. */
  method GeneratePhysicalSideEffectTasks(tasks: seq<Task>) returns (tasks': seq<Task>, emitted: seq<Task>)
    ensures |tasks'| == |tasks|
    ensures forall i | 0 <= i < |tasks| :: tasks'[i] == if i < CreatedUpTo(tasks) then tasks[i]
                                                        else tasks[i].(status := Created)
    ensures emitted == Reverse(tasks[CreatedUpTo(tasks)..])
    ensures |emitted| == |tasks| - CreatedUpTo(tasks)
    ensures forall i | 0 <= i < |emitted| :: emitted[i] == tasks[|tasks| - 1 - i] && emitted[i].status != Created
    ensures CreatedUpTo(tasks) > 0 ==> tasks[CreatedUpTo(tasks) - 1].status == Created
  {
    tasks', emitted := tasks, [];
    var idx := |tasks| - 1;
    assert tasks[..|tasks|] == tasks;
    while idx >= 0
      invariant -1 <= idx < |tasks| == |tasks'|
      invariant CreatedUpTo(tasks) == CreatedUpTo(tasks[..idx + 1])
      invariant forall i | 0 <= i < |tasks| :: tasks'[i] == if i <= idx then tasks[i] else MarkCreated(tasks[i])
      invariant emitted == Reverse(tasks[idx + 1..])
    {
      assert tasks[..idx + 1][..idx] == tasks[..idx];
      if tasks'[idx].status == Created {
        break;
      }
      ReverseCons(tasks, idx);
      emitted := emitted + [tasks'[idx]];
      tasks' := tasks'[idx := MarkCreated(tasks'[idx])];
      idx := idx - 1;
    }
    ReversedAt(tasks[CreatedUpTo(tasks)..]);
    LastCreated(tasks);
  }

  lemma {:induction false} ReversedAt<T>(s: seq<T>)
    ensures |Reverse(s)| == |s| && forall i | 0 <= i < |s| :: Reverse(s)[i] == s[|s| - 1 - i]
  {
    if s != [] {
      ReversedAt(s[..|s| - 1]);
    }
  }

  /** The tasks from there on have no physical task, and the one before has. */
  lemma {:induction false} LastCreated(tasks: seq<Task>)
    ensures forall i | CreatedUpTo(tasks) <= i < |tasks| :: tasks[i].status != Created
    ensures CreatedUpTo(tasks) > 0 ==> tasks[CreatedUpTo(tasks) - 1].status == Created
  {
    if tasks != [] && tasks[|tasks| - 1].status != Created {
      LastCreated(tasks[..|tasks| - 1]);
    }
  }

  lemma ReverseCons<T>(s: seq<T>, i: nat)
    requires i < |s|
    ensures Reverse(s[i..]) == Reverse(s[i + 1..]) + [s[i]]
    decreases |s|
  {
    var n := |s| - 1;
    if i < n {
      assert s[i..][..|s[i..]| - 1] == s[..n][i..] && s[i + 1..][..|s[i + 1..]| - 1] == s[..n][i + 1..];
      ReverseCons(s[..n], i);
    }
  }

  // ----- resetTaskStatus

  function Reset(tasks: seq<Task>): (out: seq<Task>)
    ensures |out| == |tasks|
    ensures forall i | 0 <= i < |out| :: out[i] == tasks[i].(status := NotCreated)
  {
    if tasks == [] then [] else [tasks[0].(status := NotCreated)] + Reset(tasks[1..])
  }

  method ResetTaskStatus(lists: TaskLists) returns (lists': TaskLists, reset: bool)
    ensures lists' == TaskLists(Reset(lists.side), Reset(lists.pure))
    ensures reset <==> exists t :: (t in lists.side || t in lists.pure) && t.status == Created
    ensures reset <==> lists' != lists
  {
    var pure, pureReset := ResetList(lists.pure);
    var side, sideReset := ResetList(lists.side);
    lists', reset := TaskLists(side, pure), pureReset || sideReset;
  }

  method ResetList(tasks: seq<Task>) returns (tasks': seq<Task>, reset: bool)
    ensures tasks' == Reset(tasks)
    ensures reset <==> exists t :: t in tasks && t.status == Created
    ensures reset <==> tasks' != tasks
  {
    tasks', reset := tasks, false;
    for i := 0 to |tasks|
      invariant |tasks'| == |tasks|
      invariant forall k | 0 <= k < |tasks| :: tasks'[k] == if k < i then tasks[k].(status := NotCreated) else tasks[k]
      invariant reset <==> exists k | 0 <= k < i :: tasks[k].status == Created
    {
      if !reset && tasks'[i].status == Created {
        reset := true;
      }
      tasks' := tasks'[i := tasks'[i].(status := NotCreated)];
    }
  }
}
