/** What the task-list operations achieve on the lists that the tree maintains: sorted by
    key, with the tasks that have a physical task in front. */
module TaskFacts {
  import opened Tasks

  // ----- The orders

  /** Versions are ordered by failover version and then by transition count; side-effect tasks by
      version and then by offset; pure tasks by time first, a missing one being 1970. */
  lemma OrderMeaning(a: Task, b: Task)
    ensures CompareVT(a.vt, b.vt) < 0 <==>
              a.vt.version < b.vt.version || (a.vt.version == b.vt.version && a.vt.count < b.vt.count)
    ensures Compare(BySideEffectKey, a, b) < 0 <==> CompareVT(a.vt, b.vt) < 0 || (a.vt == b.vt && a.offset < b.offset)
    ensures var x, y := a.scheduled, b.scheduled;
            var first := if x.Some? then x.value else 62135596800000000000;
            var second := if y.Some? then y.value else 62135596800000000000;
            Compare(ByPureKey, a, b) < 0 <==> first < second || (first == second && Compare(BySideEffectKey, a, b) < 0)
  {
  }

  lemma CompareIsOrder(order: Order, a: Task, b: Task, c: Task)
    ensures Compare(order, a, b) == -Compare(order, b, a)
    ensures Compare(order, a, b) <= 0 && Compare(order, b, c) <= 0 ==> Compare(order, a, c) <= 0
    ensures Compare(order, a, b) <= 0 && Compare(order, b, c) < 0 ==> Compare(order, a, c) < 0
    ensures Compare(order, a, b) < 0 && Compare(order, b, c) <= 0 ==> Compare(order, a, c) < 0
    ensures Compare(order, a, b) == 0 <==> a.Key() == b.Key() && (order == ByPureKey ==> a.AsTime() == b.AsTime())
  {
  }

  // ----- carryOverTaskStatus

  ghost predicate Matched(order: Order, source: seq<Task>, t: Task) {
    exists i | 0 <= i < |source| :: Compare(order, source[i], t) == 0
  }

  lemma SortedTail(order: Order, tasks: seq<Task>)
    requires Sorted(order, tasks) && tasks != []
    ensures Sorted(order, tasks[1..])
    ensures forall i | 0 <= i < |tasks[1..]| :: Compare(order, tasks[0], tasks[1..][i]) < 0
  {
  }

  /** Each target task takes status and payload from the source task with its key. */
  lemma {:induction false} MergeTakesMatch(order: Order, source: seq<Task>, target: seq<Task>, i: nat, j: nat)
    requires Sorted(order, source) && Sorted(order, target)
    requires i < |source| && j < |target| && Compare(order, source[i], target[j]) == 0
    ensures Merge(order, source, target)[j] == target[j].(status := source[i].status, data := source[i].data)
  {
    var c := Compare(order, source[0], target[0]);
    CompareIsOrder(order, source[0], source[i], target[j]);
    CompareIsOrder(order, target[0], target[j], source[i]);
    CompareIsOrder(order, target[0], source[0], target[j]);
    CompareIsOrder(order, source[0], target[0], source[i]);
    if c == 0 {
      if i > 0 && j > 0 {
        MergeTakesMatch(order, source[1..], target[1..], i - 1, j - 1);
      }
    } else if c < 0 {
      MergeTakesMatch(order, source[1..], target, i - 1, j);
    } else {
      MergeTakesMatch(order, source, target[1..], i, j - 1);
    }
  }

  /** A target task without counterpart is left without physical task. */
  lemma {:induction false} MergeResetsUnmatched(order: Order, source: seq<Task>, target: seq<Task>, j: nat)
    requires j < |target| && !Matched(order, source, target[j])
    ensures Merge(order, source, target)[j] == target[j].(status := NotCreated)
  {
    if source == [] {
      if j > 0 {
        MergeResetsUnmatched(order, source, target[1..], j - 1);
      }
    } else {
      assert Compare(order, source[0], target[j]) != 0;
      assert !Matched(order, source[1..], target[j]) by {
        assert forall i | 0 <= i < |source[1..]| :: source[1..][i] == source[i + 1];
      }
      var c := Compare(order, source[0], target[0]);
      if c == 0 {
        MergeResetsUnmatched(order, source[1..], target[1..], j - 1);
      } else if c < 0 {
        MergeResetsUnmatched(order, source[1..], target, j);
      } else if j > 0 {
        MergeResetsUnmatched(order, source, target[1..], j - 1);
      }
    }
  }

  ghost predicate Wanted(order: Order, target: seq<Task>, s: Task) {
    exists j | 0 <= j < |target| :: Compare(order, s, target[j]) == 0
  }

  /** The cache loses exactly the payloads of the source tasks without counterpart. */
  lemma {:induction false} EvictedExactly(order: Order, source: seq<Task>, target: seq<Task>)
    requires Sorted(order, source) && Sorted(order, target)
    ensures Evicted(order, source, target) == set s | s in source && !Wanted(order, target, s) :: s.data
  {
    if source == [] {
    } else {
      assert source == [source[0]] + source[1..];
      if target == [] {
        EvictedExactly(order, source[1..], target);
      } else {
        var c := Compare(order, source[0], target[0]);
        SortedTail(order, source);
        SortedTail(order, target);
        if c == 0 {
          EvictedExactly(order, source[1..], target[1..]);
          forall s | s in source[1..]
            ensures Wanted(order, target, s) == Wanted(order, target[1..], s)
          {
            CompareIsOrder(order, target[0], source[0], s);
            WantedTail(order, target, s);
          }
          assert Wanted(order, target, source[0]);
        } else if c < 0 {
          forall j | 0 <= j < |target|
            ensures Compare(order, source[0], target[j]) < 0
          {
            CompareIsOrder(order, source[0], target[0], target[j]);
          }
          assert !Wanted(order, target, source[0]);
          EvictedExactly(order, source[1..], target);
        } else {
          forall s | s in source
            ensures Wanted(order, target, s) == Wanted(order, target[1..], s)
          {
            CompareIsOrder(order, target[0], source[0], s);
            WantedTail(order, target, s);
          }
          EvictedExactly(order, source, target[1..]);
        }
      }
    }
  }

  lemma WantedTail(order: Order, target: seq<Task>, s: Task)
    requires target != [] && Compare(order, target[0], s) < 0
    ensures Wanted(order, target, s) == Wanted(order, target[1..], s)
  {
    CompareIsOrder(order, target[0], s, s);
    assert forall j | 0 <= j < |target[1..]| :: target[1..][j] == target[j + 1];
    if Wanted(order, target, s) {
      var j :| 0 <= j < |target| && Compare(order, s, target[j]) == 0;
      assert target[1..][j - 1] == target[j];
    }
  }

  /** Everything but status and payload is the target's, for any lists. */
  lemma {:induction false} MergeKeepsTasks(order: Order, source: seq<Task>, target: seq<Task>, j: nat)
    requires j < |target|
    ensures var t := Merge(order, source, target)[j]; t == target[j].(status := t.status, data := t.data)
    ensures Merge(order, source, target)[j].status == Created ==>
      exists i | 0 <= i < |source| :: source[i].status == Created && Compare(order, source[i], target[j]) == 0
  {
    if source == [] {
      if j > 0 {
        MergeKeepsTasks(order, source, target[1..], j - 1);
      }
    } else {
      var c := Compare(order, source[0], target[0]);
      assert forall i | 0 <= i < |source[1..]| :: source[1..][i] == source[i + 1];
      if c == 0 {
        if j > 0 {
          MergeKeepsTasks(order, source[1..], target[1..], j - 1);
        }
      } else if c < 0 {
        MergeKeepsTasks(order, source[1..], target, j);
      } else if j > 0 {
        MergeKeepsTasks(order, source, target[1..], j - 1);
      }
    }
  }

  lemma MergeSorted(order: Order, o2: Order, source: seq<Task>, target: seq<Task>)
    requires Sorted(o2, target)
    ensures Sorted(o2, Merge(order, source, target))
  {
    forall i, j | 0 <= i < j < |target|
      ensures Compare(o2, Merge(order, source, target)[i], Merge(order, source, target)[j]) < 0
    {
      MergeKeepsTasks(order, source, target, i);
      MergeKeepsTasks(order, source, target, j);
    }
  }

  // ----- The shape of the status column

  /** All tasks that have a physical task come before all that do not. */
  ghost predicate CreatedFirst(tasks: seq<Task>) {
    forall i, j | 0 <= i < j < |tasks| :: tasks[j].status == Created ==> tasks[i].status == Created
  }

  /** A task that is new to this cluster comes before one whose physical task exists. */
  ghost predicate NewBeforeCreated(order: Order, source: seq<Task>, target: seq<Task>) {
    exists i, j, k | 0 <= i < j < |target| && 0 <= k < |source| ::
      !Matched(order, source, target[i]) && source[k].status == Created && Compare(order, source[k], target[j]) == 0
  }

  /** Carrying statuses over keeps the shape exactly if no new task comes before an old one
      that has its physical task. */
  lemma MergeKeepsShape(order: Order, source: seq<Task>, target: seq<Task>)
    requires Sorted(order, source) && Sorted(order, target) && CreatedFirst(source)
    ensures CreatedFirst(Merge(order, source, target)) <==> !NewBeforeCreated(order, source, target)
  {
    var out := Merge(order, source, target);
    if NewBeforeCreated(order, source, target) {
      var i, j, k :| 0 <= i < j < |target| && 0 <= k < |source| &&
        !Matched(order, source, target[i]) && source[k].status == Created && Compare(order, source[k], target[j]) == 0;
      MergeResetsUnmatched(order, source, target, i);
      MergeTakesMatch(order, source, target, k, j);
      assert out[i].status == NotCreated && out[j].status == Created;
    } else {
      forall i, j | 0 <= i < j < |target| && out[j].status == Created
        ensures out[i].status == Created
      {
        MergeKeepsTasks(order, source, target, j);
        var k :| 0 <= k < |source| && source[k].status == Created && Compare(order, source[k], target[j]) == 0;
        assert Matched(order, source, target[i]);
        var m :| 0 <= m < |source| && Compare(order, source[m], target[i]) == 0;
        MergeTakesMatch(order, source, target, m, i);
        CompareIsOrder(order, source[m], target[i], target[j]);
        CompareIsOrder(order, source[m], target[j], source[k]);
        CompareIsOrder(order, source[k], target[j], target[j]);
        if k < m {
          CompareIsOrder(order, source[k], source[m], source[k]);
        }
      }
    }
  }

  /** The incoming list holds tasks known here followed by later ones: what a source cluster
      that only removes and appends tasks sends. */
  ghost predicate ExtendsSublist(order: Order, source: seq<Task>, target: seq<Task>) {
    forall j | 0 <= j < |target| ::
      Matched(order, source, target[j]) || forall i | 0 <= i < |source| :: Compare(order, source[i], target[j]) < 0
  }

  lemma ExtendedSublistKeepsShape(order: Order, source: seq<Task>, target: seq<Task>)
    requires Sorted(order, source) && Sorted(order, target) && CreatedFirst(source)
    requires ExtendsSublist(order, source, target)
    ensures CreatedFirst(Merge(order, source, target))
  {
    if NewBeforeCreated(order, source, target) {
      var i, j, k :| 0 <= i < j < |target| && 0 <= k < |source| &&
        !Matched(order, source, target[i]) && source[k].status == Created && Compare(order, source[k], target[j]) == 0;
      assert Compare(order, source[k], target[i]) < 0;
      CompareIsOrder(order, target[i], target[j], source[k]);
      CompareIsOrder(order, source[k], target[j], source[k]);
      CompareIsOrder(order, source[k], target[i], source[k]);
    }
    MergeKeepsShape(order, source, target);
  }

  // ----- Emission

  lemma {:induction false} CreatedUpToMeaning(tasks: seq<Task>)
    ensures forall i | CreatedUpTo(tasks) <= i < |tasks| :: tasks[i].status == NotCreated
    ensures CreatedUpTo(tasks) > 0 ==> tasks[CreatedUpTo(tasks) - 1].status == Created
  {
    if tasks != [] && tasks[|tasks| - 1].status != Created {
      CreatedUpToMeaning(tasks[..|tasks| - 1]);
    }
  }

  /** The scan that stops at the first task found Created reaches every task that still
      needs a physical one exactly if the Created ones come first. */
  lemma ScanReachesAll(tasks: seq<Task>)
    ensures (forall i | 0 <= i < |tasks| :: tasks[i].status == NotCreated <==> i >= CreatedUpTo(tasks)) <==>
            CreatedFirst(tasks)
  {
    CreatedUpToMeaning(tasks);
    var n := CreatedUpTo(tasks);
    if CreatedFirst(tasks) {
      forall i | 0 <= i < |tasks|
        ensures tasks[i].status == NotCreated <==> i >= n
      {
        if i + 1 < n {
          assert tasks[n - 1].status == Created;
        }
      }
    }
  }

  // ----- Sorting and cleanup

  lemma PrependSorted(order: Order, t: Task, tasks: seq<Task>)
    requires Sorted(order, tasks) && forall i | 0 <= i < |tasks| :: Compare(order, t, tasks[i]) < 0
    ensures Sorted(order, [t] + tasks)
  {
  }

  lemma {:induction false} InsertPermutes(order: Order, t: Task, tasks: seq<Task>)
    ensures multiset(Insert(order, t, tasks)) == multiset(tasks) + multiset{t}
  {
    if tasks != [] && Compare(order, t, tasks[0]) > 0 {
      InsertPermutes(order, t, tasks[1..]);
      assert tasks == [tasks[0]] + tasks[1..];
    }
  }

  lemma {:induction false} InsertSorts(order: Order, t: Task, tasks: seq<Task>)
    requires Sorted(order, tasks)
    requires forall i | 0 <= i < |tasks| :: Compare(order, t, tasks[i]) != 0
    ensures Sorted(order, Insert(order, t, tasks))
    ensures multiset(Insert(order, t, tasks)) == multiset(tasks) + multiset{t}
  {
    InsertPermutes(order, t, tasks);
    if tasks == [] {
    } else if Compare(order, t, tasks[0]) <= 0 {
      forall i | 0 <= i < |tasks|
        ensures Compare(order, t, tasks[i]) < 0
      {
        CompareIsOrder(order, t, tasks[0], tasks[i]);
      }
      PrependSorted(order, t, tasks);
    } else {
      SortedTail(order, tasks);
      InsertSorts(order, t, tasks[1..]);
      CompareIsOrder(order, t, tasks[0], t);
      HeadBeforeInserted(order, tasks[0], t, tasks[1..]);
      PrependSorted(order, tasks[0], Insert(order, t, tasks[1..]));
    }
  }

  lemma HeadBeforeInserted(order: Order, head: Task, t: Task, tasks: seq<Task>)
    requires Compare(order, head, t) < 0 && forall i | 0 <= i < |tasks| :: Compare(order, head, tasks[i]) < 0
    ensures forall i | 0 <= i < |Insert(order, t, tasks)| :: Compare(order, head, Insert(order, t, tasks)[i]) < 0
  {
    var rest := Insert(order, t, tasks);
    InsertPermutes(order, t, tasks);
    forall i | 0 <= i < |rest|
      ensures Compare(order, head, rest[i]) < 0
    {
      assert rest[i] in multiset(rest);
    }
  }

  /** No two tasks are equal in the order. */
  ghost predicate Distinct(order: Order, tasks: seq<Task>) {
    forall i, j | 0 <= i < j < |tasks| :: Compare(order, tasks[i], tasks[j]) != 0
  }

  lemma HeadDiffers(order: Order, tasks: seq<Task>, rest: seq<Task>)
    requires tasks != [] && Distinct(order, tasks) && multiset(rest) == multiset(tasks[1..])
    ensures forall i | 0 <= i < |rest| :: Compare(order, tasks[0], rest[i]) != 0
  {
    forall i | 0 <= i < |rest|
      ensures Compare(order, tasks[0], rest[i]) != 0
    {
      assert rest[i] in multiset(tasks[1..]);
      var j :| 0 <= j < |tasks[1..]| && tasks[1..][j] == rest[i];
    }
  }

  lemma SameLength(a: seq<Task>, b: seq<Task>)
    requires multiset(a) == multiset(b)
    ensures |a| == |b|
  {
    assert |multiset(a)| == |multiset(b)|;
  }

  /** Sorting yields a strictly sorted permutation. */
  lemma {:induction false} SortFuncSorts(order: Order, tasks: seq<Task>)
    requires Distinct(order, tasks)
    ensures Sorted(order, SortFunc(order, tasks))
    ensures multiset(SortFunc(order, tasks)) == multiset(tasks)
    ensures |SortFunc(order, tasks)| == |tasks|
  {
    if tasks == [] {
    } else {
      assert forall i | 0 <= i < |tasks[1..]| :: tasks[1..][i] == tasks[i + 1];
      SortFuncSorts(order, tasks[1..]);
      var rest := SortFunc(order, tasks[1..]);
      HeadDiffers(order, tasks, rest);
      InsertSorts(order, tasks[0], rest);
      MultisetTail(tasks);
      SameLength(SortFunc(order, tasks), tasks);
    }
  }

  lemma SortedHeadsEqual(order: Order, a: seq<Task>, b: seq<Task>)
    requires Sorted(order, a) && Sorted(order, b) && multiset(a) == multiset(b)
    requires a != [] && b != []
    ensures a[0] == b[0]
  {
    assert a[0] in multiset(b) && b[0] in multiset(a);
    var i :| 0 <= i < |b| && b[i] == a[0];
    var j :| 0 <= j < |a| && a[j] == b[0];
    CompareIsOrder(order, a[0], b[0], a[0]);
  }

  lemma MultisetTail(a: seq<Task>)
    requires a != []
    ensures multiset(a[1..]) == multiset(a) - multiset{a[0]}
  {
    assert a == [a[0]] + a[1..];
  }

  /** A strictly sorted permutation is unique: any sorting algorithm gives this list. */
  lemma {:induction false} SortedPermutationUnique(order: Order, a: seq<Task>, b: seq<Task>)
    requires Sorted(order, a) && Sorted(order, b) && multiset(a) == multiset(b)
    ensures a == b
  {
    assert |a| == |multiset(a)| == |multiset(b)| == |b|;
    if a != [] {
      SortedHeadsEqual(order, a, b);
      MultisetTail(a);
      MultisetTail(b);
      SortedTail(order, a);
      SortedTail(order, b);
      SortedPermutationUnique(order, a[1..], b[1..]);
      assert a == [a[0]] + a[1..] && b == [b[0]] + b[1..];
    }
  }
}
