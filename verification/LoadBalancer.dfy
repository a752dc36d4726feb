/** Balancing polls over the partitions of a task queue (client/matching/loadbalancer.go). */
module LoadBalancer {

  /** Partition `p` has no more pollers than any other. */
  predicate IsFewest(counts: seq<int>, p: nat) {
    p < |counts| && forall q | 0 <= q < |counts| :: counts[p] <= counts[q]
  }

  /** The counts after ensurePartitionCountLocked: new partitions have no pollers, and the
      counts of removed ones are forgotten. */
  function Resized(counts: seq<int>, n: nat): (r: seq<int>)
    ensures |r| == n
    ensures forall p | 0 <= p < n :: r[p] == if p < |counts| then counts[p] else 0
  {
    if n <= |counts| then counts[..n] else Resized(counts, n - 1) + [0]
  }

  /** There are `n` partitions, and one more poll is counted for `p` and for no other. */
  predicate CountsOnePoll(before: seq<int>, n: nat, p: nat, after: seq<int>) {
    && |after| == n && p < n
    && forall q: nat | q < n :: after[q] == (if q < |before| then before[q] else 0) + (if q == p then 1 else 0)
  }

  function Incremented(counts: seq<int>, p: nat): seq<int>
    requires p < |counts|
  {
    counts[p := counts[p] + 1]
  }

  /** No two partitions differ by more than one. */
  predicate Balanced(counts: seq<int>) {
    forall p, q | 0 <= p < |counts| && 0 <= q < |counts| :: counts[p] <= counts[q] + 1
  }

  /** What holds of the counts and the tokens that are out: a counter never exceeds the tokens
      of its partition, and it is exact as long as no partition was removed. */
  ghost predicate Accounts(counts: seq<int>, tokens: multiset<nat>, shrunk: bool) {
    && (forall p: nat | p < |counts| :: 0 <= counts[p] <= tokens[p])
    && (!shrunk ==> Exact(counts, tokens))
  }

  ghost predicate Exact(counts: seq<int>, tokens: multiset<nat>) {
    forall p: nat :: tokens[p] == if p < |counts| then counts[p] else 0
  }

  /** A change of the partition count keeps the counters exact exactly if no partition that
      it removes has a poller. */
  lemma ResizeKeepsExact(counts: seq<int>, tokens: multiset<nat>, n: nat)
    requires Exact(counts, tokens)
    ensures Exact(Resized(counts, n), tokens) <==> forall p: nat | n <= p < |counts| :: counts[p] == 0
  {
    forall p: nat | n <= p < |counts|
      ensures tokens[p] == counts[p]
    {
    }
  }

  class TaskQueueLoadBalancer {
    var pollerCounts: seq<int>
    /** The partitions of the tokens that have been handed out and not been released. */
    ghost var tokens: multiset<nat>
    /** Whether the partition count has ever been reduced. */
    ghost var shrunk: bool

    ghost predicate Valid()
      reads this
    {
      Accounts(pollerCounts, tokens, shrunk)
    }

    constructor ()
      ensures Valid() && pollerCounts == [] && tokens == multiset{} && !shrunk
    {
      pollerCounts, tokens, shrunk := [], multiset{}, false;
    }

    method EnsurePartitionCount(partitionCount: nat)
      requires Valid()
      modifies this
      ensures Valid() && pollerCounts == Resized(old(pollerCounts), partitionCount)
      ensures tokens == old(tokens) && shrunk == (old(shrunk) || partitionCount < |old(pollerCounts)|)
    {
      if |pollerCounts| == partitionCount {
        return;
      }
      if |pollerCounts| < partitionCount {
        for i := |pollerCounts| to partitionCount
          invariant pollerCounts == Resized(old(pollerCounts), i)
          invariant tokens == old(tokens) && shrunk == old(shrunk)
        {
          pollerCounts := pollerCounts + [0];
        }
      } else {
        pollerCounts, shrunk := pollerCounts[..partitionCount], true;
      }
    }

    /** The scan from a random partition, which stops at the first that has no pollers. */
    method PickWithFewestPolls(partitionCount: nat, startPartitionID: nat) returns (picked: nat)
      requires startPartitionID < partitionCount == |pollerCounts|
      requires forall p | 0 <= p < |pollerCounts| :: 0 <= pollerCounts[p]
      ensures picked < partitionCount && forall q: nat | q < partitionCount :: pollerCounts[picked] <= pollerCounts[q]
      ensures forall q: nat | q < partitionCount && pollerCounts[q] == pollerCounts[picked] ::
                (picked - startPartitionID) % partitionCount <= (q - startPartitionID) % partitionCount
    {
      picked := startPartitionID;
      var minPollerCount := pollerCounts[picked];
      var i := 1;
      while i < partitionCount && minPollerCount > 0
        invariant 1 <= i <= partitionCount && picked < partitionCount && minPollerCount == pollerCounts[picked]
        invariant Scanned(pollerCounts, startPartitionID, i, picked)
      {
        WrappedIsMod(startPartitionID, i, partitionCount);
        var current := (startPartitionID + i) % partitionCount;
        if pollerCounts[current] < minPollerCount {
          picked, minPollerCount := current, pollerCounts[current];
        }
        i := i + 1;
      }
      ScanComplete(pollerCounts, startPartitionID, i, picked);
    }

    method PickReadPartition(partitionCount: nat, startPartitionID: nat) returns (partitionID: nat)
      requires Valid() && startPartitionID < partitionCount
      modifies this
      ensures Valid() && IsFewest(Resized(old(pollerCounts), partitionCount), partitionID)
      ensures CountsOnePoll(old(pollerCounts), partitionCount, partitionID, pollerCounts)
      ensures tokens == old(tokens) + multiset{partitionID} &&
              shrunk == (old(shrunk) || partitionCount < |old(pollerCounts)|)
    {
      EnsurePartitionCount(partitionCount);
      partitionID := PickWithFewestPolls(partitionCount, startPartitionID);
      pollerCounts := pollerCounts[partitionID := pollerCounts[partitionID] + 1];
      tokens := tokens + multiset{partitionID};
    }

    method ForceReadPartition(partitionCount: nat, partitionID: nat)
      requires Valid()
      modifies this
      ensures var n := if partitionCount <= partitionID then partitionID + 1 else partitionCount;
              && CountsOnePoll(old(pollerCounts), n, partitionID, pollerCounts)
              && shrunk == (old(shrunk) || n < |old(pollerCounts)|)
      ensures Valid() && tokens == old(tokens) + multiset{partitionID}
    {
      EnsurePartitionCount(if partitionCount <= partitionID then partitionID + 1 else partitionCount);
      pollerCounts := pollerCounts[partitionID := pollerCounts[partitionID] + 1];
      tokens := tokens + multiset{partitionID};
    }

    /** Release of a token.  One that is released again counts for another of its partition, if
        there is one out. */
    method Release(partitionID: nat)
      requires Valid()
      modifies this
      ensures Valid() && tokens == old(tokens) - multiset{partitionID} && shrunk == old(shrunk)
      ensures |pollerCounts| == |old(pollerCounts)|
      ensures forall q: nat | q < |pollerCounts| ::
                pollerCounts[q] == if q == partitionID && old(pollerCounts)[q] > 0 then old(pollerCounts)[q] - 1
                                   else old(pollerCounts)[q]
    {
      if |pollerCounts| > partitionID && pollerCounts[partitionID] > 0 {
        pollerCounts := pollerCounts[partitionID := pollerCounts[partitionID] - 1];
      }
      tokens := tokens - multiset{partitionID};
    }
  }

  // ----- The circular scan

  function Wrapped(start: nat, i: nat, n: nat): (r: nat)
    requires start < n && i < n
    ensures r < n
  {
    if start + i < n then start + i else start + i - n
  }

  /** How many steps the scan takes from its start to a partition. */
  function Distance(start: nat, q: nat, n: nat): (i: nat)
    requires start < n && q < n
    ensures i < n && Wrapped(start, i, n) == q
    ensures forall j: nat | j < n && Wrapped(start, j, n) == q :: j == i
  {
    if q >= start then q - start else q - start + n
  }

  lemma WrappedIsMod(start: nat, i: nat, n: nat)
    requires start < n && i < n
    ensures (start + i) % n == Wrapped(start, i, n)
  {
    if start + i >= n {
      assert start + i == n + (start + i - n);
      ModOfSum(start + i - n, n);
    }
  }

  lemma ModOfSum(a: nat, n: nat)
    requires a < n
    ensures (n + a) % n == a
  {
    assert n + a == 1 * n + a;
  }

  lemma DistanceIsMod(start: nat, q: nat, n: nat)
    requires start < n && q < n
    ensures (q - start) % n == Distance(start, q, n)
  {
    if q < start {
      assert q - start == (-1) * n + (q - start + n);
    }
  }

  /** Of the first `i` partitions of the scan, `picked` is the first of those with the fewest
      pollers. */
  ghost predicate Scanned(counts: seq<int>, start: nat, i: nat, picked: nat)
    requires start < |counts| && picked < |counts|
  {
    && Distance(start, picked, |counts|) < i
    && forall q: nat | q < |counts| && Distance(start, q, |counts|) < i ::
         counts[picked] <= counts[q] &&
         (counts[q] == counts[picked] ==> Distance(start, picked, |counts|) <= Distance(start, q, |counts|))
  }

  lemma ScanComplete(counts: seq<int>, start: nat, i: nat, picked: nat)
    requires start < |counts| && picked < |counts| && Scanned(counts, start, i, picked)
    requires (forall q | 0 <= q < |counts| :: 0 <= counts[q]) && (i >= |counts| || counts[picked] <= 0)
    ensures forall q: nat | q < |counts| :: counts[picked] <= counts[q]
    ensures forall q: nat | q < |counts| && counts[q] == counts[picked] ::
              (picked - start) % |counts| <= (q - start) % |counts|
  {
    DistanceIsMod(start, picked, |counts|);
    forall q: nat | q < |counts|
      ensures (q - start) % |counts| == Distance(start, q, |counts|)
    {
      DistanceIsMod(start, q, |counts|);
    }
  }

  // ----- Balance

  /** Increasing a least counter keeps all counters within one of each other. */
  lemma PickKeepsBalance(counts: seq<int>, p: nat)
    requires Balanced(counts) && IsFewest(counts, p)
    ensures Balanced(Incremented(counts, p))
  {
  }

  function Sum(counts: seq<int>): int {
    if counts == [] then 0 else Sum(counts[..|counts| - 1]) + counts[|counts| - 1]
  }

  lemma {:induction false} SumIncremented(counts: seq<int>, p: nat)
    requires p < |counts|
    ensures Sum(Incremented(counts, p)) == Sum(counts) + 1
  {
    var n := |counts| - 1;
    if p == n {
      assert Incremented(counts, p)[..n] == counts[..n];
    } else {
      assert Incremented(counts, p)[..n] == Incremented(counts[..n], p);
      SumIncremented(counts[..n], p);
    }
  }

  lemma {:induction false} SumBounds(counts: seq<int>, low: int, high: int)
    requires forall p | 0 <= p < |counts| :: low <= counts[p] <= high
    ensures |counts| * low <= Sum(counts) <= |counts| * high
  {
    if counts == [] {
    } else {
      SumBounds(counts[..|counts| - 1], low, high);
      assert |counts| * low == (|counts| - 1) * low + low && |counts| * high == (|counts| - 1) * high + high;
    }
  }

  /** The successive counts of picks with a fixed number of partitions and no releases. */
  ghost predicate PickRun(states: seq<seq<int>>, picks: seq<nat>, n: nat) {
    && |states| == |picks| + 1 && states[0] == Resized([], n)
    && forall i: nat | i < |picks| :: PickStep(states, picks, i)
  }

  ghost predicate PickStep(states: seq<seq<int>>, picks: seq<nat>, i: nat)
    requires |states| == |picks| + 1 && i < |picks|
  {
    IsFewest(states[i], picks[i]) && CountsOnePoll(states[i], |states[i]|, picks[i], states[i + 1])
  }

  /** After `k` picks with a fixed number of partitions and no releases, whatever partitions
      the scans started from, the `k` polls are spread evenly. */
  lemma {:induction false} PicksSpreadEvenly(states: seq<seq<int>>, picks: seq<nat>, n: nat, k: nat)
    requires PickRun(states, picks, n) && k < |states|
    ensures |states[k]| == n && Balanced(states[k]) && Sum(states[k]) == k
  {
    if k == 0 {
      SumBounds(Resized([], n), 0, 0);
    } else {
      PicksSpreadEvenly(states, picks, n, k - 1);
      assert PickStep(states, picks, k - 1);
      assert states[k] == Incremented(states[k - 1], picks[k - 1]);
      PickKeepsBalance(states[k - 1], picks[k - 1]);
      SumIncremented(states[k - 1], picks[k - 1]);
    }
  }

  /** So every partition has its share of them, rounded down or up. */
  lemma EachHasItsShare(states: seq<seq<int>>, picks: seq<nat>, n: nat, k: nat, p: nat)
    requires PickRun(states, picks, n) && k < |states| && p < n
    ensures |states[k]| == n && n * (states[k][p] - 1) < k < n * (states[k][p] + 1)
  {
    PicksSpreadEvenly(states, picks, n, k);
    BalancedShare(states[k], p);
  }

  lemma BalancedShare(counts: seq<int>, p: nat)
    requires Balanced(counts) && p < |counts|
    ensures |counts| * (counts[p] - 1) < Sum(counts) < |counts| * (counts[p] + 1)
  {
    var rest := counts[..p] + counts[p + 1..];
    SumWithout(counts, p);
    OthersAreNear(counts, p);
    SumBounds(rest, counts[p] - 1, counts[p] + 1);
    OneMoreTimes(|rest|, counts[p] - 1);
    OneMoreTimes(|rest|, counts[p] + 1);
  }

  lemma OneMoreTimes(n: nat, x: int)
    ensures (n + 1) * x == n * x + x
  {
  }

  lemma OthersAreNear(counts: seq<int>, p: nat)
    requires Balanced(counts) && p < |counts|
    ensures var rest := counts[..p] + counts[p + 1..];
            |rest| + 1 == |counts| && forall q | 0 <= q < |rest| :: counts[p] - 1 <= rest[q] <= counts[p] + 1
  {
    var rest := counts[..p] + counts[p + 1..];
    forall q | 0 <= q < |rest|
      ensures counts[p] - 1 <= rest[q] <= counts[p] + 1
    {
      assert rest[q] == counts[if q < p then q else q + 1];
    }
  }

  lemma {:induction false} SumWithout(counts: seq<int>, p: nat)
    requires p < |counts|
    ensures Sum(counts) == Sum(counts[..p] + counts[p + 1..]) + counts[p]
  {
    var n := |counts| - 1;
    if p == n {
      assert counts[..p] + counts[p + 1..] == counts[..n];
    } else {
      SumWithout(counts[..n], p);
      var rest := counts[..p] + counts[p + 1..];
      assert rest[..|rest| - 1] == counts[..n][..p] + counts[..n][p + 1..];
    }
  }
}
