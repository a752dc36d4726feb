/** The moving-window average (common/aggregate/moving_window_average.go): a ring buffer that
    answers the average of the recent values. */
module MovingAverage {
  type Time = int

  datatype Sample = Sample(value: int, timestamp: Time)

  const MIN_INT64: int := -0x8000_0000_0000_0000
  const MAX_INT64: int := 0x7fff_ffff_ffff_ffff

  /** The value that a 64-bit signed integer holds after arithmetic that wraps around. */
  function Int64(x: int): (r: int)
    ensures MIN_INT64 <= r <= MAX_INT64
    ensures (r - x) % 0x1_0000_0000_0000_0000 == 0
    ensures MIN_INT64 <= x <= MAX_INT64 ==> r == x
  {
    (x - MIN_INT64) % 0x1_0000_0000_0000_0000 + MIN_INT64
  }

  /** Wrapping around early makes no difference to what a sum wraps around to. */
  lemma WrapOnce(a: int, b: int)
    ensures Int64(Int64(a) + b) == Int64(a + b)
  {
  }

  function Sum(samples: seq<Sample>): int {
    if |samples| == 0 then 0 else Sum(samples[..|samples| - 1]) + samples[|samples| - 1].value
  }

  /** The sum of two parts is that of their sums, down to single samples. */
  lemma {:induction false} SumAdds(a: seq<Sample>, b: seq<Sample>)
    ensures Sum([]) == 0 && Sum(a + b) == Sum(a) + Sum(b)
    ensures |b| == 1 ==> Sum(b) == b[0].value
  {
    if |b| == 0 {
      assert a + b == a;
    } else {
      var n := |b| - 1;
      SumAdds(a, b[..n]);
      assert (a + b)[..|a| + n] == a + b[..n];
    }
  }

  lemma {:induction false} SumHead(samples: seq<Sample>)
    requires |samples| > 0
    ensures Sum(samples) == samples[0].value + Sum(samples[1..])
  {
    if |samples| <= 1 {
    } else {
      SumHead(samples[..|samples| - 1]);
      assert samples[..|samples| - 1][1..] == samples[1..][..|samples| - 2];
    }
  }

  // ----- The circular segment

  /** The elements from `head` up to `tail`, around the end of the buffer if necessary. */
  function Segment(buffer: seq<Sample>, head: nat, tail: nat): seq<Sample>
    requires head < |buffer| && tail < |buffer|
  {
    if head <= tail then buffer[head..tail] else buffer[head..] + buffer[..tail]
  }

  function Next(i: nat, n: nat): (r: nat)
    requires i < n
    ensures r < n
  {
    if i + 1 == n then 0 else i + 1
  }

  lemma NextIsMod(i: nat, n: nat)
    requires i < n
    ensures (i + 1) % n == Next(i, n)
  {
    if i + 1 < n {
      SmallMod(i + 1, n);
    }
  }

  lemma SmallMod(a: nat, n: nat)
    requires a < n
    ensures a % n == a
  {
  }

  lemma SegmentPush(buffer: seq<Sample>, head: nat, tail: nat, x: Sample)
    requires head < |buffer| && tail < |buffer|
    ensures |Segment(buffer, head, tail)| < |buffer|
    ensures Next(tail, |buffer|) == head <==> |Segment(buffer, head, tail)| == |buffer| - 1
    ensures Next(tail, |buffer|) != head ==>
      Segment(buffer[tail := x], head, Next(tail, |buffer|)) == Segment(buffer, head, tail) + [x]
  {
  }

  lemma SegmentPop(buffer: seq<Sample>, head: nat, tail: nat)
    requires head < |buffer| && tail < |buffer| && head != tail
    ensures var segment := Segment(buffer, head, tail);
            |segment| > 0 && segment[0] == buffer[head] && Segment(buffer, Next(head, |buffer|), tail) == segment[1..]
  {
  }

  lemma PushedInMiddle(buffer: seq<Sample>, head: nat, x: Sample)
    requires 0 < head < |buffer|
    ensures var buffer', tail := buffer[head - 1 := x], (head - 1) as nat;
            && Segment(buffer, head, tail) + [x] == buffer[head..] + buffer'[..head]
            && Segment(buffer', Next(head, |buffer|), head) == buffer[head + 1..] + buffer'[..head]
  {
    var buffer' := buffer[head - 1 := x];
    assert buffer'[..head] == buffer[..head - 1] + [x];
    if head + 1 < |buffer| {
      assert buffer'[head + 1..] == buffer[head + 1..];
    }
  }

  /** A full buffer loses its oldest element to the new one. */
  lemma SegmentPushFull(buffer: seq<Sample>, head: nat, tail: nat, x: Sample)
    requires head < |buffer| && tail < |buffer| && Next(tail, |buffer|) == head
    ensures var buffer' := buffer[tail := x];
            && buffer'[head] == (Segment(buffer, head, tail) + [x])[0]
            && Segment(buffer', Next(head, |buffer|), head) == (Segment(buffer, head, tail) + [x])[1..]
  {
    var buffer' := buffer[tail := x];
    if head == 0 {
      assert Segment(buffer, head, tail) + [x] == buffer';
    } else {
      PushedInMiddle(buffer, head, x);
    }
  }

  // ----- What the average is over

  /** Timestamps do not decrease. */
  predicate Sorted(history: seq<Sample>) {
    forall i, j | 0 <= i < j < |history| :: history[i].timestamp <= history[j].timestamp
  }

  predicate Fresh(s: Sample, window: int, at: Time) {
    at - s.timestamp < window
  }

  // ----- The state against the history

  /** The fields of the ring buffer. */
  datatype Ring = Ring(buffer: seq<Sample>, head: nat, tail: nat, sum: int, count: int)
  {
    predicate InBounds() {
      head < |buffer| && tail < |buffer|
    }

    function Contents(): seq<Sample>
      requires InBounds()
    {
      Segment(buffer, head, tail)
    }

    /** Nothing in the buffer is too old. */
    predicate OnlyFresh(window: int, at: Time)
      requires InBounds()
    {
      head != tail ==> Fresh(buffer[head], window, at)
    }

    predicate Full()
      requires InBounds()
    {
      Next(tail, |buffer|) == head
    }

    function Recorded(x: Sample): Ring
      requires InBounds()
    {
      var n, buffer' := |buffer|, buffer[tail := x];
      if Full() then
        Ring(buffer', Next(head, n), Next(tail, n), Int64(Int64(sum + x.value) - buffer'[head].value), count)
      else Ring(buffer', head, Next(tail, n), Int64(sum + x.value), count + 1)
    }

    function Dropped(): Ring
      requires InBounds()
    {
      Ring(buffer, Next(head, |buffer|), tail, Int64(sum - buffer[head].value), count - 1)
    }
  }

  /** The ring buffer holds `contents`, with their count and their sum, the latter in 64 bits: it
      is exact whenever the sum of the contents fits, whatever was added and subtracted before. */
  ghost predicate Holds(r: Ring, contents: seq<Sample>) {
    r.InBounds() && r.Contents() == contents && TotalsOf(r.sum, r.count, contents)
  }

  ghost predicate TotalsOf(sum: int, count: int, contents: seq<Sample>) {
    sum == Int64(Sum(contents)) && count == |contents|
  }

  lemma SumOfOneMore(contents: seq<Sample>, x: Sample)
    ensures Sum(contents + [x]) == Sum(contents) + x.value
  {
    assert (contents + [x])[..|contents|] == contents;
  }

  lemma TotalsOfOneMore(sum: int, count: int, contents: seq<Sample>, x: Sample)
    requires TotalsOf(sum, count, contents)
    ensures TotalsOf(Int64(sum + x.value), count + 1, contents + [x])
  {
    SumOfOneMore(contents, x);
    WrapOnce(Sum(contents), x.value);
  }

  lemma TotalsOfRest(sum: int, count: int, contents: seq<Sample>)
    requires |contents| > 0 && TotalsOf(sum, count, contents)
    ensures TotalsOf(Int64(sum - contents[0].value), count - 1, contents[1..])
  {
    SumHead(contents);
    WrapOnce(Sum(contents), -contents[0].value);
  }

  lemma HeldAfterRecord(r: Ring, contents: seq<Sample>, x: Sample)
    requires Holds(r, contents)
    ensures Holds(r.Recorded(x), if r.Full() then (contents + [x])[1..] else contents + [x])
    ensures r.Full() <==> |contents| == |r.buffer| - 1
    ensures |contents| < |r.buffer|
  {
    SegmentPush(r.buffer, r.head, r.tail, x);
    TotalsOfOneMore(r.sum, r.count, contents, x);
    if r.Full() {
      SegmentPushFull(r.buffer, r.head, r.tail, x);
      TotalsOfRest(Int64(r.sum + x.value), r.count + 1, contents + [x]);
    }
  }

  lemma HeldAfterDrop(r: Ring, contents: seq<Sample>)
    requires Holds(r, contents) && r.head != r.tail
    ensures |contents| > 0 && contents[0] == r.buffer[r.head]
    ensures Holds(r.Dropped(), contents[1..])
  {
    SegmentPop(r.buffer, r.head, r.tail);
    TotalsOfRest(r.sum, r.count, contents);
  }

  /** What has been recorded so far, how many samples of it have left the buffer, and the
      latest reading of the clock. */
  datatype Past = Past(history: seq<Sample>, start: nat, clock: Time)
  {
    predicate InBounds() {
      start <= |history|
    }

    function Left(): seq<Sample>
      requires InBounds()
    {
      history[start..]
    }

    function Recorded(x: Sample, full: bool): Past {
      Past(history + [x], if full then start + 1 else start, x.timestamp)
    }
  }

  /** The samples that are no longer in the buffer are too far back or too old. */
  ghost predicate Tracks(past: Past, capacity: nat, window: int) {
    && past.InBounds() && |past.Left()| <= capacity
    && Sorted(past.history) && (|past.history| > 0 ==> past.history[|past.history| - 1].timestamp <= past.clock)
    && forall i | 0 <= i < past.start :: i < |past.history| - capacity || !Fresh(past.history[i], window, past.clock)
  }

  lemma SortedAppend(history: seq<Sample>, x: Sample)
    requires Sorted(history) && (|history| > 0 ==> history[|history| - 1].timestamp <= x.timestamp)
    ensures Sorted(history + [x])
  {
  }

  lemma TracksRecord(past: Past, capacity: nat, window: int, x: Sample)
    requires Tracks(past, capacity, window) && past.clock <= x.timestamp
    ensures var full := |past.Left()| == capacity;
            && Tracks(past.Recorded(x, full), capacity, window)
            && past.Recorded(x, full).Left() == if full then (past.Left() + [x])[1..] else past.Left() + [x]
  {
    SortedAppend(past.history, x);
    var full := |past.Left()| == capacity;
    assert past.Recorded(x, full).Left() == if full then (past.Left() + [x])[1..] else past.Left() + [x];
  }

  lemma TracksDrop(past: Past, capacity: nat, window: int, now: Time)
    requires Tracks(past, capacity, window) && past.clock <= now && |past.Left()| > 0 &&
             !Fresh(past.Left()[0], window, now)
    ensures Tracks(Past(past.history, past.start + 1, now), capacity, window)
    ensures Past(past.history, past.start + 1, now).Left() == past.Left()[1..]
  {
  }

  lemma TracksLater(past: Past, capacity: nat, window: int, now: Time)
    requires Tracks(past, capacity, window) && past.clock <= now
    ensures Tracks(past.(clock := now), capacity, window)
  {
  }

  /** The ring buffer and the past belong together. */
  ghost predicate Consistent(r: Ring, past: Past, window: int) {
    && |r.buffer| >= 1 && Tracks(past, |r.buffer| - 1, window) && Holds(r, past.Left())
  }

  lemma ConsistentAfterRecord(r: Ring, past: Past, window: int, x: Sample)
    requires Consistent(r, past, window) && past.clock <= x.timestamp
    ensures Consistent(r.Recorded(x), past.Recorded(x, r.Full()), window)
    ensures r.Full() <==> |past.Left()| == |r.buffer| - 1
  {
    HeldAfterRecord(r, past.Left(), x);
    TracksRecord(past, |r.buffer| - 1, window, x);
  }

  lemma ConsistentAfterDrop(r: Ring, past: Past, window: int, now: Time)
    requires Consistent(r, past, window) && past.clock <= now && r.head != r.tail &&
             !Fresh(r.buffer[r.head], window, now)
    ensures Consistent(r.Dropped(), Past(past.history, past.start + 1, now), window)
  {
    HeldAfterDrop(r, past.Left());
    TracksDrop(past, |r.buffer| - 1, window, now);
  }

  lemma ConsistentLater(r: Ring, past: Past, window: int, now: Time)
    requires Consistent(r, past, window) && past.clock <= now
    ensures Consistent(r, past.(clock := now), window)
  {
    TracksLater(past, |r.buffer| - 1, window, now);
  }

  lemma OldestLeft(r: Ring, past: Past, window: int)
    requires Consistent(r, past, window)
    ensures if r.head == r.tail then |past.Left()| == 0 else |past.Left()| > 0 && past.Left()[0] == r.buffer[r.head]
  {
    if r.head != r.tail {
      SegmentPop(r.buffer, r.head, r.tail);
    }
  }

  /** A sample is left exactly if it is one of the last `size - 1` and younger than the window. */
  ghost predicate LeftExactly(past: Past, size: nat, window: int) {
    forall i: nat | i < |past.history| ::
      i >= past.start <==> i + size > |past.history| && past.clock - past.history[i].timestamp < window
  }

  /** When the oldest sample left is fresh, or none is left, exactly the recent ones are left. */
  lemma TracksRecent(past: Past, size: nat, window: int)
    requires size >= 1 && Tracks(past, size - 1, window)
    requires |past.Left()| > 0 ==> Fresh(past.Left()[0], window, past.clock)
    ensures LeftExactly(past, size, window)
  {
    forall i: nat | past.start <= i < |past.history|
      ensures past.clock - past.history[i].timestamp < window
    {
      assert past.history[past.start].timestamp <= past.history[i].timestamp;
    }
  }

  /** The floating-point numbers that averages are given in: zero, and the quotient of two
      integers with whatever rounding the machine applies. */
  datatype Floats<F> = Floats(zero: F, divide: (int, int) -> F)

  class MovingWindowAvg {
    const windowSize: int
    const maxBufferSize: nat
    const buffer: array<Sample>
    var headIdx: nat
    var tailIdx: nat
    var sum: int
    var count: int
    ghost var past: Past

    ghost function State(): Ring
      reads this, buffer
    {
      Ring(buffer[..], headIdx, tailIdx, sum, count)
    }

    ghost predicate Valid()
      reads this, buffer
    {
      buffer.Length == maxBufferSize && Consistent(State(), past, windowSize)
    }

    constructor (windowSize: int, maxBufferSize: nat)
      requires maxBufferSize >= 1
      ensures Valid() && fresh(buffer) && |past.history| == 0 && sum == 0 && count == 0
      ensures this.windowSize == windowSize && this.maxBufferSize == maxBufferSize
    {
      this.windowSize, this.maxBufferSize := windowSize, maxBufferSize;
      buffer := new Sample[maxBufferSize](_ => Sample(0, 0));
      headIdx, tailIdx, sum, count := 0, 0, 0, 0;
      past := Past([], 0, 0);
    }

    /** Record, at the time `now`: the sample joins the history, and only what no longer fits
        leaves the buffer. */
    method Record(val: int, now: Time)
      requires Valid() && past.clock <= now
      modifies this, buffer
      ensures Valid() && past.history == old(past).history + [Sample(val, now)] && past.clock == now
      ensures var left := |old(past).history| - old(past).start;
              past.start == if left == maxBufferSize - 1 then old(past).start + 1 else old(past).start
    {
      ghost var before := State();
      ConsistentAfterRecord(before, past, windowSize, Sample(val, now));
      past := past.Recorded(Sample(val, now), before.Full());
      RecordInPlace(val, now);
    }

    method RecordInPlace(val: int, now: Time)
      requires buffer.Length == maxBufferSize && State().InBounds()
      modifies `headIdx, `tailIdx, `sum, `count, buffer
      ensures State() == old(State()).Recorded(Sample(val, now))
    {
      NextIsMod(headIdx, maxBufferSize);
      NextIsMod(tailIdx, maxBufferSize);
      buffer[tailIdx] := Sample(val, now);
      tailIdx := (tailIdx + 1) % maxBufferSize;
      sum := Int64(sum + val);
      count := count + 1;
      if tailIdx == headIdx {
        sum := Int64(sum - buffer[headIdx].value);
        count := count - 1;
        headIdx := (headIdx + 1) % maxBufferSize;
      }
    }

    /** The body of the loop of expireOldValuesLocked, for a sample that is too old. */
    method DropOldest(ghost now: Time)
      requires Valid() && headIdx != tailIdx && past.clock <= now && !Fresh(buffer[headIdx], windowSize, now)
      modifies `headIdx, `sum, `count, `past
      ensures Valid() && past == Past(old(past).history, old(past).start + 1, now) && past.start <= |past.history|
    {
      ConsistentAfterDrop(State(), past, windowSize, now);
      past := Past(past.history, past.start + 1, now);
      DropInPlace();
    }

    method DropInPlace()
      requires buffer.Length == maxBufferSize && State().InBounds()
      modifies `headIdx, `sum, `count
      ensures State() == old(State()).Dropped()
    {
      NextIsMod(headIdx, maxBufferSize);
      sum := Int64(sum - buffer[headIdx].value);
      count := count - 1;
      headIdx := (headIdx + 1) % maxBufferSize;
    }

    /** expireOldValuesLocked; `times` gives the successive readings of the clock. */
    method ExpireOldValues(times: nat -> Time)
      requires Valid() && past.clock <= times(0) && Nondecreasing(times)
      modifies `headIdx, `sum, `count, `past
      ensures Valid() && past.history == old(past).history && ReadFrom(times, old(past).clock, past.clock)
      ensures State().OnlyFresh(windowSize, past.clock)
    {
      var reading := 0;
      while headIdx != tailIdx
        invariant Valid() && past.history == old(past).history
        invariant ReadFrom(times, old(past).clock, past.clock) && past.clock <= times(reading)
        decreases |past.history| - past.start
      {
        var now := times(reading);
        if now - buffer[headIdx].timestamp < windowSize {
          ConsistentLater(State(), past, windowSize, now);
          past := past.(clock := now);
          break;
        }
        DropOldest(now);
        assert times(reading) <= times(reading + 1);
        reading := reading + 1;
      }
    }

    /** Average: over exactly those of the last maxBufferSize - 1 values that are younger than
        the window when the clock is last read. */
    method Average<F>(times: nat -> Time, floats: Floats<F>) returns (average: F)
      requires Valid() && past.clock <= times(0) && Nondecreasing(times)
      modifies `headIdx, `sum, `count, `past
      ensures Valid() && past.history == old(past).history && ReadFrom(times, old(past).clock, past.clock)
      ensures past.start <= |past.history|
      ensures var recent := past.history[past.start..];
              average == if |recent| == 0 then floats.zero else floats.divide(Int64(Sum(recent)), |recent|)
      ensures LeftExactly(past, maxBufferSize, windowSize)
    {
      ExpireOldValues(times);
      OldestLeft(State(), past, windowSize);
      TracksRecent(past, maxBufferSize, windowSize);
      if count == 0 {
        return floats.zero;
      }
      average := floats.divide(sum, count);
    }
  }

  /** The clock is as it was, or shows one of the readings. */
  ghost predicate ReadFrom(times: nat -> Time, before: Time, clock: Time) {
    clock == before || exists i: nat :: times(i) == clock
  }

  ghost predicate Nondecreasing(times: nat -> Time) {
    forall i: nat, j: nat | i <= j :: times(i) <= times(j)
  }
}
