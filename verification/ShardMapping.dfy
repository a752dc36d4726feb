/** Shards of workflows and the mapping between clusters with different shard counts
    (common/util.go). */
module ShardMapping {
  import opened Basics

  const MAX_INT32: int := 0x7fff_ffff

  /** A shard count: a positive 32-bit integer. */
  predicate IsCount(n: int) {
    1 <= n <= MAX_INT32
  }

  predicate InRange(id: int, count: int) {
    1 <= id <= count
  }

  predicate OneDividesOther(a: int, b: int)
    requires IsCount(a) && IsCount(b)
  {
    a % b == 0 || b % a == 0
  }

  function Min(a: int, b: int): int {
    if a <= b then a else b
  }

  // ----- The code

  /** WorkflowIDToHistoryShard, from the 32-bit hash of the workflow. */
  function HistoryShard(hash: int, numberOfShards: int): (id: int)
    requires 0 <= hash < 0x1_0000_0000 && IsCount(numberOfShards)
    ensures 1 <= id <= numberOfShards && (hash - (id - 1)) % numberOfShards == 0
  {
    MinusRemainder(hash, numberOfShards);
    hash % numberOfShards + 1
  }

  /** The shards that MapShardID gives. */
  function Mapped(source: int, target: int, sourceID: int): (ids: seq<int>)
    requires IsCount(source) && IsCount(target) && InRange(sourceID, source)
  {
    if source < target then seq(target / source, i => sourceID - 1 + i * source + 1)
    else if source > target then [(sourceID - 1) % target + 1]
    else [sourceID]
  }

  /** MapShardID; without result where the code panics. */
  method MapShardID(source: int, target: int, sourceID: int) returns (ids: Option<array<int>>)
    requires IsCount(source) && IsCount(target) && InRange(sourceID, source)
    ensures ids.Some? <==> source % target == 0 || target % source == 0
    ensures ids.Some? ==> fresh(ids.value) && ids.value[..] == Mapped(source, target, sourceID)
  {
    if source % target != 0 && target % source != 0 {
      return None;
    }
    var shardID := sourceID - 1;
    if source < target {
      var ratio := target / source;
      RatioPositive(source, target);
      var out := new int[ratio];
      for i := 0 to ratio
        invariant forall k | 0 <= k < i :: out[k] == Mapped(source, target, sourceID)[k]
      {
        out[i] := shardID + i * source + 1;
      }
      return Some(out);
    }
    var one := new int[1];
    one[0] := if source > target then shardID % target + 1 else shardID + 1;
    return Some(one);
  }

  /** VerifyShardIDMapping; without result where the code panics. */
  method VerifyShardIDMapping(thisCount: int, thatCount: int, thisID: int, thatID: int) returns (r: Option<bool>)
    requires IsCount(thisCount) && IsCount(thatCount) && InRange(thisID, thisCount) && InRange(thatID, thatCount)
    ensures r.Some? <==> thisCount % thatCount == 0 || thatCount % thisCount == 0
    ensures r.Some? ==> (r.value <==> thatID in Mapped(thisCount, thatCount, thisID))
  {
    if thisCount % thatCount != 0 && thatCount % thisCount != 0 {
      return None;
    }
    var shardCountMin := thisCount;
    if shardCountMin > thatCount {
      shardCountMin := thatCount;
    }
    MappedExactly(thisCount, thatCount, thisID, thatID);
    ShiftedMod(thisID, thatID, shardCountMin);
    return Some(thisID % shardCountMin == thatID % shardCountMin);
  }

  // ----- Arithmetic

  lemma MinusRemainder(x: int, b: int)
    requires b > 0
    ensures (x - x % b) % b == 0
  {
    ModUnique(x - x % b, x / b, 0, b);
  }

  lemma OnlyZeroTimes(b: int, k: int, d: int)
    requires b > 0 && b * k == d && -b < d < b
    ensures k == 0
  {
  }

  lemma ModUnique(x: int, q: int, r: int, b: int)
    requires b > 0 && x == q * b + r && 0 <= r < b
    ensures x % b == r && x / b == q
  {
    assert b * (x / b - q) == r - x % b;
    OnlyZeroTimes(b, x / b - q, r - x % b);
  }

  /** Two numbers leave the same remainder exactly if they differ by a multiple. */
  lemma SameMod(x: int, y: int, b: int)
    requires b > 0
    ensures x % b == y % b <==> exists k :: x == y + k * b
  {
    if x % b == y % b {
      assert x == y + (x / b - y / b) * b;
    }
    if exists k :: x == y + k * b {
      var k :| x == y + k * b;
      assert x == (y / b + k) * b + y % b;
      ModUnique(x, y / b + k, y % b, b);
    }
  }

  lemma ShiftedMod(x: int, y: int, b: int)
    requires b > 0
    ensures x % b == y % b <==> (x - 1) % b == (y - 1) % b
  {
    SameMod(x, y, b);
    SameMod(x - 1, y - 1, b);
    if k :| x == y + k * b {
      assert x - 1 == y - 1 + k * b;
    }
    if k :| x - 1 == y - 1 + k * b {
      assert x == y + k * b;
    }
  }

  /** Reducing by a multiple first makes no difference. */
  lemma ModMod(x: int, a: int, b: int)
    requires a > 0 && b > 0 && a % b == 0
    ensures (x % a) % b == x % b
  {
    var k := a / b;
    assert a == k * b;
    assert x == x % a + (x / a) * (k * b);
    MulAssociative(x / a, k, b);
    assert x == x % a + ((x / a) * k) * b;
    SameMod(x, x % a, b);
  }

  lemma MulAssociative(x: int, y: int, z: int)
    ensures x * (y * z) == (x * y) * z
  {
  }

  lemma RatioPositive(source: int, target: int)
    requires 0 < source < target
    ensures target / source >= 1
  {
  }

  // ----- What the mapping means

  /** A target shard belongs to a source shard exactly if the two agree modulo the smaller
      count. */
  lemma MappedExactly(source: int, target: int, s: int, t: int)
    requires IsCount(source) && IsCount(target) && OneDividesOther(source, target) && InRange(s, source)
    ensures t in Mapped(source, target, s) <==> InRange(t, target) &&
                                                (t - 1) % Min(source, target) == (s - 1) % Min(source, target)
  {
    if source < target {
      Smaller(source, target);
      MappedToMany(source, target, s, t);
    } else if source > target {
      Remainder(s - 1, target);
      if InRange(t, target) {
        ModUnique(t - 1, 0, t - 1, target);
      }
      ModUnique((s - 1) % target, 0, (s - 1) % target, target);
    } else {
      ModUnique(s - 1, 0, s - 1, source);
      if InRange(t, target) {
        ModUnique(t - 1, 0, t - 1, target);
      }
    }
  }

  lemma Remainder(x: int, b: int)
    requires b > 0
    ensures 0 <= x % b < b
  {
  }

  /** The smaller of two counts is the one that divides the other. */
  lemma Smaller(source: int, target: int)
    requires 0 < source < target && (source % target == 0 || target % source == 0)
    ensures target % source == 0
  {
    ModUnique(source, 0, source, target);
  }

  lemma MappedToMany(source: int, target: int, s: int, t: int)
    requires IsCount(source) && IsCount(target) && source < target && target % source == 0 && InRange(s, source)
    ensures t in Mapped(source, target, s) <==> InRange(t, target) && (t - 1) % source == (s - 1) % source
  {
    ModUnique(s - 1, 0, s - 1, source);
    if t in Mapped(source, target, s) {
      ManyAreBelow(source, target, s, t);
    }
    if InRange(t, target) && (t - 1) % source == s - 1 {
      ReachedByMany(source, target, s, t);
    }
  }

  lemma ManyAreBelow(source: int, target: int, s: int, t: int)
    requires IsCount(source) && IsCount(target) && source < target && target % source == 0 && InRange(s, source)
    requires t in Mapped(source, target, s)
    ensures InRange(t, target) && (t - 1) % source == s - 1
  {
    var ids, ratio := Mapped(source, target, s), target / source;
    var i :| 0 <= i < ratio && ids[i] == t;
    ModUnique(t - 1, i, s - 1, source);
    AtMost(i, ratio, source);
  }

  lemma ReachedByMany(source: int, target: int, s: int, t: int)
    requires IsCount(source) && IsCount(target) && source < target && target % source == 0 && InRange(s, source)
    requires InRange(t, target) && (t - 1) % source == s - 1
    ensures t in Mapped(source, target, s)
  {
    var i := (t - 1) / source;
    BelowRatio(i, target / source, source, t - 1);
    assert Mapped(source, target, s)[i] == t;
  }

  lemma AtMost(i: int, ratio: int, source: int)
    requires 0 <= i < ratio && source > 0
    ensures 0 <= i * source <= ratio * source - source
  {
    MulNext(i, ratio, source);
  }

  lemma MulNext(i: int, j: int, c: int)
    requires 0 <= i < j && c > 0
    ensures 0 <= i * c && i * c + c <= j * c
    decreases j
  {
    if i + 1 < j {
      MulNext(i, j - 1, c);
    }
  }

  lemma BelowRatio(i: int, ratio: int, source: int, x: int)
    requires source > 0 && i * source <= x < ratio * source && x >= 0 && i == x / source
    ensures 0 <= i < ratio
  {
  }

  /** Mapping shards commutes with hashing: a workflow's shard in the target cluster is one of
      those its shard in the source cluster is mapped to. */
  lemma HashingCommutes(hash: int, source: int, target: int)
    requires 0 <= hash < 0x1_0000_0000 && IsCount(source) && IsCount(target) && OneDividesOther(source, target)
    ensures HistoryShard(hash, target) in Mapped(source, target, HistoryShard(hash, source))
  {
    var m := Min(source, target);
    MappedExactly(source, target, HistoryShard(hash, source), HistoryShard(hash, target));
    if source < target {
      Smaller(source, target);
      ModMod(hash, target, source);
      ModMod(hash, source, source);
    } else if target < source {
      Smaller(target, source);
      ModMod(hash, source, target);
      ModMod(hash, target, target);
    }
  }

  /** The mapping is symmetric. */
  lemma MappingSymmetric(source: int, target: int, s: int, t: int)
    requires IsCount(source) && IsCount(target) && OneDividesOther(source, target) && InRange(s, source) &&
             InRange(t, target)
    ensures t in Mapped(source, target, s) <==> s in Mapped(target, source, t)
  {
    MappedExactly(source, target, s, t);
    MappedExactly(target, source, t, s);
  }

  /** Every target shard is reached, and by one source shard only if there are no more source
      shards than target shards. */
  lemma MappingCovers(source: int, target: int, t: int) returns (s: int)
    requires IsCount(source) && IsCount(target) && OneDividesOther(source, target) && InRange(t, target)
    ensures InRange(s, source) && t in Mapped(source, target, s)
    ensures source <= target ==> forall r | InRange(r, source) && t in Mapped(source, target, r) :: r == s
  {
    var m := Min(source, target);
    s := (t - 1) % m + 1;
    Remainder(t - 1, m);
    ModUnique((t - 1) % m, 0, (t - 1) % m, m);
    MappedExactly(source, target, s, t);
    if source <= target {
      forall r | InRange(r, source) && t in Mapped(source, target, r)
        ensures r == s
      {
        MappedExactly(source, target, r, t);
        ModUnique(r - 1, 0, r - 1, source);
      }
    }
  }

  /** The shards of one source shard are 32-bit shard numbers, given in ascending order. */
  lemma MappedDistinct(source: int, target: int, s: int)
    requires IsCount(source) && IsCount(target) && OneDividesOther(source, target) && InRange(s, source)
    ensures var ids := Mapped(source, target, s);
            && (forall t | t in ids :: 1 <= t <= target)
            && (forall i, j | 0 <= i < j < |ids| :: ids[i] < ids[j])
  {
    forall t | t in Mapped(source, target, s)
      ensures 1 <= t <= target
    {
      MappedExactly(source, target, s, t);
    }
    var ids := Mapped(source, target, s);
    forall i, j | 0 <= i < j < |ids|
      ensures ids[i] < ids[j]
    {
      MulNext(i, j, source);
    }
  }
}
