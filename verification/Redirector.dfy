/** The cache of shard owners (client/history/caching_redirector.go): how long an entry may
    be used after membership has said otherwise. */
module Redirector {
  import opened Basics

  newtype ShardID = x: int | -0x8000_0000 <= x < 0x8000_0000
  type Address = string

  /** Nanoseconds; zero is the zero time, which no clock shows. */
  type Time = int

  datatype Entry = Entry(address: Address, staleAt: Time)
  {
    predicate Usable(now: Time) {
      staleAt == 0 || now < staleAt
    }
  }

  /** What membership answers for a shard; nothing when the lookup fails. */
  type Lookup = ShardID -> Option<Address>

  /** The cached owners of shards. */
  type Cache = map<ShardID, Entry>

  /** One region under the lock. */
  datatype Step =
    | Hit(shard: ShardID, now: Time)
    | Refill(shard: ShardID, now: Time, lookup: Lookup)
    | HostDown(address: Address)
    | OwnershipLost(shard: ShardID, address: Address, hint: Address)
    | StaleCheck(now: Time, ttl: Time, lookup: Lookup)

  function Checked(e: Entry, shard: ShardID, now: Time, ttl: Time, lookup: Lookup): Option<Entry> {
    if e.staleAt != 0 then (if now > e.staleAt then None else Some(e))
    else if ttl > 0 && lookup(shard) != Some(e.address) then Some(e.(staleAt := now + ttl))
    else Some(e)
  }

  /** The cache without the entries of a host, as far as `done` has been visited. */
  function WithoutHost(cache: Cache, done: set<ShardID>, address: Address): Cache {
    map r | r in cache && (r in done ==> cache[r].address != address) :: cache[r]
  }

  /** The cache when staleCheck has visited `done`. */
  function CheckedSome(cache: Cache, done: set<ShardID>, now: Time, ttl: Time, lookup: Lookup): Cache {
    map r | r in cache && (r in done ==> Checked(cache[r], r, now, ttl, lookup).Some?) ::
      if r in done then Checked(cache[r], r, now, ttl, lookup).value else cache[r]
  }

  /** The cache after a step; what it returns is given by `Answer`. */
  function Exec(cache: Cache, step: Step): Cache {
    match step
    case Hit(_, _) => cache
    case Refill(shard, now, lookup) =>
      if shard in cache && cache[shard].Usable(now) then cache
      else if lookup(shard).None? then cache - {shard}
      else cache[shard := Entry(lookup(shard).value, 0)]
    case HostDown(address) => WithoutHost(cache, cache.Keys, address)
    case OwnershipLost(shard, address, hint) =>
      if hint != "" && hint != address then cache[shard := Entry(hint, 0)]
      else if shard in cache && cache[shard].address == address then cache - {shard}
      else cache
    case StaleCheck(now, ttl, lookup) => CheckedSome(cache, cache.Keys, now, ttl, lookup)
  }

  /** The entry that a step of getOrCreateEntry, or of the handling of an error, returns. */
  function Answer(cache: Cache, step: Step): Option<Entry> {
    match step
    case Hit(shard, now) => if shard in cache && cache[shard].Usable(now) then Some(cache[shard]) else None
    case Refill(shard, _, _) => if shard in Exec(cache, step) then Some(Exec(cache, step)[shard]) else None
    case OwnershipLost(shard, address, hint) => if hint != "" && hint != address then Some(Entry(hint, 0)) else None
    case _ => None
  }

  /** Nothing but the entry of the shard may have changed. */
  ghost predicate SameBut(before: Cache, after: Cache, shard: ShardID) {
    forall r | r != shard :: (r in after <==> r in before) && (r in before ==> after[r] == before[r])
  }

  class CachingRedirector {
    var cache: Cache

    constructor ()
      ensures cache == map[]
    {
      cache := map[];
    }

    /** The part of getOrCreateEntry under the read lock: an entry without deadline, or before
        it, is returned. */
    method LookIn(shard: ShardID, now: Time) returns (entry: Option<Entry>)
      ensures entry == Answer(cache, Hit(shard, now)) && cache == Exec(cache, Hit(shard, now))
      ensures entry.Some? <==> shard in cache && (cache[shard].staleAt == 0 || now < cache[shard].staleAt)
      ensures entry.Some? ==> entry.value == cache[shard]
    {
      if shard in cache && (cache[shard].staleAt == 0 || now < cache[shard].staleAt) {
        return Some(cache[shard]);
      }
      return None;
    }

    /** The part of getOrCreateEntry under the write lock: where there is no usable entry, what
        the lookup gives is cached without deadline and returned. */
    method Refill(shard: ShardID, now: Time, lookup: Lookup) returns (entry: Option<Entry>)
      modifies this
      ensures cache == Exec(old(cache), Step.Refill(shard, now, lookup))
      ensures entry == Answer(old(cache), Step.Refill(shard, now, lookup))
      ensures if shard in old(cache) && (old(cache)[shard].staleAt == 0 || now < old(cache)[shard].staleAt) then
                entry == Some(old(cache)[shard]) && cache == old(cache)
              else
                && SameBut(old(cache), cache, shard)
                && match lookup(shard)
                   case Some(address) => entry == Some(Entry(address, 0)) && shard in cache &&
                     cache[shard] == entry.value
                   case None => entry == None && shard !in cache
    {
      if shard in cache {
        if cache[shard].staleAt == 0 || now < cache[shard].staleAt {
          return Some(cache[shard]);
        }
        cache := cache - {shard};
      }
      var address := lookup(shard);
      if address.None? {
        assert shard !in old(cache) ==> old(cache) - {shard} == old(cache);
        return None;
      }
      assert (old(cache) - {shard})[shard := Entry(address.value, 0)] == old(cache)[shard := Entry(address.value, 0)];
      entry := CacheAdd(shard, address.value);
    }

    method CacheAdd(shard: ShardID, address: Address) returns (entry: Option<Entry>)
      modifies this
      ensures entry == Some(Entry(address, 0)) && cache == old(cache)[shard := Entry(address, 0)]
    {
      entry := Some(Entry(address, 0));
      cache := cache[shard := entry.value];
    }

    /** Exactly the entries of the host go. */
    method CacheDeleteByAddress(address: Address)
      modifies this
      ensures cache == Exec(old(cache), HostDown(address))
      ensures forall r :: r in cache <==> r in old(cache) && old(cache)[r].address != address
      ensures forall r | r in cache :: cache[r] == old(cache)[r]
    {
      var shards := cache.Keys;
      var todo := shards;
      ghost var done: set<ShardID> := {};
      while todo != {}
        invariant todo !! done && todo + done == shards
        invariant cache == WithoutHost(old(cache), done, address)
      {
        var shard :| shard in todo;
        HostOneMore(old(cache), done, shard, address);
        if cache[shard].address == address {
          cache := cache - {shard};
        }
        todo, done := todo - {shard}, done + {shard};
      }
      assert done == old(cache).Keys;
    }

    /** A hint to another owner is cached and returned; without one, the entry of the old owner
        goes. */
    method HandleSolError(shard: ShardID, address: Address, hint: Address) returns (entry: Option<Entry>)
      modifies this
      ensures cache == Exec(old(cache), OwnershipLost(shard, address, hint))
      ensures entry == Answer(old(cache), OwnershipLost(shard, address, hint))
      ensures SameBut(old(cache), cache, shard)
      ensures entry.Some? <==> hint != "" && hint != address
      ensures entry.Some? ==> entry.value == Entry(hint, 0) && shard in cache && cache[shard] == entry.value
      ensures entry.None? ==> (shard in cache <==> shard in old(cache) && old(cache)[shard].address != address)
      ensures entry.None? && shard in cache ==> cache[shard] == old(cache)[shard]
    {
      if shard in cache && cache[shard].address == address {
        cache := cache - {shard};
      }
      if |hint| != 0 && hint != address {
        assert cache[shard := Entry(hint, 0)] == old(cache)[shard := Entry(hint, 0)];
        entry := CacheAdd(shard, hint);
        return;
      }
      return None;
    }

    /** Entries after their deadline go; those without one that disagree with membership get
        it, if there is a time to live; all others stay. */
    method StaleCheck(now: Time, ttl: Time, lookup: Lookup)
      modifies this
      ensures cache == Exec(old(cache), Step.StaleCheck(now, ttl, lookup))
      ensures forall r ::
                r in cache <==> r in old(cache) && (old(cache)[r].staleAt == 0 || now <= old(cache)[r].staleAt)
      ensures forall r | r in cache ::
                && cache[r].address == old(cache)[r].address
                && cache[r].staleAt == if old(cache)[r].staleAt == 0 && ttl > 0 &&
                   lookup(r) != Some(old(cache)[r].address)
                                       then now + ttl else old(cache)[r].staleAt
    {
      var shards := cache.Keys;
      var todo := shards;
      ghost var done: set<ShardID> := {};
      while todo != {}
        invariant todo !! done && todo + done == shards
        invariant cache == CheckedSome(old(cache), done, now, ttl, lookup)
      {
        var shard :| shard in todo;
        var entry := cache[shard];
        if entry.staleAt != 0 {
          if now > entry.staleAt {
            cache := cache - {shard};
          }
        } else if ttl > 0 {
          var address := lookup(shard);
          if address.None? || address.value != entry.address {
            cache := cache[shard := entry.(staleAt := now + ttl)];
          }
        }
        CheckedOneMore(old(cache), done, shard, now, ttl, lookup);
        todo, done := todo - {shard}, done + {shard};
      }
      assert done == old(cache).Keys;
    }
  }

  lemma HostOneMore(cache: Cache, done: set<ShardID>, shard: ShardID, address: Address)
    requires shard in cache && shard !in done
    ensures var before := WithoutHost(cache, done, address);
            WithoutHost(cache, done + {shard}, address) == if cache[shard].address == address then before - {shard}
                                                           else before
  {
  }

  lemma CheckedOneMore(cache: Cache, done: set<ShardID>, shard: ShardID, now: Time, ttl: Time,
                       lookup: Lookup)
    requires shard in cache && shard !in done
    ensures var checked := Checked(cache[shard], shard, now, ttl, lookup);
            var before := CheckedSome(cache, done, now, ttl, lookup);
            CheckedSome(cache, done + {shard}, now, ttl, lookup) ==
            if checked.Some? then before[shard := checked.value] else before - {shard}
    ensures CheckedSome(cache, done, now, ttl, lookup)[shard := cache[shard]] ==
            CheckedSome(cache, done, now, ttl, lookup)
  {
  }

  // ----- Bounded staleness

  /** The step gave this address for the shard: membership did, when it was looked up, or the
      hint of an ownership-lost error. */
  predicate Gives(step: Step, shard: ShardID, address: Address) {
    || (step.Refill? && step.shard == shard && step.lookup(shard) == Some(address))
    || (step.OwnershipLost? && step.shard == shard && step.hint == address && address != "" && step.address != address)
  }

  ghost predicate IsRun(states: seq<Cache>, steps: seq<Step>) {
    |states| == |steps| + 1 && forall i: nat | i < |steps| :: Follows(states, steps, i)
  }

  ghost predicate Follows(states: seq<Cache>, steps: seq<Step>, i: nat)
    requires |states| == |steps| + 1 && i < |steps|
  {
    states[i + 1] == Exec(states[i], steps[i])
  }

  /** One of the steps after `m` and before `n` gave this address. */
  ghost predicate GivenSince(steps: seq<Step>, m: nat, n: nat, shard: ShardID, address: Address) {
    exists k: nat :: m < k < n && k < |steps| && Gives(steps[k], shard, address)
  }

  /** Before step `n` the entry of the shard expires at `deadline`, or its address was given
      since step `m`. */
  ghost predicate Bounded(cache: Cache, steps: seq<Step>, m: nat, n: nat, shard: ShardID, deadline: Time) {
    shard in cache ==> cache[shard].staleAt == deadline || GivenSince(steps, m, n, shard, cache[shard].address)
  }

  /** A check that sees the cached owner disagree with membership sets the deadline. */
  lemma CheckSetsDeadline(cache: Cache, now: Time, ttl: Time, lookup: Lookup, shard: ShardID)
    requires ttl > 0 && shard in cache && cache[shard].staleAt == 0 && lookup(shard) != Some(cache[shard].address)
    ensures var after := Exec(cache, StaleCheck(now, ttl, lookup));
            shard in after && after[shard] == Entry(cache[shard].address, now + ttl)
  {
  }

  lemma GivenLater(steps: seq<Step>, m: nat, n: nat, shard: ShardID, address: Address)
    requires m < n < |steps| && (GivenSince(steps, m, n, shard, address) || Gives(steps[n], shard, address))
    ensures GivenSince(steps, m, n + 1, shard, address)
  {
    if Gives(steps[n], shard, address) {
      assert m < n < n + 1;
    } else {
      var k: nat :| m < k < n && k < |steps| && Gives(steps[k], shard, address);
      assert k < n + 1;
    }
  }

  /** No step postpones it: an entry with another address than before has been given it. */
  lemma StepKeepsDeadline(cache: Cache, steps: seq<Step>, m: nat, n: nat, shard: ShardID, deadline: Time)
    requires m < n < |steps| && deadline != 0 && Bounded(cache, steps, m, n, shard, deadline)
    ensures Bounded(Exec(cache, steps[n]), steps, m, n + 1, shard, deadline)
  {
    var after := Exec(cache, steps[n]);
    if shard in after {
      KeptOrGiven(cache, steps[n], shard);
      if GivenSince(steps, m, n, shard, after[shard].address) || Gives(steps[n], shard, after[shard].address) {
        GivenLater(steps, m, n, shard, after[shard].address);
      }
    }
  }

  lemma KeptOrGiven(cache: Cache, step: Step, shard: ShardID)
    ensures var after := Exec(cache, step);
            shard in after ==>
              || Gives(step, shard, after[shard].address)
              || (shard in cache && after[shard].address == cache[shard].address &&
                  (cache[shard].staleAt != 0 ==> after[shard].staleAt == cache[shard].staleAt))
  {
  }

  lemma {:induction false} RunKeepsDeadline(states: seq<Cache>, steps: seq<Step>, m: nat, n: nat, shard: ShardID,
                                            deadline: Time)
    requires IsRun(states, steps) && m < n < |states| && deadline != 0
    requires Bounded(states[m + 1], steps, m, m + 1, shard, deadline)
    ensures Bounded(states[n], steps, m, n, shard, deadline)
  {
    if m + 1 < n {
      RunKeepsDeadline(states, steps, m, n - 1, shard, deadline);
      assert Follows(states, steps, n - 1);
      StepKeepsDeadline(states[n - 1], steps, m, n - 1, shard, deadline);
    }
  }

  /** At or after the deadline, what getOrCreateEntry returns was given since the check. */
  lemma AnswerIsFresh(cache: Cache, steps: seq<Step>, m: nat, n: nat, shard: ShardID, deadline: Time)
    requires m < n < |steps| && deadline != 0 && Bounded(cache, steps, m, n, shard, deadline)
    requires (steps[n].Hit? || steps[n].Refill?) && steps[n].shard == shard && deadline <= steps[n].now
    ensures Answer(cache, steps[n]).Some? ==> GivenSince(steps, m, n + 1, shard, Answer(cache, steps[n]).value.address)
  {
    if Answer(cache, steps[n]).Some? {
      GivenLater(steps, m, n, shard, Answer(cache, steps[n]).value.address);
    }
  }

  /** Bounded staleness, for every interleaving: when a check at step `m` sees the cached owner
      of a shard disagree with membership, then the address that getOrCreateEntry returns for
      the shard once the TTL has passed is one that a lookup or a hint has given since. */
  lemma BoundedStaleness(states: seq<Cache>, steps: seq<Step>, m: nat, n: nat, shard: ShardID)
    requires IsRun(states, steps) && m < n < |steps|
    requires steps[m].StaleCheck? && steps[m].ttl > 0 && steps[m].now > 0
    requires shard in states[m] && states[m][shard].staleAt == 0
    requires steps[m].lookup(shard) != Some(states[m][shard].address)
    requires (steps[n].Hit? || steps[n].Refill?) && steps[n].shard == shard &&
             steps[n].now >= steps[m].now + steps[m].ttl
    ensures Answer(states[n], steps[n]).Some? ==>
              exists k: nat :: m < k <= n && Gives(steps[k], shard, Answer(states[n], steps[n]).value.address)
  {
    var deadline := steps[m].now + steps[m].ttl;
    assert Follows(states, steps, m);
    CheckSetsDeadline(states[m], steps[m].now, steps[m].ttl, steps[m].lookup, shard);
    RunKeepsDeadline(states, steps, m, n, shard, deadline);
    AnswerIsFresh(states[n], steps, m, n, shard, deadline);
  }
}
