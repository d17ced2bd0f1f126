/** The workload loop of `internal/benchmark/eviction.go`, and what it measures of an LRU cache at each capacity. */
module Benchmark {
  import opened Recency
  import opened PolicyModel
  import opened CacheModel
  import opened CacheCalls
  import Objects = InMemoryCache

  const TTL := 60 * 1_000_000_000  // nanoseconds

  datatype BenchOp = BenchOp(key: string, isRead: bool)

  function KeysOf(ops: seq<BenchOp>): seq<string> { seq(|ops|, i requires 0 <= i < |ops| => ops[i].key) }

  function Reads(ops: seq<BenchOp>): nat {
    if ops == [] then 0 else Reads(ops[..|ops| - 1]) + if ops[|ops| - 1].isRead then 1 else 0
  }

  /** The reads that find their key in a least-recently-used cache of this capacity. */
  function LruHits(capacity: nat, ops: seq<BenchOp>): nat {
    if ops == [] then 0
    else
      var before, op := ops[..|ops| - 1], ops[|ops| - 1];
      LruHits(capacity, before) + if op.isRead && op.key in Requests(capacity, KeysOf(before)) then 1 else 0
  }

  function Seen(ops: seq<BenchOp>): set<string> { set k | k in KeysOf(ops) }

  /** The writes made once as many keys have been seen as fit. */
  function FullWrites(capacity: nat, ops: seq<BenchOp>): nat {
    if ops == [] then 0
    else
      var before, op := ops[..|ops| - 1], ops[|ops| - 1];
      FullWrites(capacity, before) + if !op.isRead && |Seen(before)| >= capacity then 1 else 0
  }

  /** Under every policy the cache holds all keys seen until it is full, and then stays full. */
  ghost predicate Filled(keys: set<string>, capacity: nat, ops: seq<BenchOp>) {
    if |Seen(ops)| < capacity then keys == Seen(ops) else |keys| == capacity
  }

  lemma FillOne(keys: set<string>, after: set<string>, capacity: nat, ops: seq<BenchOp>, i: nat)
    requires i < |ops| && Filled(keys, capacity, ops[..i]) && Grown(keys, after, capacity, ops[i].key)
    ensures Filled(after, capacity, ops[..i + 1])
    ensures FullWrites(capacity, ops[..i + 1])
         == FullWrites(capacity, ops[..i]) + if !ops[i].isRead && |keys| >= capacity then 1 else 0
  {
    var prefix, key := ops[..i], ops[i].key;
    assert ops[..i + 1][..i] == prefix;
    assert KeysOf(ops[..i + 1]) == KeysOf(prefix) + [key];
    assert Seen(ops[..i + 1]) == Seen(prefix) + {key};
  }

  /** Raising the capacity never lowers the hit count on the same workload. */
  lemma {:induction false} MoreCapacityMoreHits(small: nat, large: nat, ops: seq<BenchOp>)
    requires 1 <= small <= large
    ensures LruHits(small, ops) <= LruHits(large, ops)
  {
    if ops != [] {
      MoreCapacityMoreHits(small, large, ops[..|ops| - 1]);
      SmallerIsIncluded(small, large, KeysOf(ops[..|ops| - 1]));
    }
  }

  // ----- one operation on an LRU cache -----

  /** A Set, and a touch of a cached key, move the LRU order as one request does. */
  lemma PutIsRequest(c: CacheView, capacity: nat, key: string, value: Bytes, expiresAt: int, now: int, noted: int,
                     victim: string)
    requires capacity >= 1 && InStep(c, capacity) && c.policy.LruView?
    requires MustEvict(c, capacity, key) ==> c.policy.MayEvict(victim)
    ensures WithPut(c, capacity, key, value, expiresAt, now, noted, victim).policy
         == LruView(Request(c.policy.order, capacity, key))
  {
    var order := c.policy.order;
    SizeOfOrder(c, capacity);
    assert key in c.entries <==> key in order by { assert key in c.entries <==> key in c.policy.Tracked(); }
    if key !in c.entries && MustEvict(c, capacity, key) {
      WithoutAt(order, |order| - 1);
      assert Without(order, victim) == order[..|order| - 1];
    }
  }

  lemma SizeOfOrder(c: CacheView, capacity: nat)
    requires InStep(c, capacity) && c.policy.LruView?
    ensures |c.policy.order| == |c.entries|
  {
    DistinctSize(c.policy.order);
    assert |c.entries.Keys| == |c.entries|;
  }

  lemma {:induction false} DistinctSize(s: seq<string>)
    requires Distinct(s)
    ensures |set k | k in s| == |s|
  {
    if s != [] {
      var front, last := s[..|s| - 1], s[|s| - 1];
      DistinctSize(front);
      assert (set k | k in s) == (set k | k in front) + {last};
    }
  }

  /** A read that finds its key expired removes it and stores it anew: in the LRU order that is a request too. */
  lemma RefillIsRequest(c: CacheView, capacity: nat, key: string)
    requires InStep(c, capacity) && c.policy.LruView? && key in c.entries
    ensures [key] + Remove(c, key).policy.order == Request(c.policy.order, capacity, key)
  {
    assert key in c.policy.Tracked();
  }

  // ----- operations as requests -----

  /** No entry expires before a TTL after `start`. */
  ghost predicate FreshSince(c: CacheView, start: int) {
    forall k <- c.entries :: c.entries[k].expiresAt >= start + TTL
  }

  /** While there is room the key joins the cached keys; a full cache stays full. */
  ghost predicate Grown(before: set<string>, after: set<string>, capacity: nat, key: string) {
    if |before| < capacity then after == before + {key} else |after| == capacity
  }

  /** What one operation on `key` leaves behind, apart from counters. */
  ghost predicate Requested(before: CacheView, after: CacheView, capacity: nat, key: string) {
    && Grown(before.entries.Keys, after.entries.Keys, capacity, key)
    && (before.policy.LruView? ==> after.policy == LruView(Request(before.policy.order, capacity, key)))
  }

  lemma PutGrows(c: CacheView, capacity: nat, key: string, value: Bytes, expiresAt: int, now: int, noted: int,
                 victim: string)
    requires capacity >= 1 && InStep(c, capacity)
    requires MustEvict(c, capacity, key) ==> c.policy.MayEvict(victim)
    ensures var after := WithPut(c, capacity, key, value, expiresAt, now, noted, victim);
            Grown(c.entries.Keys, after.entries.Keys, capacity, key)
  {
    assert |c.entries.Keys| == |c.entries|;
    PutEvictsAtMostOne(c, capacity, Put(key, value, expiresAt, now, noted, victim));
    if |c.entries| == capacity {
      assert c.entries.Keys != {};
      if key in c.entries {
        assert c.entries.Keys + {key} == c.entries.Keys;
      }
    }
  }

  /** A read that misses on a lapsed key first drops it. */
  lemma RefillGrows(before: set<string>, after: set<string>, capacity: nat, key: string)
    requires key in before && |before| <= capacity && Grown(before - {key}, after, capacity, key)
    ensures Grown(before, after, capacity, key)
  {
    assert before - {key} + {key} == before == before + {key};
  }

  const VALUE: Bytes := [118, 97, 108, 117, 101]  // "value"

  // ----- one operation -----

  /** The clock readings of an iteration, each taken by itself: Get's check and its end, the policy's in Get, Set's and
      the policy's in Set. */
  datatype Readings = Readings(got: int, later: int, noted: int, stored: int, storeNoted: int)

  function StoredAt(c: CacheView, capacity: nat, key: string, r: Readings, victim: string): CacheView {
    WithPut(c, capacity, key, VALUE, Deadline(r.stored, TTL), r.stored, r.storeNoted, victim)
  }

  function Got(c: CacheView, capacity: nat, key: string, r: Readings): CacheView {
    After(c, capacity, GetCall(key, r.got, r.later, r.noted))
  }

  /** A read is a Get, and on a miss a Set; a write is a Set. */
  function Performed(c: CacheView, capacity: nat, op: BenchOp, r: Readings, victim: string): CacheView {
    if !op.isRead then StoredAt(c, capacity, op.key, r, victim)
    else
      var got := Got(c, capacity, op.key, r);
      if Found(c, op.key, r.got).Some? then got else StoredAt(got, capacity, op.key, r, victim)
  }

  /** `victim` is what the policy returned, if the operation had to evict. */
  ghost predicate MayPerform(c: CacheView, capacity: nat, op: BenchOp, r: Readings, victim: string) {
    var before := if op.isRead then Got(c, capacity, op.key, r) else c;
    MustEvict(before, capacity, op.key) ==> before.policy.MayEvict(victim)
  }

  ghost predicate Performs(c: CacheView, after: CacheView, capacity: nat, op: BenchOp, r: Readings, victim: string) {
    MayPerform(c, capacity, op, r, victim) && after == Performed(c, capacity, op, r, victim)
  }

  lemma StoreIsRequest(c: CacheView, capacity: nat, key: string, r: Readings, victim: string, start: int)
    requires capacity >= 1 && InStep(c, capacity) && FreshSince(c, start) && start <= r.stored
    requires MustEvict(c, capacity, key) ==> c.policy.MayEvict(victim)
    ensures var after := StoredAt(c, capacity, key, r, victim);
            Requested(c, after, capacity, key) && FreshSince(after, start)
  {
    PutGrows(c, capacity, key, VALUE, Deadline(r.stored, TTL), r.stored, r.storeNoted, victim);
    if c.policy.LruView? {
      PutIsRequest(c, capacity, key, VALUE, Deadline(r.stored, TTL), r.stored, r.storeNoted, victim);
    }
  }

  lemma GetStaysFresh(c: CacheView, capacity: nat, key: string, r: Readings, start: int)
    requires FreshSince(c, start)
    ensures FreshSince(Got(c, capacity, key, r), start)
  {
  }

  /** A hit is a request; a miss leaves a cache in which storing the key is that request. */
  lemma ReadIsRequest(c: CacheView, after: CacheView, capacity: nat, key: string, r: Readings)
    requires InStep(c, capacity)
    requires var got := Got(c, capacity, key, r);
             if Found(c, key, r.got).Some? then after == got else Requested(got, after, capacity, key)
    ensures Requested(c, after, capacity, key)
  {
    assert |c.entries.Keys| == |c.entries|;
    assert key in c.entries <==> key in c.policy.Tracked();
    if Found(c, key, r.got).Some? {
      assert Got(c, capacity, key, r).entries.Keys == c.entries.Keys == c.entries.Keys + {key};
    } else if Got(c, capacity, key, r) != c {
      assert key in c.entries && Got(c, capacity, key, r) == Remove(c, key);
      assert Remove(c, key).entries.Keys == c.entries.Keys - {key};
      RefillGrows(c.entries.Keys, after.entries.Keys, capacity, key);
      if c.policy.LruView? { LapsedReadIsRequest(c, capacity, key); }
    }
  }

  lemma LapsedReadIsRequest(c: CacheView, capacity: nat, key: string)
    requires InStep(c, capacity) && c.policy.LruView? && key in c.entries
    ensures Request(Remove(c, key).policy.order, capacity, key) == Request(c.policy.order, capacity, key)
  {
    assert key in c.policy.Tracked();
    RefillIsRequest(c, capacity, key);
    SizeOfOrder(c, capacity);
    WithoutMembers(c.policy.order, key);
    ShorterWithout(c.policy.order, key);
  }

  lemma ShorterWithout(s: seq<string>, key: string)
    requires Distinct(s) && key in s
    ensures |Without(s, key)| == |s| - 1
  {
    var i :| 0 <= i < |s| && s[i] == key;
    WithoutAt(s, i);
  }

  lemma OperationIsRequest(c: CacheView, capacity: nat, op: BenchOp, r: Readings, victim: string, start: int)
    requires capacity >= 1 && InStep(c, capacity) && FreshSince(c, start) && start <= r.stored
    requires MayPerform(c, capacity, op, r, victim)
    ensures var after := Performed(c, capacity, op, r, victim);
            Requested(c, after, capacity, op.key) && FreshSince(after, start)
  {
    if op.isRead {
      var got := Got(c, capacity, op.key, r);
      GetStaysFresh(c, capacity, op.key, r, start);
      if Found(c, op.key, r.got).None? {
        GetStaysInStep(c, capacity, op.key, r);
        StoreIsRequest(got, capacity, op.key, r, victim, start);
      }
      ReadIsRequest(c, Performed(c, capacity, op, r, victim), capacity, op.key, r);
    } else {
      StoreIsRequest(c, capacity, op.key, r, victim, start);
    }
  }

  lemma GetStaysInStep(c: CacheView, capacity: nat, key: string, r: Readings)
    requires capacity >= 1 && InStep(c, capacity)
    ensures InStep(Got(c, capacity, key, r), capacity)
  {
    var section := SectionOf(c, GetCall(key, r.got, r.later, r.noted));
    if section.Some? { SectionKeepsInStep(c, capacity, section.value); }
  }

  /** A read that hits keeps value and expiry of its key; every other operation leaves "value" under its key for a
      minute.  No operation changes value or expiry of another key. */
  ghost predicate Writes(before: map<string, EntryView>, after: map<string, EntryView>, op: BenchOp, r: Readings,
                         hit: bool)
  {
    && op.key in after
    && (hit ==> op.key in before && after[op.key].value == before[op.key].value
                && after[op.key].expiresAt == before[op.key].expiresAt)
    && (!hit ==> after[op.key].value == [118, 97, 108, 117, 101]
                 && after[op.key].expiresAt == r.stored + 60_000_000_000)
    && forall k <- after :: k != op.key ==>
         k in before && after[k].value == before[k].value && after[k].expiresAt == before[k].expiresAt
  }

  lemma StoreWrites(c: CacheView, capacity: nat, op: BenchOp, r: Readings, victim: string)
    ensures Writes(c.entries, StoredAt(c, capacity, op.key, r, victim).entries, op, r, false)
  {
  }

  lemma PerformedWrites(c: CacheView, after: CacheView, capacity: nat, op: BenchOp, r: Readings, victim: string)
    requires Performs(c, after, capacity, op, r, victim)
    ensures Writes(c.entries, after.entries, op, r, op.isRead && Found(c, op.key, r.got).Some?)
  {
    if !op.isRead {
      StoreWrites(c, capacity, op, r, victim);
    } else {
      var got := Got(c, capacity, op.key, r);
      GetDoes(c, capacity, op.key, r.got, r.later, r.noted);
      GetKeepsOthers(c.entries, got.entries, op.key);
      if Found(c, op.key, r.got).None? { StoreWrites(got, capacity, op, r, victim); }
    }
  }

  lemma GetKeepsOthers(before: map<string, EntryView>, after: map<string, EntryView>, key: string)
    requires after - {key} == before - {key}
    ensures forall k <- after :: k != key ==> k in before && after[k] == before[k]
  {
    forall k <- after | k != key ensures k in before && after[k] == before[k] {
      assert k in after - {key} && (after - {key})[k] == (before - {key})[k];
    }
  }

  // ----- runs of the loop -----

  /** The caches between the iterations; `victims` is what the policy returned where it was asked. */
  ghost predicate IsBenchRun(run: seq<CacheView>, capacity: nat, ops: seq<BenchOp>, clock: seq<Readings>,
                             victims: seq<string>)
  {
    && |run| == |ops| + 1 && |clock| == |victims| == |ops|
    && run[0].entries == map[] && run[0].policy.WellFormed() && run[0].policy.Tracked() == {}
    && forall i :: 0 <= i < |ops| ==> Iterates(run, capacity, ops, clock, victims, i)
  }

  ghost predicate Iterates(run: seq<CacheView>, capacity: nat, ops: seq<BenchOp>, clock: seq<Readings>,
                           victims: seq<string>, i: int)
    requires 0 <= i < |ops| == |clock| == |victims| && |run| == |ops| + 1
  {
    Performs(run[i], run[i + 1], capacity, ops[i], clock[i], victims[i])
  }

  lemma OneMoreRun(run: seq<CacheView>, capacity: nat, ops: seq<BenchOp>, clock: seq<Readings>, victims: seq<string>,
                   op: BenchOp, r: Readings, victim: string, after: CacheView)
    requires IsBenchRun(run, capacity, ops, clock, victims)
    requires Performs(run[|ops|], after, capacity, op, r, victim)
    ensures IsBenchRun(run + [after], capacity, ops + [op], clock + [r], victims + [victim])
  {
    var run', ops', clock', victims' := run + [after], ops + [op], clock + [r], victims + [victim];
    forall i | 0 <= i < |ops'| ensures Iterates(run', capacity, ops', clock', victims', i) {
      if i < |ops| {
        assert Iterates(run, capacity, ops, clock, victims, i);
        assert run'[i] == run[i] && run'[i + 1] == run[i + 1];
        assert ops'[i] == ops[i] && clock'[i] == clock[i] && victims'[i] == victims[i];
      } else {
        assert run'[i] == run[|ops|] && run'[i + 1] == after;
        assert ops'[i] == op && clock'[i] == r && victims'[i] == victim;
      }
    }
  }

  lemma PerformedStaysInStep(c: CacheView, after: CacheView, capacity: nat, op: BenchOp, r: Readings, victim: string)
    requires capacity >= 1 && InStep(c, capacity) && Performs(c, after, capacity, op, r, victim)
    ensures InStep(after, capacity)
  {
    if !op.isRead {
      StoreStaysInStep(c, capacity, op.key, r, victim);
    } else {
      GetStaysInStep(c, capacity, op.key, r);
      if Found(c, op.key, r.got).None? {
        StoreStaysInStep(Got(c, capacity, op.key, r), capacity, op.key, r, victim);
      }
    }
  }

  lemma StoreStaysInStep(c: CacheView, capacity: nat, key: string, r: Readings, victim: string)
    requires capacity >= 1 && InStep(c, capacity) && (MustEvict(c, capacity, key) ==> c.policy.MayEvict(victim))
    ensures InStep(StoredAt(c, capacity, key, r, victim), capacity)
  {
    PutKeepsInStep(c, capacity, key, VALUE, Deadline(r.stored, TTL), r.stored, r.storeNoted, victim);
  }

  lemma OneMoreInStep(run: seq<CacheView>, capacity: nat, ops: seq<BenchOp>, clock: seq<Readings>, victims: seq<string>,
                      i: nat)
    requires capacity >= 1 && IsBenchRun(run, capacity, ops, clock, victims) && 0 < i < |run|
    requires InStep(run[i - 1], capacity)
    ensures InStep(run[i], capacity)
  {
    assert Iterates(run, capacity, ops, clock, victims, i - 1);
    PerformedStaysInStep(run[i - 1], run[i], capacity, ops[i - 1], clock[i - 1], victims[i - 1]);
  }

  lemma {:induction false} BenchRunStaysInStep(run: seq<CacheView>, capacity: nat, ops: seq<BenchOp>,
                                               clock: seq<Readings>, victims: seq<string>, i: nat)
    requires capacity >= 1 && IsBenchRun(run, capacity, ops, clock, victims) && i < |run|
    ensures InStep(run[i], capacity)
  {
    if i > 0 {
      BenchRunStaysInStep(run, capacity, ops, clock, victims, i - 1);
      OneMoreInStep(run, capacity, ops, clock, victims, i);
    }
  }

  // ----- what the counters count -----

  ghost predicate WithinTtl(clock: seq<Readings>, start: int) {
    forall i :: 0 <= i < |clock| ==> clock[i].got <= start + 60_000_000_000
  }

  datatype Counts = Counts(hits: nat, misses: nat, evictions: nat)

  /** What the counters become with one more operation. */
  function Counted(c: CacheView, capacity: nat, op: BenchOp, r: Readings, n: Counts): Counts {
    if !op.isRead then n.(evictions := n.evictions + if |c.entries| == capacity then 1 else 0)
    else if Found(c, op.key, r.got).Some? then n.(hits := n.hits + 1)
    else n.(misses := n.misses + 1)
  }

  function Tally(run: seq<CacheView>, capacity: nat, ops: seq<BenchOp>, clock: seq<Readings>, i: nat): Counts
    requires i <= |ops| && i < |run| && i <= |clock|
  {
    if i == 0 then Counts(0, 0, 0)
    else Counted(run[i - 1], capacity, ops[i - 1], clock[i - 1], Tally(run, capacity, ops, clock, i - 1))
  }

  /** The reads that found their key expired. */
  function Lapses(run: seq<CacheView>, ops: seq<BenchOp>, clock: seq<Readings>, i: nat): nat
    requires i <= |ops| && i < |run| && i <= |clock|
  {
    if i == 0 then 0
    else Lapses(run, ops, clock, i - 1) + LapseCount(run[i - 1], ops[i - 1], clock[i - 1])
  }

  function LapseCount(c: CacheView, op: BenchOp, r: Readings): nat {
    if op.isRead && op.key in c.entries && c.entries[op.key].IsExpired(r.got) then 1 else 0
  }

  /** The counters after `ops`, and how full the cache is. */
  ghost predicate Measured(c: CacheView, capacity: nat, ops: seq<BenchOp>, n: Counts) {
    n.hits + n.misses == Reads(ops) && n.evictions == FullWrites(capacity, ops) && Filled(c.entries.Keys, capacity, ops)
  }

  /** On an LRU cache: its contents, and the reads that found their key, lapsed or not. */
  ghost predicate Followed(c: CacheView, capacity: nat, ops: seq<BenchOp>, present: nat) {
    present == LruHits(capacity, ops) && c.policy == LruView(Requests(capacity, KeysOf(ops)))
  }

  /** What the loop keeps. `lru` and `timely` say whether the policy is LRU and the clock stays within a TTL of
      `start`. */
  ghost predicate Progress(c: CacheView, capacity: nat, ops: seq<BenchOp>, start: int, lru: bool, timely: bool,
                           n: Counts, lapses: nat)
  {
    && FreshSince(c, start) && Measured(c, capacity, ops, n)
    && (lru ==> Followed(c, capacity, ops, n.hits + lapses)) && (timely ==> lapses == 0)
  }

  lemma EmptyMembers(s: seq<string>)
    ensures s == [] <==> (set k | k in s) == {}
  {
    var members := set k | k in s;
    if s != [] { assert s[0] in members; }
  }

  lemma NothingDone(c: CacheView, capacity: nat, ops: seq<BenchOp>, start: int, timely: bool)
    requires capacity >= 1 && c.entries == map[] && c.policy.Tracked() == {}
    ensures Progress(c, capacity, ops[..0], start, c.policy.LruView?, timely, Counts(0, 0, 0), 0)
  {
    assert KeysOf(ops[..0]) == [] && Seen(ops[..0]) == {};
    if c.policy.LruView? { EmptyMembers(c.policy.order); }
  }

  lemma OneMoreDone(c: CacheView, after: CacheView, capacity: nat, ops: seq<BenchOp>, i: nat, r: Readings, start: int,
                    lru: bool, timely: bool, n: Counts, lapses: nat)
    requires i < |ops| && InStep(c, capacity) && Progress(c, capacity, ops[..i], start, lru, timely, n, lapses)
    requires Requested(c, after, capacity, ops[i].key) && FreshSince(after, start)
    requires timely ==> r.got <= start + TTL
    ensures Progress(after, capacity, ops[..i + 1], start, lru, timely,
                     Counted(c, capacity, ops[i], r, n), lapses + LapseCount(c, ops[i], r))
  {
    PresentCount(c, capacity, ops[i], r, n, start);
    MeasureOne(c, after, capacity, ops, i, r, n);
    if lru { FollowOne(c, after, capacity, ops, i, n.hits + lapses); }
  }

  /** A read that finds its key is a hit or a lapse, and no lapse within a TTL of `start`. */
  lemma PresentCount(c: CacheView, capacity: nat, op: BenchOp, r: Readings, n: Counts, start: int)
    requires FreshSince(c, start)
    ensures Counted(c, capacity, op, r, n).hits + LapseCount(c, op, r)
         == n.hits + if op.isRead && op.key in c.entries then 1 else 0
    ensures r.got <= start + TTL ==> LapseCount(c, op, r) == 0
  {
  }

  lemma {:induction false} RunMakesProgress(run: seq<CacheView>, capacity: nat, ops: seq<BenchOp>, clock: seq<Readings>,
                                            victims: seq<string>, start: int, i: nat)
    requires capacity >= 1 && IsBenchRun(run, capacity, ops, clock, victims) && i < |run|
    requires forall j :: 0 <= j < |clock| ==> start <= clock[j].stored
    ensures Progress(run[i], capacity, ops[..i], start, run[0].policy.LruView?, WithinTtl(clock, start),
                     Tally(run, capacity, ops, clock, i), Lapses(run, ops, clock, i))
  {
    var lru, timely := run[0].policy.LruView?, WithinTtl(clock, start);
    if i == 0 {
      NothingDone(run[0], capacity, ops, start, timely);
    } else {
      RunMakesProgress(run, capacity, ops, clock, victims, start, i - 1);
      BenchRunStaysInStep(run, capacity, ops, clock, victims, i - 1);
      assert Iterates(run, capacity, ops, clock, victims, i - 1);
      OperationIsRequest(run[i - 1], capacity, ops[i - 1], clock[i - 1], victims[i - 1], start);
      OneMoreDone(run[i - 1], run[i], capacity, ops, i - 1, clock[i - 1], start, lru, timely,
                  Tally(run, capacity, ops, clock, i - 1), Lapses(run, ops, clock, i - 1));
    }
  }

  lemma MeasureOne(c: CacheView, after: CacheView, capacity: nat, ops: seq<BenchOp>, i: nat, r: Readings, n: Counts)
    requires i < |ops| && InStep(c, capacity) && Measured(c, capacity, ops[..i], n)
    requires Requested(c, after, capacity, ops[i].key)
    ensures Measured(after, capacity, ops[..i + 1], Counted(c, capacity, ops[i], r, n))
  {
    assert ops[..i + 1][..i] == ops[..i];
    assert |c.entries.Keys| == |c.entries|;
    FillOne(c.entries.Keys, after.entries.Keys, capacity, ops, i);
  }

  lemma FollowOne(c: CacheView, after: CacheView, capacity: nat, ops: seq<BenchOp>, i: nat, present: nat)
    requires i < |ops| && InStep(c, capacity) && Followed(c, capacity, ops[..i], present)
    requires Requested(c, after, capacity, ops[i].key)
    ensures Followed(after, capacity, ops[..i + 1], present + if ops[i].isRead && ops[i].key in c.entries then 1 else 0)
  {
    assert ops[..i + 1][..i] == ops[..i];
    assert KeysOf(ops[..i + 1])[..i] == KeysOf(ops[..i]);
    assert ops[i].key in c.entries <==> ops[i].key in c.policy.Tracked();
  }

  // ----- evictions -----

  /** An operation made the cache lose a key. */
  predicate LosesKey(before: CacheView, after: CacheView) { exists k <- before.entries :: k !in after.entries }

  /** The operations that made the cache lose a key. */
  function Evictions(run: seq<CacheView>, i: nat): nat
    requires i < |run|
  {
    if i == 0 then 0 else Evictions(run, i - 1) + if LosesKey(run[i - 1], run[i]) then 1 else 0
  }

  /** The writes that found their key in a full cache. */
  function FullUpdates(run: seq<CacheView>, capacity: nat, ops: seq<BenchOp>, i: nat): nat
    requires i <= |ops| && i < |run|
  {
    if i == 0 then 0
    else
      var c, op := run[i - 1], ops[i - 1];
      var update := !op.isRead && op.key in c.entries && |c.entries| == capacity;
      FullUpdates(run, capacity, ops, i - 1) + if update then 1 else 0
  }

  /** The reads that did not find their key in a full cache. */
  function FullMisses(run: seq<CacheView>, capacity: nat, ops: seq<BenchOp>, i: nat): nat
    requires i <= |ops| && i < |run|
  {
    if i == 0 then 0
    else
      var c, op := run[i - 1], ops[i - 1];
      var miss := op.isRead && op.key !in c.entries && |c.entries| == capacity;
      FullMisses(run, capacity, ops, i - 1) + if miss then 1 else 0
  }

  /** A Set loses a key, the victim and no other, exactly if its own key is not cached and the cache is full. */
  lemma PutLoses(c: CacheView, capacity: nat, key: string, r: Readings, victim: string)
    requires capacity >= 1 && InStep(c, capacity) && (MustEvict(c, capacity, key) ==> c.policy.MayEvict(victim))
    ensures var after := StoredAt(c, capacity, key, r, victim);
            && (forall k <- c.entries :: k !in after.entries <==> MustEvict(c, capacity, key) && k == victim)
            && (LosesKey(c, after) <==> MustEvict(c, capacity, key)) && key in after.entries
    ensures MustEvict(c, capacity, key) <==> key !in c.entries && |c.entries| == capacity
  {
    PutEvictsAtMostOne(c, capacity, Put(key, VALUE, Deadline(r.stored, TTL), r.stored, r.storeNoted, victim));
    assert |c.entries.Keys| == |c.entries|;
    assert |c.entries| == capacity ==> c.entries.Keys != {};
    var after := StoredAt(c, capacity, key, r, victim);
    assert forall k :: k in after.entries <==> k in after.entries.Keys;
  }

  /** An operation loses a key exactly if its own key is not cached and the cache is full. */
  ghost predicate LosesIffFull(c: CacheView, after: CacheView, capacity: nat, op: BenchOp) {
    LosesKey(c, after) <==> op.key !in c.entries && |c.entries| == capacity
  }

  lemma OperationLoses(c: CacheView, capacity: nat, op: BenchOp, r: Readings, victim: string)
    requires capacity >= 1 && InStep(c, capacity) && MayPerform(c, capacity, op, r, victim)
    ensures LosesIffFull(c, Performed(c, capacity, op, r, victim), capacity, op)
  {
    if !op.isRead {
      PutLoses(c, capacity, op.key, r, victim);
    } else {
      var got := Got(c, capacity, op.key, r);
      GetStaysInStep(c, capacity, op.key, r);
      if Found(c, op.key, r.got).None? {
        PutLoses(got, capacity, op.key, r, victim);
        if op.key in c.entries { RemoveKeepsInStep(c, capacity, op.key); }
      }
    }
  }

  lemma RunLoses(run: seq<CacheView>, capacity: nat, ops: seq<BenchOp>, clock: seq<Readings>, victims: seq<string>,
                 i: nat)
    requires capacity >= 1 && IsBenchRun(run, capacity, ops, clock, victims) && 0 < i <= |ops|
    ensures LosesIffFull(run[i - 1], run[i], capacity, ops[i - 1])
  {
    BenchRunStaysInStep(run, capacity, ops, clock, victims, i - 1);
    assert Iterates(run, capacity, ops, clock, victims, i - 1);
    OperationLoses(run[i - 1], capacity, ops[i - 1], clock[i - 1], victims[i - 1]);
  }

  ghost predicate OffBy(run: seq<CacheView>, capacity: nat, ops: seq<BenchOp>, clock: seq<Readings>, i: nat)
    requires i <= |ops| && i < |run| && i <= |clock|
  {
    Tally(run, capacity, ops, clock, i).evictions + FullMisses(run, capacity, ops, i)
    == Evictions(run, i) + FullUpdates(run, capacity, ops, i)
  }

  /** On every run, under every policy: what the loop counts as evictions exceeds the keys really lost by the updates
      made in a full cache, and falls short of them by the reads that missed in a full cache. */
  lemma {:induction false} EvictionCounterIsOffBy(run: seq<CacheView>, capacity: nat, ops: seq<BenchOp>,
                                                  clock: seq<Readings>, victims: seq<string>, i: nat)
    requires capacity >= 1 && IsBenchRun(run, capacity, ops, clock, victims) && i < |run|
    ensures OffBy(run, capacity, ops, clock, i)
  {
    if i > 0 {
      EvictionCounterIsOffBy(run, capacity, ops, clock, victims, i - 1);
      RunLoses(run, capacity, ops, clock, victims, i);
    }
  }

  /** So the counter is right if and only if as many updates found their key in a full cache as reads missed in one. */
  lemma EvictionCounterIsRightIff(run: seq<CacheView>, capacity: nat, ops: seq<BenchOp>, clock: seq<Readings>,
                                  victims: seq<string>)
    requires capacity >= 1 && IsBenchRun(run, capacity, ops, clock, victims)
    ensures var n := |ops|;
            Tally(run, capacity, ops, clock, n).evictions == Evictions(run, n)
            <==> FullUpdates(run, capacity, ops, n) == FullMisses(run, capacity, ops, n)
  {
    EvictionCounterIsOffBy(run, capacity, ops, clock, victims, |ops|);
  }

  /** Writing one key twice to a cache of capacity 1 loses nothing and is counted as an eviction. */
  lemma UpdateIsCounted(run: seq<CacheView>, clock: seq<Readings>, victims: seq<string>, key: string)
    requires IsBenchRun(run, 1, [BenchOp(key, false), BenchOp(key, false)], clock, victims)
    ensures Tally(run, 1, [BenchOp(key, false), BenchOp(key, false)], clock, 2).evictions == 1 && Evictions(run, 2) == 0
  {
    var ops := [BenchOp(key, false), BenchOp(key, false)];
    FirstWrite(run, ops, clock, victims);
    assert Iterates(run, 1, ops, clock, victims, 1);
    BenchRunStaysInStep(run, 1, ops, clock, victims, 1);
    OperationLoses(run[1], 1, ops[1], clock[1], victims[1]);
    assert Tally(run, 1, ops, clock, 1).evictions == 0 && Evictions(run, 1) == 0;
  }

  /** Reading another key than the one written to a cache of capacity 1 loses that key and is not counted. */
  lemma ReadMissIsNotCounted(run: seq<CacheView>, clock: seq<Readings>, victims: seq<string>, key: string,
                             other: string)
    requires IsBenchRun(run, 1, [BenchOp(key, false), BenchOp(other, true)], clock, victims) && key != other
    ensures Tally(run, 1, [BenchOp(key, false), BenchOp(other, true)], clock, 2).evictions == 0
    ensures Evictions(run, 2) == 1
  {
    var ops := [BenchOp(key, false), BenchOp(other, true)];
    FirstWrite(run, ops, clock, victims);
    assert Iterates(run, 1, ops, clock, victims, 1);
    BenchRunStaysInStep(run, 1, ops, clock, victims, 1);
    OperationLoses(run[1], 1, ops[1], clock[1], victims[1]);
    assert Tally(run, 1, ops, clock, 1).evictions == 0 && Evictions(run, 1) == 0;
  }

  lemma FirstWrite(run: seq<CacheView>, ops: seq<BenchOp>, clock: seq<Readings>, victims: seq<string>)
    requires IsBenchRun(run, 1, ops, clock, victims) && ops != [] && !ops[0].isRead
    ensures run[1].entries.Keys == {ops[0].key} && |run[1].entries| == 1
    ensures Tally(run, 1, ops, clock, 1).evictions == 0 && Evictions(run, 1) == 0
  {
    assert Iterates(run, 1, ops, clock, victims, 0);
    assert run[1].entries.Keys == {ops[0].key};
    assert |run[1].entries.Keys| == |run[1].entries|;
    assert !LosesKey(run[0], run[1]);
  }

  // ----- the loop -----

  lemma ReadPerforms(c: CacheView, got: CacheView, after: CacheView, capacity: nat, op: BenchOp, r: Readings,
                     victim: string)
    requires op.isRead && got == After(c, capacity, GetCall(op.key, r.got, r.later, r.noted))
    requires Found(c, op.key, r.got).Some? ==> after == got
    requires Found(c, op.key, r.got).None? ==>
      && after == WithPut(got, capacity, op.key, VALUE, Deadline(r.stored, TTL), r.stored, r.storeNoted, victim)
      && (MustEvict(got, capacity, op.key) ==> got.policy.MayEvict(victim))
    ensures Performs(c, after, capacity, op, r, victim)
  {
    assert got == Got(c, capacity, op.key, r);
    if Found(c, op.key, r.got).None? { assert after == StoredAt(got, capacity, op.key, r, victim); }
  }

  lemma WritePerforms(c: CacheView, after: CacheView, capacity: nat, op: BenchOp, r: Readings, victim: string)
    requires !op.isRead
    requires after == WithPut(c, capacity, op.key, VALUE, Deadline(r.stored, TTL), r.stored, r.storeNoted, victim)
    requires MustEvict(c, capacity, op.key) ==> c.policy.MayEvict(victim)
    ensures Performs(c, after, capacity, op, r, victim)
  {
  }

  method Store(cache: Objects.InMemoryCache, key: string, now: int, noted: int) returns (ghost victim: string)
    requires cache.Valid()
    modifies cache, cache.cells, cache.policy.Repr
    ensures cache.Valid() && fresh(cache.cells - old(cache.cells)) && fresh(cache.policy.Repr - old(cache.policy.Repr))
    ensures MustEvict(old(cache.view), cache.capacity, key) ==> old(cache.view).policy.MayEvict(victim)
    ensures cache.view == WithPut(old(cache.view), cache.capacity, key, VALUE, Deadline(now, TTL), now, noted, victim)
  {
    var _, v := cache.Set(key, VALUE, TTL, now, noted);
    victim := v;
  }

  method Read(cache: Objects.InMemoryCache, op: BenchOp, r: Readings) returns (hit: bool, ghost victim: string)
    requires cache.Valid() && op.isRead
    modifies cache, cache.cells, cache.policy.Repr
    ensures cache.Valid() && fresh(cache.cells - old(cache.cells)) && fresh(cache.policy.Repr - old(cache.policy.Repr))
    ensures Performs(old(cache.view), cache.view, cache.capacity, op, r, victim)
    ensures hit == Found(old(cache.view), op.key, r.got).Some?
  {
    ghost var before := cache.view;
    var value := cache.Get(op.key, r.got, r.later, r.noted);
    ghost var got := cache.view;
    hit, victim := value.Some?, "";
    if !hit {
      victim := Store(cache, op.key, r.stored, r.storeNoted);
    }
    ReadPerforms(before, got, cache.view, cache.capacity, op, r, victim);
  }

  method Write(cache: Objects.InMemoryCache, op: BenchOp, r: Readings) returns (evicted: bool, ghost victim: string)
    requires cache.Valid() && !op.isRead
    modifies cache, cache.cells, cache.policy.Repr
    ensures cache.Valid() && fresh(cache.cells - old(cache.cells)) && fresh(cache.policy.Repr - old(cache.policy.Repr))
    ensures Performs(old(cache.view), cache.view, cache.capacity, op, r, victim)
    ensures evicted == (|old(cache.view).entries| == cache.capacity)
  {
    ghost var c := cache.view;
    var before := cache.Len();
    victim := Store(cache, op.key, r.stored, r.storeNoted);
    WritePerforms(c, cache.view, cache.capacity, op, r, victim);
    var after := cache.Len();
    evicted := after <= before && before >= cache.capacity;
  }

  /** One iteration. */
  method RunOne(cache: Objects.InMemoryCache, op: BenchOp, r: Readings, n: Counts)
    returns (n': Counts, ghost victim: string)
    requires cache.Valid()
    modifies cache, cache.cells, cache.policy.Repr
    ensures cache.Valid() && fresh(cache.cells - old(cache.cells)) && fresh(cache.policy.Repr - old(cache.policy.Repr))
    ensures Performs(old(cache.view), cache.view, cache.capacity, op, r, victim)
    ensures n' == Counted(old(cache.view), cache.capacity, op, r, n)
  {
    n' := n;
    if op.isRead {
      var hit, v := Read(cache, op, r);
      victim := v;
      if hit {
        n' := n'.(hits := n'.hits + 1);
      } else {
        n' := n'.(misses := n'.misses + 1);
      }
    } else {
      var evicted, v := Write(cache, op, r);
      victim := v;
      if evicted {
        n' := n'.(evictions := n'.evictions + 1);
      }
    }
  }

  /** Every read is a hit or a miss, and the eviction counter counts the writes made once as many keys were seen as
      fit: more than the keys really lost by the updates in a full cache, less by the reads that missed in one. On an
      LRU cache the contents follow the requests, whatever lapses, and hits fall short of the reads that find their
      key only by those that find it lapsed, of which there are none within a TTL. */
  method RunWorkload(cache: Objects.InMemoryCache, ops: seq<BenchOp>, clock: seq<Readings>, ghost start: int)
    returns (n: Counts, ghost run: seq<CacheView>, ghost victims: seq<string>)
    requires cache.Valid() && cache.view.entries == map[]
    requires |clock| == |ops| && forall i :: 0 <= i < |clock| ==> start <= clock[i].stored
    modifies cache, cache.cells, cache.policy.Repr
    ensures cache.Valid() && IsBenchRun(run, cache.capacity, ops, clock, victims)
    ensures run[0] == old(cache.view) && run[|ops|] == cache.view
    ensures Measured(cache.view, cache.capacity, ops, n)
    ensures n.evictions + FullMisses(run, cache.capacity, ops, |ops|)
         == Evictions(run, |ops|) + FullUpdates(run, cache.capacity, ops, |ops|)
    ensures old(cache.view).policy.LruView? ==>
              Followed(cache.view, cache.capacity, ops, n.hits + Lapses(run, ops, clock, |ops|))
    ensures WithinTtl(clock, start) ==> Lapses(run, ops, clock, |ops|) == 0
  {
    n, run, victims := Counts(0, 0, 0), [cache.view], [];
    for i := 0 to |ops|
      invariant cache.Valid() && fresh(cache.cells - old(cache.cells))
      invariant fresh(cache.policy.Repr - old(cache.policy.Repr))
      invariant IsBenchRun(run, cache.capacity, ops[..i], clock[..i], victims)
      invariant run[0] == old(cache.view) && run[i] == cache.view && n == Tally(run, cache.capacity, ops, clock, i)
    {
      ghost var victim;
      n, victim := RunOne(cache, ops[i], clock[i], n);
      OneIterationMore(run, cache.capacity, ops, clock, victims, i, victim, cache.view);
      run, victims := run + [cache.view], victims + [victim];
    }
    assert ops[..|ops|] == ops && clock[..|ops|] == clock;
    RunMakesProgress(run, cache.capacity, ops, clock, victims, start, |ops|);
    EvictionCounterIsOffBy(run, cache.capacity, ops, clock, victims, |ops|);
  }

  lemma OneIterationMore(run: seq<CacheView>, capacity: nat, ops: seq<BenchOp>, clock: seq<Readings>,
                         victims: seq<string>, i: nat, victim: string, after: CacheView)
    requires i < |ops| == |clock| && IsBenchRun(run, capacity, ops[..i], clock[..i], victims)
    requires Performs(run[i], after, capacity, ops[i], clock[i], victim)
    ensures IsBenchRun(run + [after], capacity, ops[..i + 1], clock[..i + 1], victims + [victim])
    ensures Tally(run + [after], capacity, ops, clock, i + 1)
         == Counted(run[i], capacity, ops[i], clock[i], Tally(run, capacity, ops, clock, i))
  {
    OneMoreRun(run, capacity, ops[..i], clock[..i], victims, ops[i], clock[i], victim, after);
    assert ops[..i + 1] == ops[..i] + [ops[i]];
    assert clock[..i + 1] == clock[..i] + [clock[i]];
    TallyOfPrefix(run, run + [after], capacity, ops, clock, i);
  }

  lemma {:induction false} TallyOfPrefix(run: seq<CacheView>, run': seq<CacheView>, capacity: nat, ops: seq<BenchOp>,
                                         clock: seq<Readings>, i: nat)
    requires i <= |ops| && i <= |clock| && i < |run| <= |run'| && run == run'[..|run|]
    ensures Tally(run, capacity, ops, clock, i) == Tally(run', capacity, ops, clock, i)
  {
    if i > 0 { TallyOfPrefix(run, run', capacity, ops, clock, i - 1); }
  }
}
