/** Calls to the cache that do not overlap: the bounded cache against an unbounded map of last writes. */
module CacheCalls {
  import opened Options
  import opened CacheModel

  /** `now` and `later` are the two clock readings of a Get, in that order. */
  datatype Call =
    | GetCall(key: string, now: int, later: int, noted: int)
    | SetCall(key: string, value: Bytes, ttl: int, now: int, noted: int, victim: string)
    | DeleteCall(key: string)

  predicate TtlOk(ttl: int) { 0 <= ttl <= MAX_TTL }

  /** What a Get returns. */
  function Found(c: CacheView, key: string, now: int): Option<Bytes> {
    if key in c.entries && !c.entries[key].IsExpired(now) then Some(c.entries[key].value) else None
  }

  /** The write-locked section that a call runs on a cache nobody else uses, if any. */
  function SectionOf(c: CacheView, call: Call): Option<Section> {
    match call
    case GetCall(key, now, later, noted) =>
      if key !in c.entries then None
      else if c.entries[key].IsExpired(now) then Some(Expire(key, later))
      else Some(Touch(key, true, later, noted))
    case SetCall(key, value, ttl, now, noted, victim) =>
      if TtlOk(ttl) then Some(Put(key, value, Deadline(now, ttl), now, noted, victim)) else None
    case DeleteCall(key) => Some(Delete(key))
  }

  function After(c: CacheView, capacity: nat, call: Call): CacheView {
    var section := SectionOf(c, call);
    if section.Some? then Apply(c, capacity, section.value) else c
  }

  ghost predicate CallEnabled(c: CacheView, capacity: nat, call: Call) {
    SectionOf(c, call).Some? ==> Enabled(c, capacity, SectionOf(c, call).value)
  }

  ghost predicate IsSerialRun(run: seq<CacheView>, capacity: nat, calls: seq<Call>) {
    && |run| == |calls| + 1
    && run[0] == Empty(run[0].policy) && run[0].policy.WellFormed() && run[0].policy.Tracked() == {}
    && forall i :: 0 <= i < |calls| ==> Serves(run, capacity, calls, i)
  }

  ghost predicate Serves(run: seq<CacheView>, capacity: nat, calls: seq<Call>, i: int)
    requires 0 <= i < |calls| && |run| == |calls| + 1
  {
    CallEnabled(run[i], capacity, calls[i]) && run[i + 1] == After(run[i], capacity, calls[i])
  }

  // ----- the reference: the last write to each key, whatever was evicted -----

  datatype Written = Written(value: Bytes, expiresAt: int) {
    predicate Lapsed(now: int) { expiresAt != ZERO_TIME && now > expiresAt }
  }

  function LastWrite(calls: seq<Call>, key: string): Option<Written> {
    if calls == [] then None
    else
      var call := calls[|calls| - 1];
      if call.key != key || call.GetCall? || (call.SetCall? && !TtlOk(call.ttl))
      then LastWrite(calls[..|calls| - 1], key)
      else if call.SetCall? then Some(Written(call.value, call.now + call.ttl))
      else None
  }

  ghost predicate HoldsLastWrites(c: CacheView, calls: seq<Call>) {
    forall k <- c.entries :: LastWrite(calls, k) == Some(Written(c.entries[k].value, c.entries[k].expiresAt))
  }

  lemma {:induction false} EntriesAreLastWrites(run: seq<CacheView>, capacity: nat, calls: seq<Call>, i: nat)
    requires IsSerialRun(run, capacity, calls) && i < |run|
    ensures HoldsLastWrites(run[i], calls[..i])
  {
    if i > 0 {
      EntriesAreLastWrites(run, capacity, calls, i - 1);
      assert Serves(run, capacity, calls, i - 1);
      assert calls[..i][..i - 1] == calls[..i - 1];
      OneMoreCall(run[i - 1], capacity, calls[..i]);
    }
  }

  lemma OneMoreCall(c: CacheView, capacity: nat, calls: seq<Call>)
    requires calls != [] && HoldsLastWrites(c, calls[..|calls| - 1])
    ensures HoldsLastWrites(After(c, capacity, calls[|calls| - 1]), calls)
  {
    var call := calls[|calls| - 1];
    var after := After(c, capacity, call);
    forall k <- after.entries
      ensures LastWrite(calls, k) == Some(Written(after.entries[k].value, after.entries[k].expiresAt))
    {
      if call.SetCall? && call.key == k {
      } else {
        assert k in c.entries;
      }
    }
  }

  /** Under every policy, a hit returns exactly the value last Set for that key, which was not deleted since and has
      not lapsed. */
  lemma HitReturnsLastWrite(run: seq<CacheView>, capacity: nat, calls: seq<Call>, i: nat, key: string, now: int)
    requires IsSerialRun(run, capacity, calls) && i < |run| && Found(run[i], key, now).Some?
    ensures var w := LastWrite(calls[..i], key);
            w.Some? && !w.value.Lapsed(now) && Found(run[i], key, now) == Some(w.value.value)
  {
    EntriesAreLastWrites(run, capacity, calls, i);
  }

  /** A Get hits exactly if the entry has not expired at its first reading; then it counts the access, at the second.
      Otherwise it removes an entry that has expired at the second reading too, and touches no other key. */
  ghost predicate GetLeaves(before: map<string, EntryView>, after: map<string, EntryView>, key: string, now: int,
                            later: int, value: Option<Bytes>)
  {
    && (value.Some? <==> key in before && (before[key].expiresAt == 0 || now <= before[key].expiresAt))
    && (value.Some? ==>
          && key in after && after[key].value == before[key].value == value.value
          && after[key].expiresAt == before[key].expiresAt && after[key].createdAt == before[key].createdAt
          && after[key].accessCount == before[key].accessCount + 1 && after[key].accessedAt == later)
    && (value.None? ==>
          (key in after <==> key in before && (before[key].expiresAt == 0 || later <= before[key].expiresAt)))
    && after - {key} == before - {key}
  }

  lemma GetDoes(c: CacheView, capacity: nat, key: string, now: int, later: int, noted: int)
    ensures GetLeaves(c.entries, After(c, capacity, GetCall(key, now, later, noted)).entries, key, now, later,
                      Found(c, key, now))
  {
  }

  // ----- nothing is lost while the keys fit -----

  function SetKeys(calls: seq<Call>): set<string> { set c | c in calls && c.SetCall? :: c.key }

  /** Some Get has already seen a time at which `w` has lapsed. */
  ghost predicate SeenLapsed(calls: seq<Call>, w: Written) {
    exists g :: 0 <= g < |calls| && calls[g].GetCall? && w.Lapsed(calls[g].now)
  }

  ghost predicate NothingLost(c: CacheView, calls: seq<Call>) {
    && c.entries.Keys <= SetKeys(calls)
    && forall k {:trigger LastWrite(calls, k)} ::
         LastWrite(calls, k).Some? ==> k in c.entries || SeenLapsed(calls, LastWrite(calls, k).value)
  }

  lemma {:induction false} FittingRunLosesNothing(run: seq<CacheView>, capacity: nat, calls: seq<Call>, i: nat)
    requires IsSerialRun(run, capacity, calls) && i < |run| && |SetKeys(calls)| <= capacity
    ensures NothingLost(run[i], calls[..i])
  {
    if i > 0 {
      FittingRunLosesNothing(run, capacity, calls, i - 1);
      OneMoreLosesNothing(run, capacity, calls, i);
    } else {
      assert calls[..i] == [];
    }
  }

  lemma OneMoreLosesNothing(run: seq<CacheView>, capacity: nat, calls: seq<Call>, i: nat)
    requires IsSerialRun(run, capacity, calls) && 0 < i < |run| && |SetKeys(calls)| <= capacity
    requires NothingLost(run[i - 1], calls[..i - 1])
    ensures NothingLost(run[i], calls[..i])
  {
    EntriesAreLastWrites(run, capacity, calls, i - 1);
    assert Serves(run, capacity, calls, i - 1);
    assert calls[..i][..i - 1] == calls[..i - 1];
    FitsEarlier(calls, i);
    FittingCallLosesNothing(run[i - 1], capacity, calls[..i]);
  }

  lemma FitsEarlier(calls: seq<Call>, i: nat)
    requires i <= |calls|
    ensures |SetKeys(calls[..i])| <= |SetKeys(calls)|
  {
    assert SetKeys(calls) == SetKeys(calls[..i]) + (SetKeys(calls) - SetKeys(calls[..i]));
  }

  lemma NoEvictionWhileFitting(c: CacheView, capacity: nat, calls: seq<Call>)
    requires calls != [] && |SetKeys(calls)| <= capacity && c.entries.Keys <= SetKeys(calls[..|calls| - 1])
    requires calls[|calls| - 1].SetCall?
    ensures !MustEvict(c, capacity, calls[|calls| - 1].key)
  {
    var key := calls[|calls| - 1].key;
    assert c.entries.Keys + {key} <= SetKeys(calls) by {
      assert calls[|calls| - 1] in calls;
    }
    assert SetKeys(calls) == (c.entries.Keys + {key}) + (SetKeys(calls) - (c.entries.Keys + {key}));
    assert |c.entries.Keys| == |c.entries|;
  }

  /** Short of an eviction, only a Delete, or a Get that sees it lapsed, takes a key out. */
  lemma WhatTakesAKeyOut(c: CacheView, capacity: nat, call: Call, k: string)
    requires call.SetCall? ==> !MustEvict(c, capacity, call.key)
    requires k in c.entries && k !in After(c, capacity, call).entries
    ensures call.key == k && (call.DeleteCall? || (call.GetCall? && c.entries[k].IsExpired(call.now)))
  {
  }

  lemma FittingKeyIsKept(c: CacheView, capacity: nat, prefix: seq<Call>, call: Call, k: string)
    requires NothingLost(c, prefix) && HoldsLastWrites(c, prefix)
    requires call.SetCall? ==> !MustEvict(c, capacity, call.key)
    ensures var w := LastWrite(prefix + [call], k);
            w.Some? ==> k in After(c, capacity, call).entries || SeenLapsed(prefix + [call], w.value)
  {
    var calls, after := prefix + [call], After(c, capacity, call);
    assert calls[..|calls| - 1] == prefix;
    var w := LastWrite(calls, k);
    if w.Some? && k !in after.entries {
      assert LastWrite(prefix, k) == w;
      if k in c.entries {
        WhatTakesAKeyOut(c, capacity, call, k);
        assert calls[|prefix|] == call && w.value.Lapsed(call.now);
      } else {
        var g :| 0 <= g < |prefix| && prefix[g].GetCall? && w.value.Lapsed(prefix[g].now);
        assert calls[g] == prefix[g];
      }
    }
  }

  lemma KeysComeFromSets(c: CacheView, capacity: nat, prefix: seq<Call>, call: Call)
    requires c.entries.Keys <= SetKeys(prefix)
    ensures After(c, capacity, call).entries.Keys <= SetKeys(prefix + [call])
  {
    assert SetKeys(prefix) <= SetKeys(prefix + [call]);
    forall k <- After(c, capacity, call).entries ensures k in SetKeys(prefix + [call]) {
      if k !in c.entries {
        assert call.SetCall? && call.key == k && call in prefix + [call];
      }
    }
  }

  lemma FittingCallLosesNothing(c: CacheView, capacity: nat, calls: seq<Call>)
    requires calls != [] && |SetKeys(calls)| <= capacity
    requires NothingLost(c, calls[..|calls| - 1]) && HoldsLastWrites(c, calls[..|calls| - 1])
    ensures NothingLost(After(c, capacity, calls[|calls| - 1]), calls)
  {
    var prefix, call := calls[..|calls| - 1], calls[|calls| - 1];
    if call.SetCall? { NoEvictionWhileFitting(c, capacity, calls); }
    assert calls == prefix + [call];
    assert After(c, capacity, call).entries.Keys <= SetKeys(calls) by { KeysComeFromSets(c, capacity, prefix, call); }
    forall k | LastWrite(calls, k).Some?
      ensures k in After(c, capacity, call).entries || SeenLapsed(calls, LastWrite(calls, k).value)
    {
      FittingKeyIsKept(c, capacity, prefix, call, k);
    }
  }

  /** While the keys ever Set fit and clocks do not run backwards, the cache is exactly the unbounded map: a Get hits if
      and only if the last write to its key is still there and has not lapsed. */
  lemma FittingCacheIsTheMap(run: seq<CacheView>, capacity: nat, calls: seq<Call>, i: nat, key: string, now: int)
    requires IsSerialRun(run, capacity, calls) && i < |run| && |SetKeys(calls)| <= capacity
    requires forall g :: 0 <= g < i && calls[g].GetCall? ==> calls[g].now <= now
    ensures var w := LastWrite(calls[..i], key);
            Found(run[i], key, now) == if w.Some? && !w.value.Lapsed(now) then Some(w.value.value) else None
  {
    EntriesAreLastWrites(run, capacity, calls, i);
    FittingRunLosesNothing(run, capacity, calls, i);
  }

  /** What an accepted Set stores is found up to and including the reading at which it expires.  So a TTL of 0, which is
      meant to be expired at once, is found by every Get whose clock has not yet moved on. */
  lemma SetIsFoundUntil(c: CacheView, capacity: nat, call: Call, later: int)
    requires call.SetCall? && TtlOk(call.ttl)
    ensures var expiresAt := call.now + call.ttl;
            Found(After(c, capacity, call), call.key, later)
            == if expiresAt == ZERO_TIME || later <= expiresAt then Some(call.value) else None
  {
    var after := After(c, capacity, call);
    assert call.key in after.entries && after.entries[call.key].value == call.value;
  }

  // ----- frequencies in serial runs -----

  lemma CallKeepsFrequencies(c: CacheView, capacity: nat, call: Call)
    requires capacity >= 1 && InStep(c, capacity) && FrequenciesMatch(c) && CallEnabled(c, capacity, call)
    ensures InStep(After(c, capacity, call), capacity) && FrequenciesMatch(After(c, capacity, call))
  {
    var section := SectionOf(c, call);
    if section.Some? {
      SectionKeepsFrequencies(c, capacity, section.value);
    }
  }

  /** Without overlapping calls, LFU's frequency of a key is always its entry's access count. */
  lemma {:induction false} SerialFrequenciesMatch(run: seq<CacheView>, capacity: nat, calls: seq<Call>, i: nat)
    requires capacity >= 1 && IsSerialRun(run, capacity, calls) && i < |run|
    ensures InStep(run[i], capacity) && FrequenciesMatch(run[i])
  {
    if i > 0 {
      SerialFrequenciesMatch(run, capacity, calls, i - 1);
      assert Serves(run, capacity, calls, i - 1);
      CallKeepsFrequencies(run[i - 1], capacity, calls[i - 1]);
    }
  }
}
