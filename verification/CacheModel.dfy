/** The bounded TTL cache of `internal/cache` as a value: its lock sections, and what every interleaving of them
    keeps. */
module CacheModel {
  import opened PolicyModel
  import opened HeapOrder

  newtype byte = x: int | 0 <= x < 256
  type Bytes = seq<byte>

  const ZERO_TIME := 0
  const MAX_TTL := 86400 * 1_000_000_000  // nanoseconds

  function Deadline(now: int, ttl: int): int { now + ttl }

  datatype EntryView = EntryView(value: Bytes, expiresAt: int, createdAt: int, accessedAt: int, accessCount: nat) {
    predicate IsExpired(now: int) { expiresAt != ZERO_TIME && now > expiresAt }
  }

  datatype CacheView = CacheView(entries: map<string, EntryView>, policy: PolicyView)

  // ----- lock sections -----

  /** One write-locked section.  `Touch` is the end of a Get that found an entry: by then the entry may be detached from
      the map, or the key may belong to a newer entry.  `noted` is the clock reading taken by the policy itself, and
      `victim` what its Evict returned, if it was asked. */
  datatype Section =
    | Expire(key: string, now: int)
    | Touch(key: string, attached: bool, now: int, noted: int)
    | Put(key: string, value: Bytes, expiresAt: int, now: int, noted: int, victim: string)
    | Delete(key: string)

  predicate MustEvict(c: CacheView, capacity: nat, key: string) {
    key !in c.entries && |c.entries| >= capacity && c.policy.Tracked() != {}
  }

  ghost predicate Enabled(c: CacheView, capacity: nat, s: Section) {
    match s
    case Touch(key, attached, _, _) => attached ==> key in c.entries
    case Put(key, _, _, _, _, victim) => MustEvict(c, capacity, key) ==> c.policy.MayEvict(victim)
    case _ => true
  }

  function Remove(c: CacheView, key: string): CacheView { CacheView(c.entries - {key}, c.policy.OnEvict(key)) }

  function Stored(c: CacheView, key: string, e: EntryView, noted: int): CacheView {
    CacheView(c.entries[key := e], c.policy.OnInsert(key, e.expiresAt, noted))
  }

  function MakeRoom(c: CacheView, capacity: nat, key: string, victim: string): CacheView {
    if MustEvict(c, capacity, key) then Remove(c, victim) else c
  }

  function Expired(c: CacheView, key: string, now: int): CacheView {
    if key in c.entries && c.entries[key].IsExpired(now) then Remove(c, key) else c
  }

  function Deleted(c: CacheView, key: string): CacheView { if key in c.entries then Remove(c, key) else c }

  function Touched(c: CacheView, key: string, attached: bool, now: int, noted: int): CacheView {
    var entries :=
      if attached && key in c.entries
      then c.entries[key := c.entries[key].(accessedAt := now, accessCount := c.entries[key].accessCount + 1)]
      else c.entries;
    CacheView(entries, c.policy.OnAccess(key, noted))
  }

  function Overwritten(c: CacheView, key: string, value: Bytes, expiresAt: int): CacheView {
    if key !in c.entries then c
    else c.(entries := c.entries[key := c.entries[key].(value := value, expiresAt := expiresAt)])
  }

  function WithPut(c: CacheView, capacity: nat, key: string, value: Bytes, expiresAt: int, now: int, noted: int,
                   victim: string)
    : CacheView
  {
    if key in c.entries then Touched(Overwritten(c, key, value, expiresAt), key, true, now, noted)
    else Stored(MakeRoom(c, capacity, key, victim), key, EntryView(value, expiresAt, now, now, 1), noted)
  }

  function Apply(c: CacheView, capacity: nat, s: Section): CacheView {
    match s
    case Expire(key, now) => Expired(c, key, now)
    case Touch(key, attached, now, noted) => Touched(c, key, attached, now, noted)
    case Put(key, value, expiresAt, now, noted, victim) =>
      WithPut(c, capacity, key, value, expiresAt, now, noted, victim)
    case Delete(key) => Deleted(c, key)
  }

  /** The policy tracks exactly the cached keys, none twice, and the cache is within its capacity. */
  ghost predicate InStep(c: CacheView, capacity: nat) {
    c.policy.WellFormed() && c.policy.Tracked() == c.entries.Keys && |c.entries| <= capacity
  }

  lemma RemoveKeepsInStep(c: CacheView, capacity: nat, key: string)
    requires InStep(c, capacity)
    ensures InStep(Remove(c, key), capacity)
    ensures key in c.entries ==> |Remove(c, key).entries| == |c.entries| - 1
  {
    EvictTracks(c.policy, key);
    assert (c.entries - {key}).Keys == c.entries.Keys - {key};
    assert |c.entries.Keys - {key}| <= |c.entries.Keys|;
  }

  lemma MakeRoomMakesRoom(c: CacheView, capacity: nat, key: string, victim: string)
    requires capacity >= 1 && InStep(c, capacity) && key !in c.entries
    requires MustEvict(c, capacity, key) ==> c.policy.MayEvict(victim)
    ensures var room := MakeRoom(c, capacity, key, victim);
            && InStep(room, capacity) && key !in room.entries && |room.entries| < capacity
            && room.entries.Keys == c.entries.Keys - if MustEvict(c, capacity, key) then {victim} else {}
  {
    if MustEvict(c, capacity, key) {
      VictimIsTracked(c.policy, victim);
      RemoveKeepsInStep(c, capacity, victim);
    } else {
      assert c.policy.Tracked() == {} ==> |c.entries.Keys| == 0;
    }
  }

  lemma StoredKeepsInStep(c: CacheView, capacity: nat, key: string, e: EntryView, noted: int)
    requires InStep(c, capacity) && key !in c.entries && |c.entries| < capacity
    ensures InStep(Stored(c, key, e, noted), capacity)
  {
    InsertTracks(c.policy, key, e.expiresAt, noted);
    assert c.entries[key := e].Keys == c.entries.Keys + {key};
    assert |c.entries[key := e]| == |c.entries| + 1;
  }

  lemma TouchedKeepsInStep(c: CacheView, capacity: nat, key: string, attached: bool, now: int, noted: int)
    requires InStep(c, capacity)
    ensures InStep(Touched(c, key, attached, now, noted), capacity)
  {
    var entries := Touched(c, key, attached, now, noted).entries;
    AccessTracks(c.policy, key, noted);
    assert entries.Keys == c.entries.Keys;
    assert |entries.Keys| == |entries| && |c.entries.Keys| == |c.entries|;
  }

  lemma OverwrittenKeepsInStep(c: CacheView, capacity: nat, key: string, value: Bytes, expiresAt: int)
    requires InStep(c, capacity)
    ensures InStep(Overwritten(c, key, value, expiresAt), capacity)
  {
    var entries := Overwritten(c, key, value, expiresAt).entries;
    assert entries.Keys == c.entries.Keys;
    assert |entries.Keys| == |entries| && |c.entries.Keys| == |c.entries|;
  }

  lemma UpsertKeepsInStep(c: CacheView, capacity: nat, key: string, value: Bytes, expiresAt: int, now: int, noted: int)
    requires InStep(c, capacity)
    ensures InStep(Touched(Overwritten(c, key, value, expiresAt), key, true, now, noted), capacity)
  {
    OverwrittenKeepsInStep(c, capacity, key, value, expiresAt);
    TouchedKeepsInStep(Overwritten(c, key, value, expiresAt), capacity, key, true, now, noted);
  }

  lemma PutKeepsInStep(c: CacheView, capacity: nat, key: string, value: Bytes, expiresAt: int, now: int, noted: int,
                       victim: string)
    requires capacity >= 1 && InStep(c, capacity) && (MustEvict(c, capacity, key) ==> c.policy.MayEvict(victim))
    ensures InStep(WithPut(c, capacity, key, value, expiresAt, now, noted, victim), capacity)
  {
    if key in c.entries {
      UpsertKeepsInStep(c, capacity, key, value, expiresAt, now, noted);
    } else {
      MakeRoomMakesRoom(c, capacity, key, victim);
      var e := EntryView(value, expiresAt, now, now, 1);
      StoredKeepsInStep(MakeRoom(c, capacity, key, victim), capacity, key, e, noted);
    }
  }

  lemma SectionKeepsInStep(c: CacheView, capacity: nat, s: Section)
    requires capacity >= 1 && InStep(c, capacity) && Enabled(c, capacity, s)
    ensures InStep(Apply(c, capacity, s), capacity)
  {
    match s
    case Expire(key, _) => RemoveKeepsInStep(c, capacity, key);
    case Delete(key) => RemoveKeepsInStep(c, capacity, key);
    case Touch(key, attached, now, noted) => TouchedKeepsInStep(c, capacity, key, attached, now, noted);
    case Put(key, value, expiresAt, now, noted, victim) =>
      PutKeepsInStep(c, capacity, key, value, expiresAt, now, noted, victim);
  }

  /** A Set evicts at most one key, never the one it stores, and only if the key is new and the cache is full. */
  lemma PutEvictsAtMostOne(c: CacheView, capacity: nat, s: Section)
    requires capacity >= 1 && InStep(c, capacity) && s.Put? && Enabled(c, capacity, s)
    ensures MustEvict(c, capacity, s.key) ==>
              && Apply(c, capacity, s).entries.Keys == c.entries.Keys - {s.victim} + {s.key}
              && s.victim in c.entries && s.victim != s.key
    ensures !MustEvict(c, capacity, s.key) ==> Apply(c, capacity, s).entries.Keys == c.entries.Keys + {s.key}
  {
    if MustEvict(c, capacity, s.key) {
      VictimIsTracked(c.policy, s.victim);
      assert Remove(c, s.victim).entries.Keys == c.entries.Keys - {s.victim};
    }
  }

  function Empty(policy: PolicyView): CacheView { CacheView(map[], policy) }

  /** Any interleaving: any sections of any calls, in any order. */
  ghost predicate IsRun(run: seq<CacheView>, capacity: nat, sections: seq<Section>) {
    && |run| == |sections| + 1
    && run[0] == Empty(run[0].policy) && run[0].policy.WellFormed() && run[0].policy.Tracked() == {}
    && forall i :: 0 <= i < |sections| ==> Moves(run, capacity, sections, i)
  }

  ghost predicate Moves(run: seq<CacheView>, capacity: nat, sections: seq<Section>, i: int)
    requires 0 <= i < |sections| && |run| == |sections| + 1
  {
    Enabled(run[i], capacity, sections[i]) && run[i + 1] == Apply(run[i], capacity, sections[i])
  }

  /** Under every policy and every interleaving of the sections of Get, Set and Delete, the policy's tracked keys are
      the cached keys without duplicates, and the size never exceeds the capacity. */
  lemma {:induction false} RunKeepsInStep(run: seq<CacheView>, capacity: nat, sections: seq<Section>, i: nat)
    requires capacity >= 1 && IsRun(run, capacity, sections) && i < |run|
    ensures InStep(run[i], capacity)
  {
    if i > 0 {
      RunKeepsInStep(run, capacity, sections, i - 1);
      assert Moves(run, capacity, sections, i - 1);
      SectionKeepsInStep(run[i - 1], capacity, sections[i - 1]);
    }
  }

  // ----- frequencies -----

  /** The frequency LFU orders a key by is the access count of its entry. */
  ghost predicate FrequenciesMatch(c: CacheView) {
    c.policy.LfuView? ==>
      forall k <- c.entries :: k in c.policy.table && c.policy.table[k].major == c.entries[k].accessCount
  }

  /** A section moves frequency and access count of a cached key together, except a touch of an entry that is
      detached. */
  lemma SectionOnFrequency(c: CacheView, capacity: nat, s: Section, k: string)
    requires InStep(c, capacity) && c.policy.LfuView? && k in c.entries
    requires InStep(Apply(c, capacity, s), capacity) && k in Apply(c, capacity, s).entries
    ensures var after := Apply(c, capacity, s);
            && k in c.policy.table && after.policy.LfuView? && k in after.policy.table
            && after.policy.table[k].major - after.entries[k].accessCount
            == c.policy.table[k].major - c.entries[k].accessCount
             + (if s.Touch? && s.key == k && !s.attached then 1 else 0)
  {
    assert k in c.policy.Tracked() && k in Apply(c, capacity, s).policy.Tracked();
  }

  /** A key that a section makes cached starts with frequency and access count one. */
  lemma InsertionOnFrequency(c: CacheView, capacity: nat, s: Section, k: string)
    requires c.policy.LfuView? && k !in c.entries && k in Apply(c, capacity, s).entries
    ensures var after := Apply(c, capacity, s);
            && after.policy.LfuView? && k in after.policy.table
            && after.policy.table[k].major == after.entries[k].accessCount == 1
  {
  }

  lemma SectionKeepsLfu(c: CacheView, capacity: nat, s: Section)
    ensures Apply(c, capacity, s).policy.LfuView? <==> c.policy.LfuView?
  {
  }

  /** Every section keeps LFU's frequencies equal to the access counts, if a Get ends on the entry that is still
      cached. */
  lemma SectionKeepsFrequencies(c: CacheView, capacity: nat, s: Section)
    requires capacity >= 1 && InStep(c, capacity) && FrequenciesMatch(c) && Enabled(c, capacity, s)
    requires s.Touch? ==> s.attached
    ensures InStep(Apply(c, capacity, s), capacity) && FrequenciesMatch(Apply(c, capacity, s))
  {
    SectionKeepsInStep(c, capacity, s);
    SectionKeepsLfu(c, capacity, s);
    var after := Apply(c, capacity, s);
    if c.policy.LfuView? {
      forall k <- after.entries
        ensures k in after.policy.table && after.policy.table[k].major == after.entries[k].accessCount
      {
        KeyKeepsFrequency(c, capacity, s, k);
      }
    }
  }

  lemma KeyKeepsFrequency(c: CacheView, capacity: nat, s: Section, k: string)
    requires InStep(c, capacity) && c.policy.LfuView? && FrequenciesMatch(c) && (s.Touch? ==> s.attached)
    requires InStep(Apply(c, capacity, s), capacity) && k in Apply(c, capacity, s).entries
    ensures var after := Apply(c, capacity, s);
            && after.policy.LfuView? && k in after.policy.table
            && after.policy.table[k].major == after.entries[k].accessCount
  {
    if k in c.entries { SectionOnFrequency(c, capacity, s, k); } else { InsertionOnFrequency(c, capacity, s, k); }
  }

  // ----- expiries -----

  /** The expiry the TTL-only policy orders a key by is the expiry of its entry. */
  ghost predicate ExpiriesMatch(c: CacheView) {
    c.policy.TtlView? ==>
      forall k <- c.entries :: k in c.policy.table && c.policy.table[k] == Rank(c.entries[k].expiresAt, 0)
  }

  // ----- counting live entries -----

  ghost function LiveKeys(c: CacheView, keys: set<string>, now: int): set<string> {
    set k | k in keys && k in c.entries && !c.entries[k].IsExpired(now)
  }

  lemma OneMoreLive(c: CacheView, keys: set<string>, k: string, now: int)
    requires k !in keys && k in c.entries
    ensures |LiveKeys(c, keys + {k}, now)| == |LiveKeys(c, keys, now)| + if c.entries[k].IsExpired(now) then 0 else 1
  {
    assert LiveKeys(c, keys + {k}, now) == LiveKeys(c, keys, now) + if c.entries[k].IsExpired(now) then {} else {k};
  }
}
