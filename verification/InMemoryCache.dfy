/** The cache object of `internal/cache/cache.go`, over any of the policy objects. */
module InMemoryCache {
  import opened Options
  import opened PolicyModel
  import opened Policies
  import opened CacheModel
  import opened CacheCalls

  class CacheEntry {
    const key: string
    const createdAt: int
    var value: Bytes
    var expiresAt: int
    var accessedAt: int
    var accessCount: nat

    constructor (key: string, value: Bytes, expiresAt: int, now: int)
      ensures this.key == key && View() == EntryView(value, expiresAt, now, now, 1)
    {
      this.key, this.value, this.expiresAt := key, value, expiresAt;
      createdAt, accessedAt, accessCount := now, now, 1;
    }

    ghost function View(): EntryView
      reads this
    {
      EntryView(value, expiresAt, createdAt, accessedAt, accessCount)
    }

    predicate IsExpired(now: int)
      reads this
    {
      expiresAt != ZERO_TIME && now > expiresAt
    }
  }

  lemma SetStores(c: CacheView, capacity: nat, key: string, value: Bytes, now: int, ttl: int, noted: int,
                  victim: string)
    ensures var after := WithPut(c, capacity, key, value, Deadline(now, ttl), now, noted, victim).entries;
            key in after && after[key].value == value && after[key].expiresAt == now + ttl
  {
  }

  class InMemoryCache {
    var entries: map<string, CacheEntry>
    const capacity: nat
    const policy: EvictionPolicy
    ghost var view: CacheView  // the cache as a value

    ghost var cells: set<CacheEntry>  // every entry it ever made

    ghost predicate Separate()
      reads this, policy
    {
      && policy in policy.Repr && this !in policy.Repr && cells !! policy.Repr
      && forall k <- entries :: entries[k] in cells && entries[k].key == k
    }

    ghost predicate Matches()
      requires forall k <- entries :: entries[k] in cells
      reads this, cells
    {
      view.entries.Keys == entries.Keys && forall k <- entries :: view.entries[k] == entries[k].View()
    }

    ghost predicate Valid()
      reads this, cells, policy, policy.Repr
    {
      Invariant() == true  // one fact for callers, rather than the many it is made of
    }

    ghost predicate Invariant()
      reads this, cells, policy, policy.Repr
    {
      && Separate() && Matches() && policy.Valid() && view.policy == policy.view
      && capacity >= 1 && InStep(view, capacity)
    }

    constructor (capacity: nat, policy: EvictionPolicy)
      requires capacity >= 1 && policy.Valid() && policy in policy.Repr && policy.view.Tracked() == {}
      ensures Valid() && this.capacity == capacity && this.policy == policy
      ensures view == Empty(policy.view) && cells == {}
    {
      this.capacity, this.policy := capacity, policy;
      entries, cells := map[], {};
      view := Empty(policy.view);
      new;
      policy.ViewIsWellFormed();
    }

    // ----- the entries alone -----

    method DropEntry(key: string)
      requires Separate() && Matches()
      modifies this`entries, this`view
      ensures Separate() && Matches() && view == CacheModel.Remove(old(view), key)
    {
      entries := entries - {key};
      view := CacheModel.Remove(view, key);
    }

    method AddEntry(key: string, value: Bytes, expiresAt: int, now: int, noted: int)
      requires Separate() && Matches() && key !in entries
      modifies this`entries, this`view, this`cells
      ensures Separate() && Matches() && fresh(cells - old(cells)) && old(cells) <= cells
      ensures view == Stored(old(view), key, EntryView(value, expiresAt, now, now, 1), noted)
    {
      var entry := new CacheEntry(key, value, expiresAt, now);
      entries := entries[key := entry];
      cells := cells + {entry};
      view := Stored(view, key, entry.View(), noted);
    }

    ghost predicate IsCurrent(entry: CacheEntry)
      reads this
    {
      entry.key in entries && entries[entry.key] == entry
    }

    method BumpEntry(entry: CacheEntry, ghost attached: bool, now: int, noted: int)
      requires Separate() && Matches() && entry !in policy.Repr && attached == IsCurrent(entry)
      modifies this`view, entry
      ensures Separate() && Matches() && view == Touched(old(view), entry.key, attached, now, noted)
    {
      entry.accessedAt := now;
      entry.accessCount := entry.accessCount + 1;
      view := Touched(view, entry.key, attached, now, noted);
    }

    method OverwriteEntry(existing: CacheEntry, value: Bytes, expiresAt: int, now: int, noted: int)
      requires Separate() && Matches() && existing !in policy.Repr && IsCurrent(existing)
      modifies this`view, existing
      ensures Separate() && Matches() && policy.Repr == old(policy.Repr)
      ensures view == Touched(Overwritten(old(view), existing.key, value, expiresAt), existing.key, true, now, noted)
    {
      existing.value, existing.expiresAt := value, expiresAt;
      view := Overwritten(view, existing.key, value, expiresAt);
      BumpEntry(existing, true, now, noted);
    }

    /** The policy's part of an access, once the entries have theirs. */
    method NoteAccess(key: string, noted: int)
      requires Separate() && Matches() && policy.Valid() && view.policy == policy.view.OnAccess(key, noted)
      requires capacity >= 1 && InStep(view, capacity)
      modifies policy.Repr
      ensures Valid() && view == old(view) && cells == old(cells) && fresh(policy.Repr - old(policy.Repr))
    {
      policy.OnAccess(key, noted);
    }

    // ----- the write-locked sections -----

    method RemoveEntry(key: string)
      requires Valid() && key in entries
      modifies this, cells, policy.Repr
      ensures Valid() && fresh(cells - old(cells)) && fresh(policy.Repr - old(policy.Repr))
      ensures view == CacheModel.Remove(old(view), key)
    {
      RemoveKeepsInStep(view, capacity, key);
      DropEntry(key);
      policy.OnEvict(key);
      assert Separate() && Matches();
    }

    /** The section of a Get that saw an expired entry. */
    method ExpireIfStale(key: string, now: int)
      requires Valid()
      modifies this, cells, policy.Repr
      ensures Valid() && fresh(cells - old(cells)) && fresh(policy.Repr - old(policy.Repr))
      ensures view == Expired(old(view), key, now)
      ensures var e := old(view).entries;
              var stale := key in e && e[key].expiresAt != 0 && now > e[key].expiresAt;
              view.entries == if stale then e - {key} else e
    {
      if key in entries && entries[key].IsExpired(now) {
        RemoveEntry(key);
      }
    }

    /** The section of a Get that saw a live entry, which by now may no longer be the key's. */
    method TouchEntry(entry: CacheEntry, ghost attached: bool, now: int, noted: int)
      requires Valid() && entry !in policy.Repr && attached == IsCurrent(entry)
      modifies this, cells, policy.Repr, entry
      ensures Valid() && fresh(cells - old(cells)) && fresh(policy.Repr - old(policy.Repr))
      ensures view == Touched(old(view), entry.key, attached, now, noted)
    {
      TouchedKeepsInStep(view, capacity, entry.key, attached, now, noted);
      BumpEntry(entry, attached, now, noted);
      NoteAccess(entry.key, noted);
    }

    method Delete(key: string)
      requires Valid()
      modifies this, cells, policy.Repr
      ensures Valid() && fresh(cells - old(cells)) && fresh(policy.Repr - old(policy.Repr))
      ensures view == Deleted(old(view), key)
    {
      if key in entries {
        RemoveEntry(key);
      }
    }

    // ----- Set -----

    /** Set of a key that is cached. */
    method Upsert(existing: CacheEntry, value: Bytes, expiresAt: int, now: int, noted: int)
      requires Valid() && existing !in policy.Repr && IsCurrent(existing)
      modifies this, policy.Repr, existing
      ensures Valid() && cells == old(cells) && fresh(policy.Repr - old(policy.Repr))
      ensures view == Touched(Overwritten(old(view), existing.key, value, expiresAt), existing.key, true, now, noted)
    {
      UpsertKeepsInStep(view, capacity, existing.key, value, expiresAt, now, noted);
      OverwriteEntry(existing, value, expiresAt, now, noted);
      NoteAccess(existing.key, noted);
    }

    method DropVictim(key: string, victim: string)
      requires Valid() && key !in entries && MustEvict(view, capacity, key) && view.policy.MayEvict(victim)
      modifies this, cells, policy.Repr
      ensures Valid() && fresh(cells - old(cells)) && fresh(policy.Repr - old(policy.Repr))
      ensures key !in entries && |view.entries| < capacity && view == MakeRoom(old(view), capacity, key, victim)
    {
      VictimIsTracked(view.policy, victim);
      MakeRoomMakesRoom(view, capacity, key, victim);
      RemoveEntry(victim);
    }

    /** Eviction on behalf of a key that is not cached. */
    method MakeSpace(key: string) returns (ghost victim: string)
      requires Valid() && key !in entries
      modifies this, cells, policy.Repr
      ensures Valid() && fresh(cells - old(cells)) && fresh(policy.Repr - old(policy.Repr))
      ensures key !in entries && |view.entries| < capacity
      ensures MustEvict(old(view), capacity, key) ==> old(view).policy.MayEvict(victim)
      ensures view == MakeRoom(old(view), capacity, key, victim)
    {
      victim := "";
      SizesAgree();
      if |entries| >= capacity {
        var evictKey, ok := policy.Evict();
        if ok {
          victim := evictKey;
          DropVictim(key, evictKey);
          return;
        }
      }
      MakeRoomMakesRoom(view, capacity, key, victim);
    }

    /** Set of a key that is not cached, once there is room. */
    method InsertNew(key: string, value: Bytes, expiresAt: int, now: int, noted: int)
      requires Valid() && key !in entries && |view.entries| < capacity
      modifies this, cells, policy.Repr
      ensures Valid() && fresh(cells - old(cells)) && fresh(policy.Repr - old(policy.Repr))
      ensures view == Stored(old(view), key, EntryView(value, expiresAt, now, now, 1), noted)
    {
      StoredKeepsInStep(view, capacity, key, EntryView(value, expiresAt, now, now, 1), noted);
      AddEntry(key, value, expiresAt, now, noted);
      policy.OnInsert(key, expiresAt, noted);
    }

    /** The locked section of Set.  Its victim, if it needs one, is a key that the policy may evict. */
    method Put(key: string, value: Bytes, expiresAt: int, now: int, noted: int) returns (ghost victim: string)
      requires Valid()
      modifies this, cells, policy.Repr
      ensures Valid() && fresh(cells - old(cells)) && fresh(policy.Repr - old(policy.Repr))
      ensures MustEvict(old(view), capacity, key) ==> old(view).policy.MayEvict(victim)
      ensures view == WithPut(old(view), capacity, key, value, expiresAt, now, noted, victim)
    {
      if key in entries {
        victim := "";
        Upsert(entries[key], value, expiresAt, now, noted);
      } else {
        victim := MakeSpace(key);
        InsertNew(key, value, expiresAt, now, noted);
      }
    }

    /** A TTL out of bounds is refused and changes nothing; TTL 0 makes the entry expire at `now`. */
    method Set(key: string, value: Bytes, ttl: int, now: int, noted: int) returns (accepted: bool, ghost victim: string)
      requires Valid()
      modifies this, cells, policy.Repr
      ensures Valid() && fresh(cells - old(cells)) && fresh(policy.Repr - old(policy.Repr))
      ensures accepted <==> 0 <= ttl <= 86_400_000_000_000
      ensures accepted ==>
                key in view.entries && view.entries[key].value == value && view.entries[key].expiresAt == now + ttl
      ensures MustEvict(old(view), capacity, key) && accepted ==> old(view).policy.MayEvict(victim)
      ensures view == if accepted then WithPut(old(view), capacity, key, value, Deadline(now, ttl), now, noted, victim)
                      else old(view)
    {
      if ttl < 0 || ttl > MAX_TTL {
        return false, "";
      }
      var expiresAt := if ttl == 0 then now else now + ttl;
      assert expiresAt == Deadline(now, ttl);
      ghost var before := view;
      victim := Put(key, value, expiresAt, now, noted);
      accepted := true;
      SetStores(before, capacity, key, value, now, ttl, noted, victim);
    }

    /** A Get that no other call overlaps. */
    method Get(key: string, now: int, later: int, noted: int) returns (value: Option<Bytes>)
      requires Valid()
      modifies this, cells, policy.Repr
      ensures Valid() && fresh(cells - old(cells)) && fresh(policy.Repr - old(policy.Repr))
      ensures value == Found(old(view), key, now)
      ensures view == After(old(view), capacity, GetCall(key, now, later, noted))
      ensures GetLeaves(old(view).entries, view.entries, key, now, later, value)
    {
      GetDoes(view, capacity, key, now, later, noted);
      if key !in entries {
        return None;
      }
      var entry := entries[key];
      if entry.IsExpired(now) {
        ExpireIfStale(key, later);
        return None;
      }
      value := Some(entry.value);
      TouchEntry(entry, true, later, noted);
    }

    lemma SizesAgree()
      requires view.entries.Keys == entries.Keys
      ensures |entries| == |view.entries|
    {
      assert |entries.Keys| == |entries| && |view.entries.Keys| == |view.entries|;
    }

    function Len(): (n: nat)
      requires Valid()
      reads this, cells, policy, policy.Repr
      ensures n == |view.entries| && n <= capacity
    {
      SizesAgree();
      |entries|
    }

    /** The number of entries that have not expired at `now`. */
    method LiveLen(now: int) returns (count: nat)
      requires Separate() && Matches()
      ensures count == |LiveKeys(view, view.entries.Keys, now)|
    {
      count := 0;
      var rest := entries.Keys;
      ghost var done := {};
      assert LiveKeys(view, done, now) == {};
      while rest != {}
        invariant rest <= entries.Keys && done == entries.Keys - rest && count == |LiveKeys(view, done, now)|
        decreases rest
      {
        var k :| k in rest;
        OneMoreLive(view, done, k, now);
        rest, done := rest - {k}, done + {k};
        if !entries[k].IsExpired(now) {
          count := count + 1;
        }
      }
      assert done == view.entries.Keys;
    }
  }
}
