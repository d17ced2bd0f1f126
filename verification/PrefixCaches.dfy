/** The prefix cache objects: the Python one over an ordered dictionary, the Go one over a map that it scans. */
module PrefixCaches {
  import opened Options
  import opened Recency
  import opened PrefixModel

  datatype Stats = Stats(requests: nat, hits: nat, misses: nat, hitRate: real, stored: nat, savedTflops: real,
                         savedUsd: real)

  function HitRate(hits: nat, requests: nat): (r: real)
    requires hits <= requests
    ensures 0.0 <= r <= 100.0
    ensures requests > 0 ==> (r == 100.0 <==> hits == requests) && (r == 0.0 <==> hits == 0)
  {
    if requests == 0 then 0.0
    else
      RatioBounds(hits as real, requests as real);
      hits as real / requests as real * 100.0
  }

  lemma RatioBounds(a: real, b: real)
    requires 0.0 <= a <= b && b > 0.0
    ensures 0.0 <= a / b <= 1.0 && (a / b == 1.0 <==> a == b) && (a / b == 0.0 <==> a == 0.0)
  {
  }

  class OrderedCache {
    const capacity: nat
    var recent: seq<string>
    var entries: map<string, Entry>
    var totalRequests: nat
    var cacheHits: nat
    var savedTflops: real
    var savedUsd: real

    ghost function View(): Ordered
      reads this
    {
      Ordered(recent, entries)
    }

    ghost predicate Valid()
      reads this
    {
      capacity >= 1 && View().WellFormed() && |entries| <= capacity && cacheHits <= totalRequests
    }

    constructor (capacity: nat)
      requires capacity >= 1
      ensures Valid() && this.capacity == capacity && View() == Ordered([], map[])
      ensures totalRequests == cacheHits == 0 && savedTflops == savedUsd == 0.0
    {
      this.capacity := capacity;
      recent, entries := [], map[];
      totalRequests, cacheHits, savedTflops, savedUsd := 0, 0, 0.0, 0.0;
    }

    /** A capacity below 1 is refused. */
    static method Create(capacity: int) returns (c: OrderedCache?)
      ensures c == null <==> capacity < 1
      ensures c != null ==> fresh(c) && c.Valid() && c.capacity == capacity && c.View() == Ordered([], map[])
    {
      if capacity < 1 {
        return null;
      }
      c := new OrderedCache(capacity);
    }

    method Lookup(h: string) returns (r: Option<Entry>)
      requires Valid()
      modifies this
      ensures Valid() && View() == old(View()).Looked(h)
      ensures r == if h in old(entries) then Some(old(entries)[h].Hit()) else None
      ensures totalRequests == old(totalRequests) + 1 && cacheHits == old(cacheHits) + if r.Some? then 1 else 0
      ensures savedTflops == if r.Some? then old(savedTflops) + r.value.tflops else old(savedTflops)
      ensures savedUsd == if r.Some? then old(savedUsd) + r.value.costUsd else old(savedUsd)
    {
      ghost var after := View().Looked(h);
      assert after.WellFormed() && |after.entries| <= capacity by { LookedStaysWellFormed(View(), capacity, h); }
      totalRequests := totalRequests + 1;
      r := None;
      if h in entries {
        var entry := entries[h].Hit();
        recent, entries := Touch(recent, h), entries[h := entry];
        cacheHits := cacheHits + 1;
        savedTflops, savedUsd := savedTflops + entry.tflops, savedUsd + entry.costUsd;
        r := Some(entry);
      }
      assert View() == after;
    }

    method Store(h: string, e: Entry)
      requires Valid()
      modifies this`recent, this`entries
      ensures View() == old(View()).Stored(capacity, h, e) && Valid()
    {
      ghost var after := View().Stored(capacity, h, e);
      assert after.WellFormed() && |after.entries| <= capacity by { StoredStaysWellFormed(View(), capacity, h, e); }
      if h in entries {
        entries := entries[h := e];
        recent := Touch(recent, h);
      } else {
        if |entries| >= capacity && recent != [] {
          entries := entries - {recent[|recent| - 1]};
          recent := recent[..|recent| - 1];
        }
        entries := entries[h := e];
        recent := [h] + recent;
      }
      assert View() == after;
    }

    method GetStats() returns (s: Stats)
      requires Valid()
      ensures s.requests == totalRequests && s.hits == cacheHits && s.hits + s.misses == s.requests
      ensures s.stored == |entries|
      ensures s.hitRate == HitRate(cacheHits, totalRequests) && s.savedTflops == savedTflops && s.savedUsd == savedUsd
    {
      var hitRate := HitRate(cacheHits, totalRequests);
      s := Stats(totalRequests, cacheHits, totalRequests - cacheHits, hitRate, |entries|, savedTflops, savedUsd);
    }
  }

  lemma SameSize<V>(m: map<string, V>, k: string, v: V)
    requires k in m
    ensures |m[k := v]| == |m|
  {
    assert m[k := v].Keys == m.Keys;
    assert |m[k := v].Keys| == |m[k := v]| && |m.Keys| == |m|;
  }

  lemma OneMore<V>(m: map<string, V>, k: string, v: V)
    requires k !in m
    ensures |m[k := v]| == |m| + 1
  {
    assert m[k := v].Keys == m.Keys + {k};
    assert |m[k := v].Keys| == |m[k := v]| && |m.Keys| == |m|;
  }

  lemma OneLess<V>(m: map<string, V>, k: string)
    requires k in m
    ensures |m - {k}| == |m| - 1
  {
    assert (m - {k}).Keys == m.Keys - {k};
    assert |(m - {k}).Keys| == |m - {k}| && |m.Keys| == |m|;
  }

  lemma LookedStaysWellFormed(p: Ordered, capacity: nat, h: string)
    requires p.WellFormed() && |p.entries| <= capacity
    ensures p.Looked(h).WellFormed() && |p.Looked(h).entries| <= capacity
  {
    if h in p.entries {
      TouchMembers(p.recent, h);
      SameSize(p.entries, h, p.entries[h].Hit());
    }
  }

  lemma StoredStaysWellFormed(p: Ordered, capacity: nat, h: string, e: Entry)
    requires p.WellFormed() && |p.entries| <= capacity && capacity >= 1
    ensures p.Stored(capacity, h, e).WellFormed() && |p.Stored(capacity, h, e).entries| <= capacity
  {
    if h in p.entries {
      TouchMembers(p.recent, h);
      SameSize(p.entries, h, e);
    } else {
      RequestedIsRequest(p, capacity, h, e);
      StoredFits(p, capacity, h, e);
    }
  }

  lemma StoredFits(p: Ordered, capacity: nat, h: string, e: Entry)
    requires p.WellFormed() && |p.entries| <= capacity && capacity >= 1 && h !in p.entries
    ensures |p.Stored(capacity, h, e).entries| <= capacity
  {
    if |p.entries| < capacity {
      OneMore(p.entries, h, e);
    } else {
      RecentCounts(p.recent, p.entries.Keys);
      assert |p.entries.Keys| == |p.entries|;
      var last := p.recent[|p.recent| - 1];
      assert last in p.recent;
      OneLess(p.entries, last);
      OneMore(p.entries - {last}, h, e);
    }
  }

  class TimedCache {
    const maxSize: nat
    var entries: map<string, Stamped>
    var totalRequests: nat
    var cacheHits: nat
    var savedTflops: real
    var savedUsd: real

    constructor (maxSize: nat)
      ensures this.maxSize == maxSize && entries == map[] && totalRequests == cacheHits == 0
      ensures savedTflops == savedUsd == 0.0
    {
      this.maxSize := maxSize;
      entries := map[];
      totalRequests, cacheHits, savedTflops, savedUsd := 0, 0, 0.0, 0.0;
    }

    method Lookup(h: string, now: int) returns (r: Option<Entry>)
      modifies this
      ensures Timed(entries) == Timed(old(entries)).Looked(h, now)
      ensures r == if h in old(entries) then Some(old(entries)[h].entry.Hit()) else None
      ensures totalRequests == old(totalRequests) + 1 && cacheHits == old(cacheHits) + if r.Some? then 1 else 0
      ensures savedTflops == if r.Some? then old(savedTflops) + r.value.tflops else old(savedTflops)
      ensures savedUsd == if r.Some? then old(savedUsd) + r.value.costUsd else old(savedUsd)
    {
      totalRequests := totalRequests + 1;
      if h !in entries {
        return None;
      }
      var entry := entries[h].entry.Hit();
      entries := entries[h := Stamped(entry, now)];
      cacheHits := cacheHits + 1;
      savedTflops, savedUsd := savedTflops + entry.tflops, savedUsd + entry.costUsd;
      r := Some(entry);
    }

    /** The scan of Store, in whatever order the map is walked. */
    method Oldest() returns (oldest: string, ghost order: seq<string>)
      ensures Lists(order, entries.Keys) && oldest == Walked(entries, order)
      ensures entries == map[] ==> oldest == ""
      ensures entries != map[] && !NamelessIsOldest(entries) ==> Timed(entries).IsOldest(oldest)
    {
      oldest, order := "", [];
      var oldestTime := 0;
      var rest := entries.Keys;
      while rest != {}
        invariant rest <= entries.Keys && Lists(order, entries.Keys - rest)
        invariant oldest == Walked(entries, order)
        invariant oldest != "" ==> oldest in entries && entries[oldest].last == oldestTime
        decreases rest
      {
        var k :| k in rest;
        rest := rest - {k};
        ghost var walked := order + [k];
        assert walked[..|order|] == order && forall j :: j in walked <==> j in order || j == k;
        if oldest == "" || entries[k].last < oldestTime {
          oldest, oldestTime := k, entries[k].last;
        }
        order := walked;
      }
      assert entries.Keys - {} == entries.Keys;
      WalkStays(entries, order);
      if entries != map[] && !NamelessIsOldest(entries) { ScanFindsOldest(entries, order); }
    }

    method Store(h: string, e: Stamped) returns (ghost oldest: string, ghost order: seq<string>)
      modifies this`entries
      ensures |old(entries)| >= maxSize ==> Lists(order, old(entries).Keys) && oldest == Walked(old(entries), order)
      ensures Timed(entries) == Timed(old(entries)).Stored(maxSize, h, e, oldest)
    {
      oldest, order := "", [];
      if |entries| >= maxSize {
        var k, walk := Oldest();
        oldest, order := k, walk;
        entries := entries - {k};
      }
      entries := entries[h := e];
    }
  }

  /** Storing "a", then "b", then "b" again in a cache of two loses "a". */
  method RestoreEvictsAnother(e: Entry) returns (cache: TimedCache)
    ensures fresh(cache) && cache.maxSize == 2 && cache.entries == map["b" := Stamped(e, 3)]
  {
    cache := new TimedCache(2);
    var x, _ := cache.Store("a", Stamped(e, 1));
    var y, _ := cache.Store("b", Stamped(e, 2));
    TwoStored(e, x, y);
    TwoAreFull(e);
    var _, order := cache.Store("b", Stamped(e, 3));
    RestoreLoses(e, order);
  }

  function Two(e: Entry): map<string, Stamped> { map["a" := Stamped(e, 1), "b" := Stamped(e, 2)] }

  lemma TwoStored(e: Entry, x: string, y: string)
    ensures Timed(map[]).Stored(2, "a", Stamped(e, 1), x).Stored(2, "b", Stamped(e, 2), y).entries == Two(e)
  {
    var one: map<string, Stamped> := map["a" := Stamped(e, 1)];
    assert Timed(map[]).Stored(2, "a", Stamped(e, 1), x).entries == one;
    assert |one| == 1 by {
      assert one.Keys == {"a"};
      assert |one.Keys| == |one|;
    }
  }

  lemma TwoAreFull(e: Entry)
    ensures |Two(e)| == 2 && Two(e) != map[] && !NamelessIsOldest(Two(e))
  {
    assert Two(e).Keys == {"a", "b"};
    assert |Two(e).Keys| == |Two(e)|;
    assert "a" in Two(e);
  }

  lemma RestoreLoses(e: Entry, order: seq<string>)
    requires Lists(order, Two(e).Keys)
    ensures Timed(Two(e)).Stored(2, "b", Stamped(e, 3), Walked(Two(e), order)).entries == map["b" := Stamped(e, 3)]
  {
    TwoAreFull(e);
    ScanFindsOldest(Two(e), order);
    assert Timed(Two(e)).IsOldest(Walked(Two(e), order)) && Two(e)["a"].last == 1;
    assert (Two(e) - {"a"})["b" := Stamped(e, 3)] == map["b" := Stamped(e, 3)];
  }
}
