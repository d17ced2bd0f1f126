/** The two prefix caches of the simulator as values: `python/src/llmsim/prefix_cache.py` keeps an ordered dictionary,
    `internal/llm/prefix_cache.go` a map of time stamps. */
module PrefixModel {
  import opened Recency

  /** What is cached under a hash; costs are in exact arithmetic. */
  datatype Entry = Entry(tokenCount: nat, tflops: real, costUsd: real, hits: nat) {
    function Hit(): Entry { this.(hits := hits + 1) }
  }

  // ----- Python -----

  /** `recent` lists the dictionary's keys from its end, so the most recently used comes first. */
  datatype Ordered = Ordered(recent: seq<string>, entries: map<string, Entry>) {
    ghost predicate WellFormed() { Distinct(recent) && forall k :: k in recent <==> k in entries }

    /** lookup */
    function Looked(h: string): Ordered {
      if h in entries then Ordered(Touch(recent, h), entries[h := entries[h].Hit()]) else this
    }

    /** store */
    function Stored(capacity: nat, h: string, e: Entry): Ordered {
      if h in entries then Ordered(Touch(recent, h), entries[h := e])
      else if |entries| >= capacity && recent != [] then
        Ordered([h] + recent[..|recent| - 1], (entries - {recent[|recent| - 1]})[h := e])
      else Ordered([h] + recent, entries[h := e])
    }

    /** One request of the simulations: look the hash up, and on a miss store a new entry. */
    function Requested(capacity: nat, h: string, e: Entry): Ordered {
      if h in entries then Looked(h) else Stored(capacity, h, e)
    }
  }

  // ----- Go -----

  datatype Stamped = Stamped(entry: Entry, last: int)

  datatype Timed = Timed(entries: map<string, Stamped>) {
    function Last(k: string): int { if k in entries then entries[k].last else 0 }

    /** Lookup */
    function Looked(h: string, now: int): Timed {
      if h in entries then Timed(entries[h := Stamped(entries[h].entry.Hit(), now)]) else this
    }

    /** A key that the scan for the oldest entry may return. */
    ghost predicate IsOldest(k: string) { k in entries && forall j <- entries :: entries[k].last <= entries[j].last }

    /** Store, where `oldest` is what the scan returned; it is asked even if the hash is present. */
    function Stored(maxSize: nat, h: string, e: Stamped, oldest: string): Timed {
      Timed((if |entries| >= maxSize then entries - {oldest} else entries)[h := e])
    }

    function Requested(maxSize: nat, h: string, e: Entry, now: int, oldest: string): Timed {
      if h in entries then Looked(h, now) else Stored(maxSize, h, Stamped(e, now), oldest)
    }
  }

  // ----- the scan for the oldest entry -----

  /** What the scan ends with after walking `order`.  The empty name stands for "none yet". */
  function Walked(entries: map<string, Stamped>, order: seq<string>): string {
    if order == [] then ""
    else
      var best, k := Walked(entries, order[..|order| - 1]), order[|order| - 1];
      if best == "" || Timed(entries).Last(k) < Timed(entries).Last(best) then k else best
  }

  /** Once the scan has walked an oldest entry with a name, it holds one. */
  lemma {:induction false} WalkKeepsOldest(entries: map<string, Stamped>, order: seq<string>, m: string)
    requires (forall k <- order :: k in entries) && Timed(entries).IsOldest(m) && m != "" && m in order
    ensures Walked(entries, order) != "" && Timed(entries).IsOldest(Walked(entries, order))
  {
    var before, k := order[..|order| - 1], order[|order| - 1];
    WalkStays(entries, before);
    if m in before { WalkKeepsOldest(entries, before, m); }
  }

  lemma {:induction false} WalkStays(entries: map<string, Stamped>, order: seq<string>)
    requires forall k <- order :: k in entries
    ensures Walked(entries, order) == "" || Walked(entries, order) in order
  {
    if order != [] { WalkStays(entries, order[..|order| - 1]); }
  }

  /** A scan that walks the empty name first forgets it. */
  lemma {:induction false} WalkForgets(entries: map<string, Stamped>, rest: seq<string>)
    requires "" in entries && rest != [] && forall k <- rest :: k in entries && k != ""
    ensures Walked(entries, [""] + rest) != ""
  {
    var order := [""] + rest;
    assert order[..|order| - 1] == [""] + rest[..|rest| - 1];
    if |rest| > 1 { WalkForgets(entries, rest[..|rest| - 1]); }
  }

  /** The empty name is a key beside others and older than each of them. */
  ghost predicate NamelessIsOldest(entries: map<string, Stamped>) {
    "" in entries && |entries| > 1 && forall k <- entries :: k != "" ==> entries[""].last < entries[k].last
  }

  /** However the map is walked, the scan ends with an oldest entry if and only if the empty name is not the one oldest
      key among others. */
  lemma ScanFindsOldestIff(entries: map<string, Stamped>)
    requires entries != map[]
    ensures (forall order :: Lists(order, entries.Keys) ==> Timed(entries).IsOldest(Walked(entries, order)))
       <==> !NamelessIsOldest(entries)
  {
    assert |entries.Keys| == |entries|;
    if NamelessIsOldest(entries) {
      var rest := ListOf(entries.Keys - {""});
      var order := [""] + rest;
      assert Lists(order, entries.Keys);
      assert rest != [] by { OthersExist(entries, rest); }
      WalkForgets(entries, rest);
      assert !Timed(entries).IsOldest(Walked(entries, order));
    } else {
      forall order | Lists(order, entries.Keys) ensures Timed(entries).IsOldest(Walked(entries, order)) {
        ScanFindsOldest(entries, order);
      }
    }
  }

  lemma OthersExist(entries: map<string, Stamped>, rest: seq<string>)
    requires "" in entries && |entries| > 1 && Lists(rest, entries.Keys - {""})
    ensures rest != []
  {
    RecentCounts(rest, entries.Keys - {""});
    assert |entries.Keys| == |entries|;
  }

  lemma ScanFindsOldest(entries: map<string, Stamped>, order: seq<string>)
    requires entries != map[] && !NamelessIsOldest(entries) && Lists(order, entries.Keys)
    ensures Timed(entries).IsOldest(Walked(entries, order))
  {
    var k0 :| k0 in entries.Keys;
    assert k0 in order;
    var m := OldestExists(entries, order);
    if m != "" {
      WalkKeepsOldest(entries, order, m);
    } else if k :| k in entries && k != "" && entries[k].last <= entries[""].last {
      WalkKeepsOldest(entries, order, k);
    } else {
      OnlyNameless(entries, order);
    }
  }

  lemma OnlyNameless(entries: map<string, Stamped>, order: seq<string>)
    requires "" in entries && !NamelessIsOldest(entries) && Lists(order, entries.Keys)
    requires forall k <- entries :: k != "" ==> entries[""].last < entries[k].last
    ensures Timed(entries).IsOldest(Walked(entries, order))
  {
    RecentCounts(order, entries.Keys);
    assert |entries.Keys| == |entries|;
    assert "" in order;
    assert order == [""];
    WalkStays(entries, order);
  }

  lemma {:induction false} OldestExists(entries: map<string, Stamped>, order: seq<string>) returns (m: string)
    requires order != [] && Lists(order, entries.Keys)
    ensures Timed(entries).IsOldest(m)
  {
    m := order[0];
    for i := 1 to |order|
      invariant m in entries && forall j :: 0 <= j < i ==> entries[m].last <= entries[order[j]].last
    {
      if entries[order[i]].last < entries[m].last { m := order[i]; }
    }
    forall k <- entries ensures entries[m].last <= entries[k].last { assert k in order; }
  }

  // ----- they agree -----

  /** Same hashes, same entries, and recency is the order of the time stamps, none of which is after `now`. */
  ghost predicate Agree(p: Ordered, g: Timed, now: int) {
    && p.WellFormed() && p.entries.Keys == g.entries.Keys
    && (forall k <- g.entries :: g.entries[k].entry == p.entries[k] && g.entries[k].last <= now)
    && NewestFirst(p.recent, g)
  }

  ghost predicate NewestFirst(recent: seq<string>, g: Timed) {
    forall i, j :: 0 <= i < j < |recent| ==> g.Last(recent[j]) < g.Last(recent[i])
  }

  /** The oldest time stamp is the last key in recency order, and no other. */
  lemma OldestIsLast(p: Ordered, g: Timed, now: int, oldest: string)
    requires Agree(p, g, now) && g.IsOldest(oldest)
    ensures p.recent != [] && oldest == p.recent[|p.recent| - 1]
  {
    assert oldest in p.recent;
    var i :| 0 <= i < |p.recent| && p.recent[i] == oldest;
    var last := p.recent[|p.recent| - 1];
    assert last in p.recent;
    assert g.Last(oldest) <= g.Last(last);
  }

  lemma CutStaysNewestFirst(recent: seq<string>, g: Timed, i: nat)
    requires Distinct(recent) && i < |recent| && NewestFirst(recent, g)
    ensures NewestFirst(recent[..i] + recent[i + 1..], Timed(g.entries - {recent[i]}))
  {
    var rest, h := recent[..i] + recent[i + 1..], recent[i];
    var g' := Timed(g.entries - {h});
    forall a {:trigger rest[a]} | 0 <= a < |rest|
      ensures g'.Last(rest[a]) == g.Last(recent[if a < i then a else a + 1])
    {
      var a' := if a < i then a else a + 1;
      assert rest[a] == recent[a'] && recent[a'] != h;
    }
  }

  /** Forgetting a hash in both caches. */
  lemma CutAgrees(p: Ordered, g: Timed, now: int, i: nat)
    requires Agree(p, g, now) && i < |p.recent|
    ensures var h := p.recent[i];
            Agree(Ordered(Without(p.recent, h), p.entries - {h}), Timed(g.entries - {h}), now)
  {
    CutStaysNewestFirst(p.recent, g, i);
    WithoutAt(p.recent, i);
    WithoutMembers(p.recent, p.recent[i]);
  }

  /** A new hash, with the newest time stamp, in both caches. */
  lemma InsertAgrees(p: Ordered, g: Timed, past: int, h: string, e: Entry, now: int)
    requires Agree(p, g, past) && past < now && h !in p.entries
    ensures Agree(Ordered([h] + p.recent, p.entries[h := e]), Timed(g.entries[h := Stamped(e, now)]), now)
  {
    var recent, g' := [h] + p.recent, Timed(g.entries[h := Stamped(e, now)]);
    forall a, b | 0 <= a < b < |recent| ensures g'.Last(recent[b]) < g'.Last(recent[a]) {
      assert recent[b] == p.recent[b - 1] && p.recent[b - 1] in p.recent;
      assert a > 0 ==> recent[a] == p.recent[a - 1] && p.recent[a - 1] in p.recent;
    }
  }

  lemma HitAgrees(p: Ordered, g: Timed, past: int, h: string, now: int)
    requires Agree(p, g, past) && past < now && h in p.entries
    ensures Agree(p.Looked(h), g.Looked(h, now), now)
  {
    var i :| 0 <= i < |p.recent| && p.recent[i] == h;
    CutAgrees(p, g, past, i);
    var e := p.entries[h].Hit();
    PutBack(p.entries, h, e);
    PutBack(g.entries, h, Stamped(e, now));
    InsertAgrees(Ordered(Without(p.recent, h), p.entries - {h}), Timed(g.entries - {h}), past, h, e, now);
  }

  lemma PutBack<V>(m: map<string, V>, k: string, v: V)
    ensures (m - {k})[k := v] == m[k := v]
  {
  }

  lemma MissAgrees(p: Ordered, g: Timed, past: int, capacity: nat, h: string, e: Entry, now: int, oldest: string)
    requires Agree(p, g, past) && past < now && capacity >= 1 && h !in p.entries
    requires |g.entries| >= capacity ==> g.IsOldest(oldest)
    ensures Agree(p.Stored(capacity, h, e), g.Stored(capacity, h, Stamped(e, now), oldest), now)
  {
    assert |p.entries.Keys| == |p.entries| && |g.entries.Keys| == |g.entries|;
    if |g.entries| >= capacity {
      OldestIsLast(p, g, past, oldest);
      var n := |p.recent| - 1;
      CutAgrees(p, g, past, n);
      WithoutAt(p.recent, n);
      assert Without(p.recent, oldest) == p.recent[..n];
      InsertAgrees(Ordered(p.recent[..n], p.entries - {oldest}), Timed(g.entries - {oldest}), past, h, e, now);
    } else {
      InsertAgrees(p, g, past, h, e, now);
    }
  }

  // ----- whole simulations -----

  /** One request: a hash, the entry that a miss stores, the clock reading it takes, and how a scan walks the map. */
  datatype Ask = Ask(h: string, e: Entry, now: int, walk: seq<string>)

  function OrderedRun(capacity: nat, asks: seq<Ask>): Ordered {
    if asks == [] then Ordered([], map[])
    else var a := asks[|asks| - 1]; OrderedRun(capacity, asks[..|asks| - 1]).Requested(capacity, a.h, a.e)
  }

  function TimedRun(maxSize: nat, asks: seq<Ask>): Timed {
    if asks == [] then Timed(map[])
    else
      var g, a := TimedRun(maxSize, asks[..|asks| - 1]), asks[|asks| - 1];
      g.Requested(maxSize, a.h, a.e, a.now, Walked(g.entries, a.walk))
  }

  /** A full cache that is asked for a hash it may not hold: the scan walks the whole map, in any order, and the empty
      hash is not the one oldest key among others. */
  ghost predicate ScanOk(g: Timed, maxSize: nat, walk: seq<string>) {
    |g.entries| >= maxSize ==> Lists(walk, g.entries.Keys) && !NamelessIsOldest(g.entries)
  }

  ghost predicate ScansOk(maxSize: nat, asks: seq<Ask>) {
    forall i :: 0 <= i < |asks| ==> ScanOk(TimedRun(maxSize, asks[..i]), maxSize, asks[i].walk)
  }

  ghost predicate ClockIncreases(asks: seq<Ask>) { forall i, j :: 0 <= i < j < |asks| ==> asks[i].now < asks[j].now }

  lemma {:induction false} RunsAgree(capacity: nat, asks: seq<Ask>, now: int)
    requires capacity >= 1 && ClockIncreases(asks) && ScansOk(capacity, asks)
    requires asks != [] ==> asks[|asks| - 1].now <= now
    ensures Agree(OrderedRun(capacity, asks), TimedRun(capacity, asks), now)
  {
    if asks != [] {
      var n := |asks| - 1;
      var before, a := asks[..n], asks[n];
      PrefixOk(capacity, asks);
      RunsAgree(capacity, before, a.now - 1);
      var p, g := OrderedRun(capacity, before), TimedRun(capacity, before);
      assert ScanOk(g, capacity, a.walk);
      var oldest := Walked(g.entries, a.walk);
      if |g.entries| >= capacity { ScanFindsOldest(g.entries, a.walk); }
      if a.h in p.entries {
        HitAgrees(p, g, a.now - 1, a.h, a.now);
      } else {
        MissAgrees(p, g, a.now - 1, capacity, a.h, a.e, a.now, oldest);
      }
    }
  }

  /** Requests with non-empty hashes never mislead a scan. */
  lemma {:induction false} NamedRunIsNamed(capacity: nat, asks: seq<Ask>)
    requires forall i :: 0 <= i < |asks| ==> asks[i].h != ""
    ensures "" !in TimedRun(capacity, asks).entries && !NamelessIsOldest(TimedRun(capacity, asks).entries)
  {
    if asks != [] { NamedRunIsNamed(capacity, asks[..|asks| - 1]); }
  }

  /** So on requests with non-empty hashes it is enough that every scan walks the whole map. */
  lemma NamedScansOk(maxSize: nat, asks: seq<Ask>)
    requires forall i :: 0 <= i < |asks| ==> asks[i].h != ""
    requires forall i :: 0 <= i < |asks| ==> Lists(asks[i].walk, TimedRun(maxSize, asks[..i]).entries.Keys)
    ensures ScansOk(maxSize, asks)
  {
    forall i | 0 <= i < |asks| ensures ScanOk(TimedRun(maxSize, asks[..i]), maxSize, asks[i].walk) {
      NamedRunIsNamed(maxSize, asks[..i]);
    }
  }

  lemma PrefixOk(capacity: nat, asks: seq<Ask>)
    requires asks != [] && ClockIncreases(asks) && ScansOk(capacity, asks)
    ensures ClockIncreases(asks[..|asks| - 1]) && ScansOk(capacity, asks[..|asks| - 1])
  {
    var before := asks[..|asks| - 1];
    forall i {:trigger before[i]} | 0 <= i < |before|
      ensures ScanOk(TimedRun(capacity, before[..i]), capacity, before[i].walk)
    {
      assert before[..i] == asks[..i] && before[i] == asks[i];
    }
  }

  /** On every sequence of requests with increasing clock readings, and however its scans walk the map, caches of equal
      capacity hit on the same requests and hold the same hashes with the same entries after each, as long as no scan is
      misled by the empty hash. */
  lemma CachesAgree(capacity: nat, asks: seq<Ask>, h: string)
    requires capacity >= 1 && ClockIncreases(asks) && ScansOk(capacity, asks)
    ensures var p, g := OrderedRun(capacity, asks), TimedRun(capacity, asks);
            && (h in p.entries <==> h in g.entries)
            && (h in p.entries ==> p.entries[h] == g.entries[h].entry)
  {
    RunsAgree(capacity, asks, if asks == [] then 0 else asks[|asks| - 1].now);
  }

  lemma WalkedIsKey(entries: map<string, Stamped>, order: seq<string>)
    requires entries != map[] && Lists(order, entries.Keys)
    ensures Walked(entries, order) in entries
  {
    WalkStays(entries, order);
    if "" !in entries { ScanFindsOldest(entries, order); }
  }

  /** However the map is walked, Go's Store of a hash that is present keeps every other entry if and only if the cache
      is not full or the scan ends with that hash; Python's always keeps them. */
  lemma RestoreKeepsOthersIff(g: Timed, maxSize: nat, h: string, e: Stamped, order: seq<string>)
    requires h in g.entries && Lists(order, g.entries.Keys)
    ensures var oldest := Walked(g.entries, order);
            g.Stored(maxSize, h, e, oldest).entries.Keys == g.entries.Keys <==> |g.entries| < maxSize || oldest == h
  {
    var oldest := Walked(g.entries, order);
    WalkedIsKey(g.entries, order);
    if |g.entries| >= maxSize && oldest != h {
      assert oldest !in g.Stored(maxSize, h, e, oldest).entries;
    }
  }

  lemma {:induction false} RecentCounts(recent: seq<string>, keys: set<string>)
    requires Distinct(recent) && forall k :: k in recent <==> k in keys
    ensures |recent| == |keys|
  {
    if recent != [] {
      var front, last := recent[..|recent| - 1], recent[|recent| - 1];
      RecentCounts(front, keys - {last});
    }
  }

  lemma RequestedIsRequest(p: Ordered, capacity: nat, h: string, e: Entry)
    requires p.WellFormed()
    ensures p.Requested(capacity, h, e).WellFormed()
    ensures p.Requested(capacity, h, e).recent == Request(p.recent, capacity, h)
  {
    RecentCounts(p.recent, p.entries.Keys);
    assert |p.entries.Keys| == |p.entries|;
    if h in p.entries {
      TouchMembers(p.recent, h);
    } else if |p.entries| >= capacity && p.recent != [] {
      var n := |p.recent| - 1;
      CutMembers(p.recent, n);
      assert p.recent[..n] + p.recent[n + 1..] == p.recent[..n];
    }
  }

  /** The ordered dictionary always lists the most recently requested distinct hashes, up to its capacity. */
  lemma {:induction false} HoldsMostRecentHashes(capacity: nat, asks: seq<Ask>)
    requires capacity >= 1
    ensures OrderedRun(capacity, asks).WellFormed()
    ensures OrderedRun(capacity, asks).recent == Requests(capacity, Hashes(asks))
    ensures OrderedRun(capacity, asks).recent == Take(Order(Uses(Hashes(asks))), capacity)
  {
    HoldsMostRecent(capacity, Hashes(asks));
    if asks != [] {
      var before, a := asks[..|asks| - 1], asks[|asks| - 1];
      HoldsMostRecentHashes(capacity, before);
      assert Hashes(asks)[..|asks| - 1] == Hashes(before);
      RequestedIsRequest(OrderedRun(capacity, before), capacity, a.h, a.e);
    }
  }

  function Hashes(asks: seq<Ask>): seq<string> { seq(|asks|, i requires 0 <= i < |asks| => asks[i].h) }
}
