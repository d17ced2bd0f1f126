/** What the two prefix caches have become after any lookups and stores, told from those alone. */
module PrefixHistory {
  import opened Options
  import opened Recency
  import opened PrefixModel

  /** What was last stored under a hash, and how often it was hit since. */
  datatype Life = Life(stored: Entry, hits: nat)

  function OneHitMore(life: Option<Life>): Option<Life> {
    if life.Some? then Some(life.value.(hits := life.value.hits + 1)) else None
  }

  /** The entry has the figures that it was stored with, and has counted the hits since then. */
  ghost predicate Remembers(e: Entry, life: Option<Life>) {
    life.Some? && var stored := life.value.stored;
    && e.tokenCount == stored.tokenCount && e.tflops == stored.tflops && e.costUsd == stored.costUsd
    && e.hits == stored.hits + life.value.hits
  }

  // ----- Python -----

  datatype Call = Look(h: string) | Put(h: string, e: Entry)

  function AfterCall(p: Ordered, capacity: nat, call: Call): Ordered {
    match call
    case Look(h) => p.Looked(h)
    case Put(h, e) => p.Stored(capacity, h, e)
  }

  function After(capacity: nat, calls: seq<Call>): Ordered {
    if calls == [] then Ordered([], map[])
    else
      AfterCall(After(capacity, calls[..|calls| - 1]), capacity, calls[|calls| - 1])
  }

  /** The hashes used, in order: those stored, and those looked up while among the most recently used that fit. */
  function Used(capacity: nat, calls: seq<Call>): seq<string> {
    if calls == [] then []
    else
      var used, call := Used(capacity, calls[..|calls| - 1]), calls[|calls| - 1];
      if call.Put? || call.h in Requests(capacity, used) then used + [call.h] else used
  }

  /** After any lookups and stores the dictionary lists the most recently used hashes, up to its capacity. */
  lemma {:induction false} ListsMostRecentlyUsed(capacity: nat, calls: seq<Call>)
    requires capacity >= 1
    ensures After(capacity, calls).WellFormed()
    ensures After(capacity, calls).recent == Requests(capacity, Used(capacity, calls))
    ensures After(capacity, calls).recent == Take(Order(Uses(Used(capacity, calls))), capacity)
  {
    HoldsMostRecent(capacity, Used(capacity, calls));
    if calls != [] {
      var before, call := calls[..|calls| - 1], calls[|calls| - 1];
      ListsMostRecentlyUsed(capacity, before);
      CallIsRequest(After(capacity, before), capacity, call);
      var used := Used(capacity, before);
      assert (used + [call.h])[..|used|] == used;
    }
  }

  lemma CallIsRequest(p: Ordered, capacity: nat, call: Call)
    requires p.WellFormed()
    ensures var p' := AfterCall(p, capacity, call);
            p'.WellFormed() && p'.recent ==
              if call.Put? || call.h in p.recent then Request(p.recent, capacity, call.h) else p.recent
  {
    if call.h in p.entries {
      TouchMembers(p.recent, call.h);
    } else if call.Put? {
      RequestedIsRequest(p, capacity, call.h, call.e);
    }
  }

  /** What a call makes of a life; `held` says whether `k` was cached. */
  function NextLife(life: Option<Life>, call: Call, k: string, held: bool): Option<Life> {
    if call.h != k then life
    else if call.Put? then Some(Life(call.e, 0))
    else if held then OneHitMore(life)
    else life
  }

  function LifeOf(capacity: nat, calls: seq<Call>, k: string): Option<Life> {
    if calls == [] then None
    else
      var before, call := calls[..|calls| - 1], calls[|calls| - 1];
      NextLife(LifeOf(capacity, before, k), call, k, k in Requests(capacity, Used(capacity, before)))
  }

  lemma CallOnEntry(p: Ordered, capacity: nat, call: Call, k: string, life: Option<Life>)
    requires k in AfterCall(p, capacity, call).entries && (k in p.entries ==> Remembers(p.entries[k], life))
    ensures Remembers(AfterCall(p, capacity, call).entries[k], NextLife(life, call, k, k in p.entries))
  {
  }

  /** After any lookups and stores, an entry has the figures it was last stored with and counts the hits since. */
  lemma {:induction false} EntryCountsHits(capacity: nat, calls: seq<Call>, k: string)
    requires capacity >= 1 && k in After(capacity, calls).entries
    ensures Remembers(After(capacity, calls).entries[k], LifeOf(capacity, calls, k))
  {
    var before, call := calls[..|calls| - 1], calls[|calls| - 1];
    var p := After(capacity, before);
    ListsMostRecentlyUsed(capacity, before);
    assert k in p.entries <==> k in Requests(capacity, Used(capacity, before));
    if k in p.entries { EntryCountsHits(capacity, before, k); }
    CallOnEntry(p, capacity, call, k, LifeOf(capacity, before, k));
  }

  // ----- Go -----

  /** `walk` is how a scan walks the map, if the store makes one. */
  datatype TimedCall = TimedLook(h: string, now: int) | TimedPut(h: string, s: Stamped, walk: seq<string>)

  function TimedAfter(maxSize: nat, calls: seq<TimedCall>): Timed {
    if calls == [] then Timed(map[])
    else
      var g := TimedAfter(maxSize, calls[..|calls| - 1]);
      match calls[|calls| - 1]
      case TimedLook(h, now) => g.Looked(h, now)
      case TimedPut(h, s, walk) => g.Stored(maxSize, h, s, Walked(g.entries, walk))
  }

  function TimedLifeOf(maxSize: nat, calls: seq<TimedCall>, k: string): Option<Life> {
    if calls == [] then None
    else
      var before, call := calls[..|calls| - 1], calls[|calls| - 1];
      var life := TimedLifeOf(maxSize, before, k);
      if call.h != k then life
      else if call.TimedPut? then Some(Life(call.s.entry, 0))
      else if k in TimedAfter(maxSize, before).entries then OneHitMore(life)
      else life
  }

  /** The time stamp that the last call with `k` gave it. */
  function LastStamp(calls: seq<TimedCall>, k: string): Option<int> {
    if calls == [] then None
    else
      var call := calls[|calls| - 1];
      if call.h != k then LastStamp(calls[..|calls| - 1], k)
      else Some(if call.TimedPut? then call.s.last else call.now)
  }

  /** The same of the Go cache, however its scans walk the map; and the time stamp is that of the last call. */
  lemma {:induction false} TimedEntryCountsHits(maxSize: nat, calls: seq<TimedCall>, k: string)
    requires k in TimedAfter(maxSize, calls).entries
    ensures Remembers(TimedAfter(maxSize, calls).entries[k].entry, TimedLifeOf(maxSize, calls, k))
    ensures Some(TimedAfter(maxSize, calls).entries[k].last) == LastStamp(calls, k)
  {
    var before := calls[..|calls| - 1];
    if k in TimedAfter(maxSize, before).entries { TimedEntryCountsHits(maxSize, before, k); }
  }

  /** A store makes its hash cached, and loses at most the one entry that the scan of a full map ends with. */
  lemma PutKeepsOthers(maxSize: nat, calls: seq<TimedCall>, k: string)
    requires calls != [] && calls[|calls| - 1].TimedPut?
    ensures var before, call := TimedAfter(maxSize, calls[..|calls| - 1]).entries, calls[|calls| - 1];
            k in TimedAfter(maxSize, calls).entries <==>
            k == call.h || (k in before && (|before| < maxSize || k != Walked(before, call.walk)))
  {
  }
}
