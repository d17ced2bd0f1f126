/** When the TTL-only policy evicts the entry that expires first, told from the Sets of a run. */
module TtlRuns {
  import opened Options
  import opened HeapOrder
  import opened PolicyModel
  import opened CacheModel

  /** The expiry given by the last Set of `k`. */
  function LastSet(sections: seq<Section>, k: string): Option<int> {
    if sections == [] then None
    else
      var s := sections[|sections| - 1];
      if s.Put? && s.key == k then Some(s.expiresAt) else LastSet(sections[..|sections| - 1], k)
  }

  /** The expiry given by the last Set, among the first `i` sections, that found `k` absent and so inserted it. */
  function InsertedWith(run: seq<CacheView>, sections: seq<Section>, i: nat, k: string): Option<int>
    requires i <= |sections| < |run|
  {
    if i == 0 then None
    else
      var s := sections[i - 1];
      if s.Put? && s.key == k && k !in run[i - 1].entries then Some(s.expiresAt)
      else InsertedWith(run, sections, i - 1, k)
  }

  /** Every entry has the expiry of its last Set, and the rank of its insertion. */
  ghost predicate Remembers(run: seq<CacheView>, sections: seq<Section>, i: nat)
    requires i <= |sections| < |run|
  {
    run[i].policy.TtlView? && forall k <- run[i].entries :: RemembersKey(run, sections, i, k)
  }

  ghost predicate RemembersKey(run: seq<CacheView>, sections: seq<Section>, i: nat, k: string)
    requires i <= |sections| < |run| && run[i].policy.TtlView? && k in run[i].entries
  {
    && k in run[i].policy.table && run[i].policy.table[k].minor == 0
    && LastSet(sections[..i], k) == Some(run[i].entries[k].expiresAt)
    && InsertedWith(run, sections, i, k) == Some(run[i].policy.table[k].major)
  }

  lemma {:induction false} RunRemembers(run: seq<CacheView>, capacity: nat, sections: seq<Section>, i: nat)
    requires capacity >= 1 && IsRun(run, capacity, sections) && i <= |sections| && run[0].policy.TtlView?
    ensures Remembers(run, sections, i)
  {
    if i > 0 {
      RunRemembers(run, capacity, sections, i - 1);
      RunKeepsInStep(run, capacity, sections, i - 1);
      RunKeepsInStep(run, capacity, sections, i);
      OneMoreRemembered(run, capacity, sections, i);
    }
  }

  lemma OneMoreRemembered(run: seq<CacheView>, capacity: nat, sections: seq<Section>, i: nat)
    requires IsRun(run, capacity, sections) && 0 < i <= |sections| && Remembers(run, sections, i - 1)
    requires InStep(run[i - 1], capacity) && InStep(run[i], capacity)
    ensures Remembers(run, sections, i)
  {
    assert Moves(run, capacity, sections, i - 1);
    StaysTtl(run[i - 1], capacity, sections[i - 1]);
    forall k <- run[i].entries ensures RemembersKey(run, sections, i, k) {
      SectionOnKey(run[i - 1], run[i], capacity, sections[i - 1], k);
      KeyRemembered(run, sections, i, k);
    }
  }

  lemma StaysTtl(c: CacheView, capacity: nat, s: Section)
    requires c.policy.TtlView?
    ensures Apply(c, capacity, s).policy.TtlView?
  {
  }

  /** What a section does to one key of a TTL-only cache. */
  ghost predicate KeyMoved(c: CacheView, after: CacheView, s: Section, k: string)
    requires c.policy.TtlView? && after.policy.TtlView? && k in after.entries
  {
    && k in after.policy.table
    && if s.Put? && s.key == k && k !in c.entries
       then after.entries[k].expiresAt == s.expiresAt && after.policy.table[k] == Rank(s.expiresAt, 0)
       else
         && k in c.entries && k in c.policy.table && after.policy.table[k] == c.policy.table[k]
         && after.entries[k].expiresAt == if s.Put? && s.key == k then s.expiresAt else c.entries[k].expiresAt
  }

  lemma SectionOnKey(c: CacheView, after: CacheView, capacity: nat, s: Section, k: string)
    requires c.policy.TtlView? && c.policy.Tracked() == c.entries.Keys && after == Apply(c, capacity, s)
    requires after.policy.TtlView? && after.policy.Tracked() == after.entries.Keys && k in after.entries
    ensures KeyMoved(c, after, s, k)
  {
    assert k in after.policy.Tracked();
    assert k in c.entries <==> k in c.policy.Tracked();
  }

  lemma KeyRemembered(run: seq<CacheView>, sections: seq<Section>, i: nat, k: string)
    requires 0 < i <= |sections| < |run| && run[i].policy.TtlView? && k in run[i].entries
    requires Remembers(run, sections, i - 1) && KeyMoved(run[i - 1], run[i], sections[i - 1], k)
    ensures RemembersKey(run, sections, i, k)
  {
    assert sections[..i][..i - 1] == sections[..i - 1];
    assert k in run[i - 1].entries ==> RemembersKey(run, sections, i - 1, k);
  }

  /** In every interleaving, the ranks are the entries' expiries if and only if the last Set of every cached key gave
      the same expiry as the Set that inserted it. */
  lemma {:induction false} ExpiriesMatchIff(run: seq<CacheView>, capacity: nat, sections: seq<Section>, i: nat)
    requires capacity >= 1 && IsRun(run, capacity, sections) && i <= |sections| && run[0].policy.TtlView?
    ensures ExpiriesMatch(run[i]) <==>
            forall k <- run[i].entries :: LastSet(sections[..i], k) == InsertedWith(run, sections, i, k)
  {
    RunRemembers(run, capacity, sections, i);
  }

  /** Whatever the policy may evict expires no later than any other entry. */
  ghost predicate EvictsFirstToExpire(c: CacheView) {
    forall v, k :: c.policy.MayEvict(v) && v in c.entries && k in c.entries ==>
      c.entries[v].expiresAt <= c.entries[k].expiresAt
  }

  /** `v` was inserted with an expiry no later than that of any other cached key. */
  ghost predicate InsertedFirst(run: seq<CacheView>, sections: seq<Section>, i: nat, v: string)
    requires i <= |sections| < |run|
  {
    InsertedWith(run, sections, i, v).Some? &&
    forall k <- run[i].entries :: InsertedWith(run, sections, i, k).Some? ==>
      InsertedWith(run, sections, i, v).value <= InsertedWith(run, sections, i, k).value
  }

  /** `v` was last Set with an expiry no later than that of any other cached key. */
  ghost predicate SetFirst(run: seq<CacheView>, sections: seq<Section>, i: nat, v: string)
    requires i <= |sections| < |run|
  {
    LastSet(sections[..i], v).Some? &&
    forall k <- run[i].entries :: LastSet(sections[..i], k).Some? ==>
      LastSet(sections[..i], v).value <= LastSet(sections[..i], k).value
  }

  /** In every interleaving, the TTL-only policy evicts what expires first if and only if every cached key with the
      least expiry at insertion also has the least expiry by its last Set. */
  lemma {:induction false} EvictsFirstToExpireIff(run: seq<CacheView>, capacity: nat, sections: seq<Section>, i: nat)
    requires capacity >= 1 && IsRun(run, capacity, sections) && i <= |sections| && run[0].policy.TtlView?
    ensures EvictsFirstToExpire(run[i]) <==>
            forall v <- run[i].entries :: InsertedFirst(run, sections, i, v) ==> SetFirst(run, sections, i, v)
  {
    var c := run[i];
    RunRemembers(run, capacity, sections, i);
    RunKeepsInStep(run, capacity, sections, i);
    forall v <- c.entries
      ensures c.policy.MayEvict(v) <==> InsertedFirst(run, sections, i, v)
      ensures SetFirst(run, sections, i, v) <==>
          forall k <- c.entries :: c.entries[v].expiresAt <= c.entries[k].expiresAt
    {
      VictimInsertedFirst(run, sections, i, v);
    }
  }

  lemma VictimInsertedFirst(run: seq<CacheView>, sections: seq<Section>, i: nat, v: string)
    requires i <= |sections| < |run| && Remembers(run, sections, i) && run[i].policy.Tracked() == run[i].entries.Keys
    requires v in run[i].entries
    ensures run[i].policy.MayEvict(v) <==> InsertedFirst(run, sections, i, v)
    ensures var c := run[i];
            SetFirst(run, sections, i, v) <==> forall k <- c.entries :: c.entries[v].expiresAt <= c.entries[k].expiresAt
  {
    var table := run[i].policy.table;
    assert table.Keys == run[i].entries.Keys;
    forall k <- run[i].entries ensures AtMost(table[v], table[k]) <==> table[v].major <= table[k].major {}
  }

  /** So it does wherever no Set has changed the expiry of a cached key. */
  lemma {:induction false} UnchangedExpiriesEvictFirst(run: seq<CacheView>, capacity: nat, sections: seq<Section>,
                                                       i: nat)
    requires capacity >= 1 && IsRun(run, capacity, sections) && i <= |sections| && run[0].policy.TtlView?
    requires forall k <- run[i].entries :: LastSet(sections[..i], k) == InsertedWith(run, sections, i, k)
    ensures EvictsFirstToExpire(run[i])
  {
    EvictsFirstToExpireIff(run, capacity, sections, i);
  }

  // ----- a run on which it does not -----

  ghost predicate Reachable(c: CacheView, capacity: nat) {
    exists run: seq<CacheView>, sections: seq<Section> :: IsRun(run, capacity, sections) && run[|run| - 1] == c
  }

  lemma ReachableStep(c: CacheView, capacity: nat, s: Section)
    requires Reachable(c, capacity) && Enabled(c, capacity, s)
    ensures Reachable(Apply(c, capacity, s), capacity)
  {
    var run: seq<CacheView>, sections: seq<Section> :| IsRun(run, capacity, sections) && run[|run| - 1] == c;
    var run', sections' := run + [Apply(c, capacity, s)], sections + [s];
    forall i | 0 <= i < |sections'| ensures Moves(run', capacity, sections', i) {
      assert i < |sections| ==> Moves(run, capacity, sections, i);
    }
    assert IsRun(run', capacity, sections') && run'[|run'| - 1] == Apply(c, capacity, s);
  }

  lemma EmptyIsReachable(p: PolicyView, capacity: nat)
    requires p.WellFormed() && p.Tracked() == {}
    ensures Reachable(Empty(p), capacity)
  {
    assert IsRun([Empty(p)], capacity, []) && [Empty(p)][0] == Empty(p);
  }

  /** The first Set in an empty cache. */
  lemma StoreFirst(c: CacheView, capacity: nat, key: string, expiresAt: int, now: int) returns (c': CacheView)
    requires Reachable(c, capacity) && c.entries == map[] && c.policy.Tracked() == {}
    ensures Reachable(c', capacity) && c'.entries == map[key := EntryView([], expiresAt, now, now, 1)]
    ensures c'.policy == c.policy.OnInsert(key, expiresAt, now)
  {
    c' := Apply(c, capacity, Put(key, [], expiresAt, now, now, ""));
    ReachableStep(c, capacity, Put(key, [], expiresAt, now, now, ""));
  }

  /** The TTL-only policy does not always evict the entry that expires first: after a Set has put off the expiry of
      "a", a full cache still evicts "a" although "b" expires earlier. */
  lemma TtlUpsertMisleads() returns (c: CacheView)
    ensures Reachable(c, 2) && c.policy.TtlView? && c.entries.Keys == {"a", "b"}
    ensures c.entries["b"].expiresAt < c.entries["a"].expiresAt
    ensures forall victim :: c.policy.MayEvict(victim) <==> victim == "a"
  {
    EmptyIsReachable(TtlView(map[]), 2);
    c := StoreFirst(Empty(TtlView(map[])), 2, "a", 10, 1);
    var c2 := StoreSecond(c);
    ReachableStep(c2, 2, Put("a", [], 30, 3, 3, ""));
    c := Apply(c2, 2, Put("a", [], 30, 3, 3, ""));
    assert c.policy == c2.policy;
  }

  lemma StoreSecond(c: CacheView) returns (c': CacheView)
    requires Reachable(c, 2) && c.entries == map["a" := EntryView([], 10, 1, 1, 1)]
    requires c.policy == TtlView(map["a" := Rank(10, 0)])
    ensures Reachable(c', 2) && c'.policy == TtlView(map["a" := Rank(10, 0), "b" := Rank(20, 0)])
    ensures c'.entries == map["a" := EntryView([], 10, 1, 1, 1), "b" := EntryView([], 20, 2, 2, 1)]
  {
    ReachableStep(c, 2, Put("b", [], 20, 2, 2, ""));
    c' := Apply(c, 2, Put("b", [], 20, 2, 2, ""));
    assert c'.policy.table == map["a" := Rank(10, 0), "b" := Rank(20, 0)];
  }
}
