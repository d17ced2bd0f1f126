/** What the overlapping calls of `CacheThreads` do to each key and each entry, told from the steps alone. */
module CacheHistory {
  import opened Options
  import opened PolicyModel
  import CacheModel
  import CacheCalls
  import opened CacheThreads

  // ----- when a key comes and goes -----

  /** The step takes `k` out of the map: a Delete of it, a Set of another key that is new to a full cache and whose
      victim it is, or the end of a Get that reads a time later than the expiry of the entry then cached. */
  ghost predicate TakesOut(s: State, capacity: nat, step: Step, k: string)
    requires s.WellFormed() && k in s.slots && (step.EndExpired? ==> step.g in s.gets)
  {
    match step
    case Remove(key) => key == k
    case Set(key, _, _, _, _, victim) => key !in s.slots && |s.slots| == capacity && victim == k
    case EndExpired(g, now) =>
      var expiresAt := s.entries[s.slots[k]].view.expiresAt;
      s.gets[g].key == k && expiresAt != 0 && now > expiresAt
    case _ => false
  }

  lemma SlotsAreEntries(s: State)
    requires s.WellFormed()
    ensures s.View().entries.Keys == s.slots.Keys && |s.View().entries| == |s.slots|
  {
    assert s.View().entries.Keys == s.slots.Keys;
    assert |s.View().entries.Keys| == |s.View().entries| && |s.slots.Keys| == |s.slots|;
  }

  lemma StepOnKey(s: State, capacity: nat, step: Step, k: string)
    requires capacity >= 1 && Sane(s, capacity) && Enabled(s, capacity, step)
    ensures k in Apply(s, capacity, step).slots <==>
            (step.Set? && step.key == k) || (k in s.slots && !TakesOut(s, capacity, step, k))
  {
    SlotsAreEntries(s);
    if step.Set? && CacheModel.MustEvict(s.View(), capacity, step.key) { VictimIsTracked(s.policy, step.victim); }
    assert |s.slots| == capacity ==> s.slots.Keys != {};
  }

  /** In every interleaving, a key is cached after a step if and only if the step is a Set of it, or it was cached and
      the step does not take it out. */
  lemma KeyIsCachedIff(run: seq<State>, capacity: nat, steps: seq<Step>, i: nat, k: string)
    requires capacity >= 1 && IsRun(run, capacity, steps) && i < |steps|
    ensures run[i].WellFormed() && Enabled(run[i], capacity, steps[i])
    ensures k in run[i + 1].slots <==>
            (steps[i].Set? && steps[i].key == k) || (k in run[i].slots && !TakesOut(run[i], capacity, steps[i], k))
  {
    RunStaysSane(run, capacity, steps, i);
    assert Moves(run, capacity, steps, i);
    StepOnKey(run[i], capacity, steps[i], k);
  }

  // ----- what an entry remembers -----

  /** The step is an access to the entry `id`: the Set that makes it, one that overwrites it, or the end of a Get that
      found it. */
  predicate Accesses(s: State, step: Step, id: nat) {
    match step
    case Set(key, _, _, _, _, _) => if key in s.slots then s.slots[key] == id else s.next == id
    case EndHit(g, _, _) => g in s.gets && s.gets[g].id == id
    case _ => false
  }

  /** The clock readings of the accesses to `id` among the first `i` steps, in order. */
  function Readings(run: seq<State>, steps: seq<Step>, i: nat, id: nat): seq<int>
    requires i <= |steps| < |run|
  {
    if i == 0 then []
    else
      Readings(run, steps, i - 1, id) + if Accesses(run[i - 1], steps[i - 1], id) then [steps[i - 1].now] else []
  }

  /** The entry was made at the first of these readings, accessed last at the last, and accessed that often. */
  ghost predicate Dates(s: State, id: nat, readings: seq<int>) {
    if id !in s.entries then readings == []
    else
      var e := s.entries[id].view;
      readings != [] && e.createdAt == readings[0] && e.accessedAt == readings[|readings| - 1] &&
      e.accessCount == |readings|
  }

  /** Only an access changes what an entry remembers, and only a Set makes one. */
  lemma StepOnEntry(s: State, capacity: nat, step: Step, id: nat)
    requires Enabled(s, capacity, step)
    ensures var s' := Apply(s, capacity, step);
            if !Accesses(s, step, id) then
              && (id in s'.entries <==> id in s.entries)
              && (id in s.entries ==>
                    && s'.entries[id].view.createdAt == s.entries[id].view.createdAt
                    && s'.entries[id].view.accessedAt == s.entries[id].view.accessedAt
                    && s'.entries[id].view.accessCount == s.entries[id].view.accessCount)
            else
              && id in s'.entries && s'.entries[id].view.accessedAt == step.now
              && s'.entries[id].view.accessCount == (if id in s.entries then s.entries[id].view.accessCount else 0) + 1
              && s'.entries[id].view.createdAt == if id in s.entries then s.entries[id].view.createdAt else step.now
  {
  }

  lemma StepKeepsDates(s: State, capacity: nat, step: Step, id: nat, readings: seq<int>)
    requires Enabled(s, capacity, step) && Dates(s, id, readings)
    ensures Dates(Apply(s, capacity, step), id, readings + if Accesses(s, step, id) then [step.now] else [])
  {
    StepOnEntry(s, capacity, step, id);
  }

  /** In every interleaving and for every entry ever made, cached or not: it was created at the reading of the Set that
      made it, its last access is the latest reading, and its count is the number of Sets and Gets that ended on it. */
  lemma {:induction false} EntryRemembersAccesses(run: seq<State>, capacity: nat, steps: seq<Step>, i: nat, id: nat)
    requires IsRun(run, capacity, steps) && i < |run|
    ensures Dates(run[i], id, Readings(run, steps, i, id))
  {
    if i > 0 {
      EntryRemembersAccesses(run, capacity, steps, i - 1, id);
      assert Moves(run, capacity, steps, i - 1);
      StepKeepsDates(run[i - 1], capacity, steps[i - 1], id, Readings(run, steps, i - 1, id));
    }
  }

  // ----- a Get that no other call overlaps -----

  /** The steps of a Get, taken one after the other, leave the cache and find the value of a call by itself: `a`, `b`
      and `c` are the states after the lookup, the check and the end. */
  lemma GetIsItsSteps(s: State, capacity: nat, g: nat, key: string, now: int, later: int, noted: int)
    returns (a: State, b: State, c: State)
    requires s.WellFormed() && g !in s.gets && key in s.slots
    ensures Enabled(s, capacity, Look(g, key)) && a == Apply(s, capacity, Look(g, key))
    ensures Enabled(a, capacity, Check(g, now)) && b == Apply(a, capacity, Check(g, now)) && g in b.gets
    ensures var end := if b.gets[g].SawExpired? then EndExpired(g, later) else EndHit(g, later, noted);
            Enabled(b, capacity, end) && c == Apply(b, capacity, end)
    ensures c.WellFormed()
    ensures c.View() == CacheCalls.After(s.View(), capacity, CacheCalls.GetCall(key, now, later, noted))
    ensures var value := CacheCalls.Found(s.View(), key, now);
            if b.gets[g].SawExpired? then value == None
            else Enabled(c, capacity, Return(g)) && value == Some(c.entries[c.gets[g].id].view.value)
  {
    a := Apply(s, capacity, Look(g, key));
    StepRefines(s, capacity, Look(g, key));
    b := Apply(a, capacity, Check(g, now));
    StepRefines(a, capacity, Check(g, now));
    assert b.View() == s.View() && s.View().entries[key] == s.entries[s.slots[key]].view;
    var end := if b.gets[g].SawExpired? then EndExpired(g, later) else EndHit(g, later, noted);
    c := Apply(b, capacity, end);
    StepRefines(b, capacity, end);
  }
}
