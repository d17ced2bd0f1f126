/** Overlapping calls of the cache with the identity of every entry: a Get looks its entry up, checks its expiry and
    ends in three separate steps, between which the entry may be removed and its key stored anew. */
module CacheThreads {
  import opened Options
  import Recency
  import opened HeapOrder
  import opened PolicyModel
  import opened CacheModel

  /** An entry object; its key never changes. */
  datatype Entry = Entry(key: string, view: EntryView)

  /** A Get that found the entry `id` under `key`, and how far it is: its expiry seen, its access noted. */
  datatype Getting =
    | Looked(key: string, id: nat)
    | SawLive(key: string, id: nat)
    | SawExpired(key: string, id: nat)
    | Noted(key: string, id: nat)

  /** `entries` holds every entry ever made, `slots` the cache's map, `gets` the Gets under way. */
  datatype State = State(
    entries: map<nat, Entry>,
    slots: map<string, nat>,
    policy: PolicyView,
    gets: map<nat, Getting>,
    next: nat)
  {
    ghost predicate WellFormed() {
      && (forall id <- entries :: id < next)
      && (forall k <- slots :: slots[k] in entries && entries[slots[k]].key == k)
      && (forall g <- gets :: gets[g].id in entries && entries[gets[g].id].key == gets[g].key)
    }

    /** The cache that the sections of `CacheModel` see. */
    ghost function View(): CacheView
      requires WellFormed()
    {
      CacheView(map k | k in slots :: entries[slots[k]].view, policy)
    }
  }

  datatype Step =
    | Look(g: nat, key: string)
    | Check(g: nat, now: int)
    | EndHit(g: nat, now: int, noted: int)
    | Return(g: nat)  // the value is read once the lock is released
    | EndExpired(g: nat, now: int)
    | Set(key: string, value: Bytes, expiresAt: int, now: int, noted: int, victim: string)
    | Remove(key: string)

  ghost predicate Enabled(s: State, capacity: nat, step: Step) {
    s.WellFormed() &&
    match step
    case Look(g, key) => g !in s.gets && key in s.slots
    case Check(g, _) => g in s.gets && s.gets[g].Looked?
    case EndHit(g, _, _) => g in s.gets && s.gets[g].SawLive?
    case Return(g) => g in s.gets && s.gets[g].Noted?
    case EndExpired(g, _) => g in s.gets && s.gets[g].SawExpired?
    case Set(key, _, _, _, _, victim) => MustEvict(s.View(), capacity, key) ==> s.policy.MayEvict(victim)
    case Remove(_) => true
  }

  function Bumped(e: Entry, now: int): Entry {
    e.(view := e.view.(accessedAt := now, accessCount := e.view.accessCount + 1))
  }

  function Dropped(s: State, key: string): State { s.(slots := s.slots - {key}, policy := s.policy.OnEvict(key)) }

  ghost function Apply(s: State, capacity: nat, step: Step): State
    requires Enabled(s, capacity, step)
  {
    match step
    case Look(g, key) => s.(gets := s.gets[g := Looked(key, s.slots[key])])
    case Check(g, now) =>
      var key, id := s.gets[g].key, s.gets[g].id;
      s.(gets := s.gets[g := if s.entries[id].view.IsExpired(now) then SawExpired(key, id) else SawLive(key, id)])
    case EndHit(g, now, noted) =>
      var key, id := s.gets[g].key, s.gets[g].id;
      s.(entries := s.entries[id := Bumped(s.entries[id], now)],
         policy := s.policy.OnAccess(key, noted),
         gets := s.gets[g := Noted(key, id)])
    case Return(g) => s.(gets := s.gets - {g})
    case EndExpired(g, now) =>
      var key, ended := s.gets[g].key, s.(gets := s.gets - {g});
      if key in s.slots && s.entries[s.slots[key]].view.IsExpired(now) then Dropped(ended, key) else ended
    case Set(key, value, expiresAt, now, noted, victim) =>
      if key in s.slots then Overwrite(s, key, value, expiresAt, now, noted)
      else
        var room := if MustEvict(s.View(), capacity, key) then Dropped(s, victim) else s;
        Insert(room, key, value, expiresAt, now, noted)
    case Remove(key) => if key in s.slots then Dropped(s, key) else s
  }

  function Overwrite(s: State, key: string, value: Bytes, expiresAt: int, now: int, noted: int): State
    requires key in s.slots && s.slots[key] in s.entries
  {
    var e := s.entries[s.slots[key]];
    var written := e.(view := e.view.(value := value, expiresAt := expiresAt));
    s.(entries := s.entries[s.slots[key] := Bumped(written, now)], policy := s.policy.OnAccess(key, noted))
  }

  function Insert(s: State, key: string, value: Bytes, expiresAt: int, now: int, noted: int): State {
    State(s.entries[s.next := Entry(key, EntryView(value, expiresAt, now, now, 1))], s.slots[key := s.next],
          s.policy.OnInsert(key, expiresAt, noted), s.gets, s.next + 1)
  }

  // ----- every step is a section, or leaves the cache alone -----

  /** Whether the entry that a Get found is still the one under its key. */
  predicate Attached(s: State, g: nat)
    requires g in s.gets
  {
    s.gets[g].key in s.slots && s.slots[s.gets[g].key] == s.gets[g].id
  }

  function SectionOf(s: State, step: Step): Option<Section>
    requires (step.EndHit? || step.EndExpired?) ==> step.g in s.gets
  {
    match step
    case Look(_, _) => None
    case Check(_, _) => None
    case EndHit(g, now, noted) => Some(Touch(s.gets[g].key, Attached(s, g), now, noted))
    case Return(_) => None
    case EndExpired(g, now) => Some(Expire(s.gets[g].key, now))
    case Set(key, value, expiresAt, now, noted, victim) => Some(Put(key, value, expiresAt, now, noted, victim))
    case Remove(key) => Some(Delete(key))
  }

  lemma DropRefines(s: State, key: string)
    requires s.WellFormed()
    ensures Dropped(s, key).WellFormed() && Dropped(s, key).View() == CacheModel.Remove(s.View(), key)
  {
    assert Dropped(s, key).View().entries == s.View().entries - {key};
  }

  lemma InsertRefines(s: State, key: string, value: Bytes, expiresAt: int, now: int, noted: int)
    requires s.WellFormed() && key !in s.slots
    ensures var s' := Insert(s, key, value, expiresAt, now, noted);
            s'.WellFormed() && s'.View() == Stored(s.View(), key, EntryView(value, expiresAt, now, now, 1), noted)
  {
    var s' := Insert(s, key, value, expiresAt, now, noted);
    assert s'.View().entries == s.View().entries[key := EntryView(value, expiresAt, now, now, 1)];
  }

  lemma OverwriteRefines(s: State, key: string, value: Bytes, expiresAt: int, now: int, noted: int)
    requires s.WellFormed() && key in s.slots
    ensures var s' := Overwrite(s, key, value, expiresAt, now, noted);
            s'.WellFormed() && s'.View() == Touched(Overwritten(s.View(), key, value, expiresAt), key, true, now, noted)
  {
    var s' := Overwrite(s, key, value, expiresAt, now, noted);
    var c' := Touched(Overwritten(s.View(), key, value, expiresAt), key, true, now, noted);
    var e := s.entries[s.slots[key]].view;
    var e' := EntryView(value, expiresAt, e.createdAt, now, e.accessCount + 1);
    assert c'.entries == s.View().entries[key := e'];
    assert s'.View().entries == s.View().entries[key := e'];
  }

  lemma EndHitRefines(s: State, capacity: nat, g: nat, now: int, noted: int)
    requires Enabled(s, capacity, EndHit(g, now, noted))
    ensures var s' := Apply(s, capacity, EndHit(g, now, noted));
            s'.WellFormed() && s'.View() == Touched(s.View(), s.gets[g].key, Attached(s, g), now, noted)
  {
    var s' := Apply(s, capacity, EndHit(g, now, noted));
    assert s'.View().entries == Touched(s.View(), s.gets[g].key, Attached(s, g), now, noted).entries;
  }

  lemma InsertingSetRefines(s: State, capacity: nat, step: Step)
    requires Enabled(s, capacity, step) && step.Set? && step.key !in s.slots
    ensures Apply(s, capacity, step).WellFormed()
    ensures Apply(s, capacity, step).View() == CacheModel.Apply(s.View(), capacity, SectionOf(s, step).value)
  {
    var Set(key, value, expiresAt, now, noted, victim) := step;
    var room := if MustEvict(s.View(), capacity, key) then Dropped(s, victim) else s;
    DropRefines(s, victim);
    InsertRefines(room, key, value, expiresAt, now, noted);
  }

  lemma SetRefines(s: State, capacity: nat, step: Step)
    requires Enabled(s, capacity, step) && step.Set?
    ensures Apply(s, capacity, step).WellFormed()
    ensures Apply(s, capacity, step).View() == CacheModel.Apply(s.View(), capacity, SectionOf(s, step).value)
  {
    if step.key in s.slots {
      OverwriteRefines(s, step.key, step.value, step.expiresAt, step.now, step.noted);
    } else {
      InsertingSetRefines(s, capacity, step);
    }
  }

  lemma StepRefines(s: State, capacity: nat, step: Step)
    requires Enabled(s, capacity, step)
    ensures Apply(s, capacity, step).WellFormed()
    ensures var section := SectionOf(s, step);
            && (section.None? ==> Apply(s, capacity, step).View() == s.View())
            && (section.Some? ==>
                  && CacheModel.Enabled(s.View(), capacity, section.value)
                  && Apply(s, capacity, step).View() == CacheModel.Apply(s.View(), capacity, section.value))
  {
    match step
    case EndHit(g, now, noted) => EndHitRefines(s, capacity, g, now, noted);
    case EndExpired(g, _) =>
      DropRefines(s.(gets := s.gets - {g}), s.gets[g].key);
      assert s.(gets := s.gets - {g}).View() == s.View();
    case Set(_, _, _, _, _, _) => SetRefines(s, capacity, step);
    case Remove(key) => DropRefines(s, key);
    case _ =>
  }

  // ----- runs -----

  function Initial(policy: PolicyView): State { State(map[], map[], policy, map[], 0) }

  ghost predicate IsRun(run: seq<State>, capacity: nat, steps: seq<Step>) {
    && |run| == |steps| + 1
    && run[0] == Initial(run[0].policy) && run[0].policy.WellFormed() && run[0].policy.Tracked() == {}
    && forall i :: 0 <= i < |steps| ==> Moves(run, capacity, steps, i)
  }

  ghost predicate Moves(run: seq<State>, capacity: nat, steps: seq<Step>, i: int)
    requires 0 <= i < |steps| && |run| == |steps| + 1
  {
    Enabled(run[i], capacity, steps[i]) && run[i + 1] == Apply(run[i], capacity, steps[i])
  }

  /** The policy tracks exactly the cached keys, and the cache is within its capacity. */
  ghost predicate Sane(s: State, capacity: nat) { s.WellFormed() && InStep(s.View(), capacity) }

  lemma SectionStaysInStep(c: CacheView, c': CacheView, capacity: nat, section: Option<Section>)
    requires capacity >= 1 && InStep(c, capacity) && (section.None? ==> c' == c)
    requires section.Some? ==>
               CacheModel.Enabled(c, capacity, section.value) && c' == CacheModel.Apply(c, capacity, section.value)
    ensures InStep(c', capacity)
  {
    if section.Some? { SectionKeepsInStep(c, capacity, section.value); }
  }

  lemma StepStaysSane(s: State, capacity: nat, step: Step)
    requires capacity >= 1 && Sane(s, capacity) && Enabled(s, capacity, step)
    ensures Sane(Apply(s, capacity, step), capacity)
  {
    StepRefines(s, capacity, step);
    SectionStaysInStep(s.View(), Apply(s, capacity, step).View(), capacity, SectionOf(s, step));
  }

  /** Under every policy and every interleaving of calls, split at every lock, the policy tracks exactly the cached keys
      and the cache is within its capacity. */
  lemma {:induction false} RunStaysSane(run: seq<State>, capacity: nat, steps: seq<Step>, i: nat)
    requires capacity >= 1 && IsRun(run, capacity, steps) && i < |run|
    ensures Sane(run[i], capacity)
  {
    if i > 0 {
      RunStaysSane(run, capacity, steps, i - 1);
      MoveStaysSane(run, capacity, steps, i - 1);
    } else {
      InitialIsSane(run[0].policy, capacity);
    }
  }

  lemma InitialIsSane(policy: PolicyView, capacity: nat)
    requires policy.WellFormed() && policy.Tracked() == {}
    ensures Sane(Initial(policy), capacity)
  {
    assert Initial(policy).View().entries == map[];
  }

  lemma MoveStaysSane(run: seq<State>, capacity: nat, steps: seq<Step>, i: nat)
    requires capacity >= 1 && IsRun(run, capacity, steps) && i < |steps| && Sane(run[i], capacity)
    ensures Sane(run[i + 1], capacity)
  {
    assert Moves(run, capacity, steps, i);
    StepStaysSane(run[i], capacity, steps[i]);
  }

  // ----- what a Get returns -----

  /** The value given by the last Set of `k`. */
  function LastSet(steps: seq<Step>, k: string): Option<Bytes> {
    if steps == [] then None
    else
      var step := steps[|steps| - 1];
      if step.Set? && step.key == k then Some(step.value) else LastSet(steps[..|steps| - 1], k)
  }

  /** Some Set of `k` gave `value`. */
  ghost predicate WasSet(steps: seq<Step>, k: string, value: Bytes) {
    exists j :: 0 <= j < |steps| && steps[j].Set? && steps[j].key == k && steps[j].value == value
  }

  /** Every entry ever made holds a value that some Set of its key gave, and every cached one that of the last. */
  ghost predicate ValuesWereSet(s: State, steps: seq<Step>)
    requires s.WellFormed()
  {
    && (forall id <- s.entries :: WasSet(steps, s.entries[id].key, s.entries[id].view.value))
    && (forall k <- s.slots :: LastSet(steps, k) == Some(s.entries[s.slots[k]].view.value))
  }

  lemma WasSetStays(steps: seq<Step>, step: Step, k: string, value: Bytes)
    requires WasSet(steps, k, value) || (step.Set? && step.key == k && step.value == value)
    ensures WasSet(steps + [step], k, value)
  {
    if WasSet(steps, k, value) {
      var j :| 0 <= j < |steps| && steps[j].Set? && steps[j].key == k && steps[j].value == value;
      assert (steps + [step])[j] == steps[j];
    } else {
      assert (steps + [step])[|steps|] == step;
    }
  }

  /** What a step does to the value of an entry: nothing, unless it is a Set of the entry's key. */
  lemma StepOnValue(s: State, capacity: nat, step: Step, id: nat)
    requires Enabled(s, capacity, step) && id in Apply(s, capacity, step).entries
    ensures var e := Apply(s, capacity, step).entries[id];
            || (id in s.entries && e.key == s.entries[id].key && e.view.value == s.entries[id].view.value)
            || (step.Set? && step.key == e.key && step.value == e.view.value)
  {
  }

  /** What a step does to the value under a key: a Set gives it, and nothing else changes it. */
  lemma StepOnSlot(s: State, capacity: nat, step: Step, k: string)
    requires Enabled(s, capacity, step) && Apply(s, capacity, step).WellFormed() && k in Apply(s, capacity, step).slots
    ensures var s' := Apply(s, capacity, step);
            if step.Set? && step.key == k then s'.entries[s'.slots[k]].view.value == step.value
            else k in s.slots && s'.entries[s'.slots[k]].view.value == s.entries[s.slots[k]].view.value
  {
  }

  lemma StepKeepsValues(s: State, capacity: nat, steps: seq<Step>, step: Step)
    requires Enabled(s, capacity, step) && ValuesWereSet(s, steps)
    ensures Apply(s, capacity, step).WellFormed() && ValuesWereSet(Apply(s, capacity, step), steps + [step])
  {
    var s' := Apply(s, capacity, step);
    StepRefines(s, capacity, step);
    forall id <- s'.entries ensures WasSet(steps + [step], s'.entries[id].key, s'.entries[id].view.value) {
      StepOnValue(s, capacity, step, id);
      WasSetStays(steps, step, s'.entries[id].key, s'.entries[id].view.value);
    }
    forall k <- s'.slots ensures LastSet(steps + [step], k) == Some(s'.entries[s'.slots[k]].view.value) {
      StepOnSlot(s, capacity, step, k);
      LastSetAfter(steps, step, k);
    }
  }

  lemma LastSetAfter(steps: seq<Step>, step: Step, k: string)
    ensures LastSet(steps + [step], k) == if step.Set? && step.key == k then Some(step.value) else LastSet(steps, k)
  {
    assert (steps + [step])[..|steps|] == steps;
  }

  lemma {:induction false} RunKeepsValues(run: seq<State>, capacity: nat, steps: seq<Step>, i: nat)
    requires IsRun(run, capacity, steps) && i <= |steps|
    ensures run[i].WellFormed() && ValuesWereSet(run[i], steps[..i])
  {
    if i > 0 {
      RunKeepsValues(run, capacity, steps, i - 1);
      assert Moves(run, capacity, steps, i - 1);
      StepKeepsValues(run[i - 1], capacity, steps[..i - 1], steps[i - 1]);
      Recency.PrefixOneMore(steps, i);
    }
  }

  /** In every interleaving, a Get that hits returns a value that some Set of its key gave: that of the last Set, if the
      entry it found is still the one under its key when it reads the value. */
  lemma HitReturnsSetValue(run: seq<State>, capacity: nat, steps: seq<Step>, i: nat, g: nat)
    requires IsRun(run, capacity, steps) && i <= |steps| && Enabled(run[i], capacity, Return(g))
    ensures var s, key := run[i], run[i].gets[g].key;
            var value := s.entries[s.gets[g].id].view.value;
            WasSet(steps[..i], key, value) && (Attached(s, g) ==> LastSet(steps[..i], key) == Some(value))
  {
    RunKeepsValues(run, capacity, steps, i);
  }

  // ----- frequencies -----

  /** A Get on `k` ends whose entry is no longer the one under `k`: the access counts on that entry only, but the policy
      notes it for the newer one. */
  predicate EndsLate(s: State, step: Step, k: string) {
    step.EndHit? && step.g in s.gets && s.gets[step.g].key == k && k in s.slots && !Attached(s, step.g)
  }

  /** How many Gets have ended late on `k` since its present entry was inserted. */
  function LateEnds(run: seq<State>, steps: seq<Step>, i: nat, k: string): nat
    requires i <= |steps| < |run|
  {
    if i == 0 || k !in run[i].slots || k !in run[i - 1].slots || run[i - 1].slots[k] != run[i].slots[k] then 0
    else LateEnds(run, steps, i - 1, k) + if EndsLate(run[i - 1], steps[i - 1], k) then 1 else 0
  }

  ghost predicate FrequencyIs(s: State, k: string, late: nat)
    requires s.WellFormed() && k in s.slots
  {
    s.policy.LfuView? && k in s.policy.table && s.policy.table[k].major == s.entries[s.slots[k]].view.accessCount + late
  }

  /** What one step does to the frequency of a key that stays cached. */
  lemma StepKeepsFrequency(s: State, capacity: nat, step: Step, k: string, late: nat)
    requires capacity >= 1 && Sane(s, capacity) && Enabled(s, capacity, step) && k in s.slots && FrequencyIs(s, k, late)
    requires Sane(Apply(s, capacity, step), capacity) && k in Apply(s, capacity, step).slots
    ensures FrequencyIs(Apply(s, capacity, step), k, late + if EndsLate(s, step, k) then 1 else 0)
  {
    var s', section := Apply(s, capacity, step), SectionOf(s, step);
    StepRefines(s, capacity, step);
    assert k in s.View().entries && k in s'.View().entries;
    if section.Some? { SectionOnFrequency(s.View(), capacity, section.value, k); }
  }

  /** A key that becomes cached starts with frequency and access count one. */
  lemma InsertionStartsFrequency(s: State, capacity: nat, step: Step, k: string)
    requires Enabled(s, capacity, step) && s.policy.LfuView? && k !in s.slots
    requires Apply(s, capacity, step).WellFormed() && k in Apply(s, capacity, step).slots
    ensures FrequencyIs(Apply(s, capacity, step), k, 0)
  {
    var s' := Apply(s, capacity, step);
    StepRefines(s, capacity, step);
    assert k !in s.View().entries && k in s'.View().entries;
    InsertionOnFrequency(s.View(), capacity, SectionOf(s, step).value, k);
  }

  /** A step leaves a key that stays cached under the same entry. */
  lemma StepKeepsSlot(s: State, capacity: nat, step: Step, k: string)
    requires Sane(s, capacity) && Enabled(s, capacity, step) && k in s.slots && k in Apply(s, capacity, step).slots
    ensures Apply(s, capacity, step).slots[k] == s.slots[k]
  {
  }

  lemma StepKeepsLfu(s: State, capacity: nat, step: Step)
    requires Enabled(s, capacity, step) && s.policy.LfuView?
    ensures Apply(s, capacity, step).policy.LfuView?
  {
  }

  ghost predicate FrequenciesAre(run: seq<State>, capacity: nat, steps: seq<Step>, i: nat)
    requires i <= |steps| < |run|
  {
    && Sane(run[i], capacity) && run[i].policy.LfuView?
    && forall k <- run[i].slots :: FrequencyIs(run[i], k, LateEnds(run, steps, i, k))
  }

  lemma FrequencyAfter(run: seq<State>, capacity: nat, steps: seq<Step>, i: nat, k: string)
    requires capacity >= 1 && 0 < i <= |steps| && |run| == |steps| + 1 && Moves(run, capacity, steps, i - 1)
    requires FrequenciesAre(run, capacity, steps, i - 1) && Sane(run[i], capacity) && k in run[i].slots
    ensures FrequencyIs(run[i], k, LateEnds(run, steps, i, k))
  {
    var s, step := run[i - 1], steps[i - 1];
    if k in s.slots {
      StepKeepsSlot(s, capacity, step, k);
      StepKeepsFrequency(s, capacity, step, k, LateEnds(run, steps, i - 1, k));
    } else {
      InsertionStartsFrequency(s, capacity, step, k);
    }
  }

  lemma FrequenciesAfter(run: seq<State>, capacity: nat, steps: seq<Step>, i: nat)
    requires capacity >= 1 && IsRun(run, capacity, steps) && 0 < i <= |steps|
    requires FrequenciesAre(run, capacity, steps, i - 1)
    ensures FrequenciesAre(run, capacity, steps, i)
  {
    assert Moves(run, capacity, steps, i - 1);
    StepStaysSane(run[i - 1], capacity, steps[i - 1]);
    StepKeepsLfu(run[i - 1], capacity, steps[i - 1]);
    forall k <- run[i].slots ensures FrequencyIs(run[i], k, LateEnds(run, steps, i, k)) {
      FrequencyAfter(run, capacity, steps, i, k);
    }
  }

  /** In every interleaving, LFU's frequency of a key is its entry's access count plus the Gets that ended late on it
      since that entry was inserted. */
  lemma {:induction false} FrequencyCountsLateEnds(run: seq<State>, capacity: nat, steps: seq<Step>, i: nat)
    requires capacity >= 1 && IsRun(run, capacity, steps) && i <= |steps| && run[0].policy.LfuView?
    ensures FrequenciesAre(run, capacity, steps, i)
  {
    if i > 0 {
      FrequencyCountsLateEnds(run, capacity, steps, i - 1);
      FrequenciesAfter(run, capacity, steps, i);
    } else {
      InitialIsSane(run[0].policy, capacity);
    }
  }

  /** So in every interleaving the frequencies are the access counts if and only if no Get has ended late on a cached
      key since its entry was inserted. */
  lemma {:induction false} FrequenciesMatchIff(run: seq<State>, capacity: nat, steps: seq<Step>, i: nat)
    requires capacity >= 1 && IsRun(run, capacity, steps) && i <= |steps| && run[0].policy.LfuView?
    ensures run[i].WellFormed()
    ensures FrequenciesMatch(run[i].View()) <==> forall k <- run[i].slots :: LateEnds(run, steps, i, k) == 0
  {
    FrequencyCountsLateEnds(run, capacity, steps, i);
    var s := run[i];
    forall k <- s.slots ensures s.View().entries[k].accessCount == s.entries[s.slots[k]].view.accessCount {}
    if FrequenciesMatch(s.View()) {
      forall k <- s.slots ensures LateEnds(run, steps, i, k) == 0 { assert k in s.View().entries; }
    }
  }

  ghost predicate Reachable(s: State, capacity: nat) {
    exists run: seq<State>, steps: seq<Step> :: IsRun(run, capacity, steps) && run[|run| - 1] == s
  }

  lemma ReachableStep(s: State, capacity: nat, step: Step)
    requires Reachable(s, capacity) && Enabled(s, capacity, step)
    ensures Reachable(Apply(s, capacity, step), capacity)
  {
    var run: seq<State>, steps: seq<Step> :| IsRun(run, capacity, steps) && run[|run| - 1] == s;
    var run', steps' := run + [Apply(s, capacity, step)], steps + [step];
    forall i | 0 <= i < |steps'| ensures Moves(run', capacity, steps', i) {
      assert i < |steps| ==> Moves(run, capacity, steps, i);
    }
    assert IsRun(run', capacity, steps') && run'[|run'| - 1] == Apply(s, capacity, step);
  }

  lemma Next(s: State, capacity: nat, step: Step) returns (s': State)
    requires Reachable(s, capacity) && Enabled(s, capacity, step)
    ensures s' == Apply(s, capacity, step) && s'.WellFormed() && Reachable(s', capacity)
  {
    s' := Apply(s, capacity, step);
    StepRefines(s, capacity, step);
    ReachableStep(s, capacity, step);
  }

  /** A cache that holds "a" alone, with one access, under the entry `id`. */
  function Holding(entries: map<nat, Entry>, id: nat, expiresAt: int, now: int, gets: map<nat, Getting>): State {
    State(entries[id := Entry("a", EntryView([], expiresAt, now, now, 1))], map["a" := id],
          LfuView(map["a" := Rank(1, now)]), gets, id + 1)
  }

  lemma Stores(s: State, expiresAt: int, now: int) returns (s': State)
    requires Reachable(s, 1) && s.WellFormed() && s.slots == map[] && s.policy == LfuView(map[])
    ensures Reachable(s', 1) && s'.WellFormed() && s' == Holding(s.entries, s.next, expiresAt, now, s.gets)
  {
    assert s.View().entries == map[];
    s' := Next(s, 1, Set("a", [], expiresAt, now, now, ""));
    assert s'.policy.table == map["a" := Rank(1, now)] && s'.slots == map["a" := s.next];
  }

  lemma IsFoundAndRemoved(s: State) returns (s': State)
    requires Reachable(s, 1) && s.WellFormed() && s == Holding(map[], 0, 10, 1, map[])
    ensures Reachable(s', 1) && s'.WellFormed()
    ensures s' == State(s.entries, map[], LfuView(map[]), map[0 := SawLive("a", 0)], 1)
  {
    s' := Next(s, 1, Look(0, "a"));
    s' := Next(s', 1, Check(0, 2));
    assert s'.gets == map[0 := SawLive("a", 0)];
    s' := Next(s', 1, Remove("a"));
    assert s'.slots == map[] && s'.policy.table == map[];
  }

  /** LFU's frequency is not always the access count: a Get finds "a", "a" is removed and stored anew, and the Get
      ends. */
  lemma LateGetMiscounts() returns (s: State)
    ensures Reachable(s, 1) && s.WellFormed() && s.policy.LfuView? && "a" in s.slots && "a" in s.policy.table
    ensures s.policy.table["a"].major == 2 && s.entries[s.slots["a"]].view.accessCount == 1 && s.gets == map[]
  {
    s := Initial(LfuView(map[]));
    assert IsRun([s], 1, []) && [s][0] == s;
    s := Stores(s, 10, 1);
    s := IsFoundAndRemoved(s);
    s := Stores(s, 20, 3);
    s := Next(s, 1, EndHit(0, 4, 4));
    s := Next(s, 1, Return(0));
    assert s.gets == map[];
  }
}
