/** Cache-aside over a database (`internal/api/middleware.go`) with the three invalidation strategies, split at every
    call to the database and the cache: how stale a hit can be, and when the cache is in sync. */
module Coherence {
  import opened Options

  const TTL := 5 * 60 * 1_000_000_000  // nanoseconds; the same for fills and for write-through

  datatype Strategy = NoInvalidation | WriteThrough | WriteBehind

  type Row = string

  /** One committed write to the database. */
  datatype Commit = Commit(time: int, id: string, row: Row)

  function Current(log: seq<Commit>, id: string): Option<Row> {
    if log == [] then None
    else if log[|log| - 1].id == id then Some(log[|log| - 1].row)
    else Current(log[..|log| - 1], id)
  }

  /** A row that was current at time `at`, after the first `after` commits. */
  datatype Fetch = Fetch(row: Row, at: int, after: nat)

  /** A cached row: what was fetched, the clock reading that its TTL counts from, and the number of commits made when it
      was stored. */
  datatype Cached = Cached(fetch: Fetch, storedAt: int, storedAfter: nat) {
    predicate Live(now: int) { now <= storedAt + TTL }
  }

  /** A request between two of its calls. */
  datatype Request =
    | Reading(id: string)                // missed in the cache
    | Filling(id: string, fetch: Fetch)  // has read the row, is about to cache it
    | Updating(id: string, fetch: Fetch) // has committed the row, is about to invoke the strategy

  datatype State = State(
    now: int,
    log: seq<Commit>,
    cache: map<string, Cached>,
    requests: map<nat, Request>,
    pending: multiset<string>)  // deletions scheduled by write-behind

  function Start(): State { State(0, [], map[], map[], multiset{}) }

  datatype Step =
    | Tick(to: int)
    | Create(id: string, row: Row)
    | ReadMiss(rid: nat, id: string)
    | FetchRow(rid: nat)
    | Fill(rid: nat, reading: int)
    | CommitUpdate(rid: nat, id: string, row: Row)
    | Invalidate(rid: nat, reading: int)
    | RunDeletion(id: string)
    | Evict(id: string)
    | Fail(rid: nat)              // the request ends early, or its cache call fails
    | LoseDeletion(id: string)    // a scheduled deletion fails

  predicate Enabled(s: State, step: Step) {
    match step
    case Tick(to) => s.now <= to
    case Create(id, _) => Current(s.log, id).None?
    case ReadMiss(rid, _) => rid !in s.requests
    case FetchRow(rid) => rid in s.requests && s.requests[rid].Reading?
    case Fill(rid, reading) =>
      rid in s.requests && s.requests[rid].Filling? && s.requests[rid].fetch.at <= reading <= s.now
    case CommitUpdate(rid, id, _) => rid !in s.requests && Current(s.log, id).Some?
    case Invalidate(rid, reading) =>
      rid in s.requests && s.requests[rid].Updating? && s.requests[rid].fetch.at <= reading <= s.now
    case RunDeletion(id) => id in s.pending
    case Evict(_) => true
    case Fail(rid) => rid in s.requests
    case LoseDeletion(id) => id in s.pending
  }

  function Committed(s: State, id: string, row: Row): State { s.(log := s.log + [Commit(s.now, id, row)]) }

  function Ended(s: State, rid: nat): State { s.(requests := s.requests - {rid}) }

  function Stored(s: State, id: string, fetch: Fetch, reading: int): State {
    s.(cache := s.cache[id := Cached(fetch, reading, |s.log|)])
  }

  function Apply(strategy: Strategy, s: State, step: Step): State
    requires Enabled(s, step)
  {
    match step
    case Tick(to) => s.(now := to)
    case Create(id, row) => Committed(s, id, row)
    case ReadMiss(rid, id) => s.(requests := s.requests[rid := Reading(id)])
    case FetchRow(rid) =>
      var id := s.requests[rid].id;
      var row := Current(s.log, id);
      if row.None? then Ended(s, rid)
      else s.(requests := s.requests[rid := Filling(id, Fetch(row.value, s.now, |s.log|))])
    case Fill(rid, reading) => Stored(Ended(s, rid), s.requests[rid].id, s.requests[rid].fetch, reading)
    case CommitUpdate(rid, id, row) =>
      Committed(s, id, row).(requests := s.requests[rid := Updating(id, Fetch(row, s.now, |s.log| + 1))])
    case Invalidate(rid, reading) =>
      var r := s.requests[rid];
      (match strategy
       case NoInvalidation => Ended(s, rid)
       case WriteThrough => Stored(Ended(s, rid), r.id, r.fetch, reading)
       case WriteBehind => Ended(s, rid).(pending := s.pending + multiset{r.id}))
    case RunDeletion(id) => s.(pending := s.pending - multiset{id}, cache := s.cache - {id})
    case Evict(id) => s.(cache := s.cache - {id})
    case Fail(rid) => Ended(s, rid)
    case LoseDeletion(id) => s.(pending := s.pending - multiset{id})
  }

  ghost predicate IsRun(strategy: Strategy, run: seq<State>, steps: seq<Step>) {
    && |run| == |steps| + 1 && run[0] == Start()
    && forall k :: 0 <= k < |steps| ==> Moves(strategy, run, steps, k)
  }

  ghost predicate Moves(strategy: Strategy, run: seq<State>, steps: seq<Step>, k: int)
    requires 0 <= k < |steps| && |run| == |steps| + 1
  {
    Enabled(run[k], steps[k]) && run[k + 1] == Apply(strategy, run[k], steps[k])
  }

  // ----- every hit is a row the database held -----

  /** At time `f.at` the database held `f.row` for `id`. */
  ghost predicate Held(log: seq<Commit>, id: string, f: Fetch) {
    && f.after <= |log| && Current(log[..f.after], id) == Some(f.row)
    && (forall i :: 0 <= i < f.after ==> log[i].time <= f.at)
    && (forall i :: f.after <= i < |log| ==> f.at <= log[i].time)
  }

  ghost predicate Genuine(s: State) {
    && (forall i :: 0 <= i < |s.log| ==> s.log[i].time <= s.now)
    && (forall rid <- s.requests :: !s.requests[rid].Reading? ==>
          Held(s.log, s.requests[rid].id, s.requests[rid].fetch) && s.requests[rid].fetch.at <= s.now)
    && (forall id <- s.cache ::
          Held(s.log, id, s.cache[id].fetch) && s.cache[id].fetch.at <= s.cache[id].storedAt <= s.now)
  }

  lemma HeldStays(log: seq<Commit>, c: Commit, id: string, f: Fetch)
    requires Held(log, id, f) && f.at <= c.time
    ensures Held(log + [c], id, f)
  {
    assert (log + [c])[..f.after] == log[..f.after];
  }

  lemma CommitKeepsGenuine(s: State, id: string, row: Row)
    requires Genuine(s)
    ensures Genuine(Committed(s, id, row)) && Held(Committed(s, id, row).log, id, Fetch(row, s.now, |s.log| + 1))
  {
    var c := Commit(s.now, id, row);
    var log := s.log + [c];
    forall rid | rid in s.requests && !s.requests[rid].Reading?
      ensures Held(log, s.requests[rid].id, s.requests[rid].fetch)
    {
      HeldStays(s.log, c, s.requests[rid].id, s.requests[rid].fetch);
    }
    forall x <- s.cache ensures Held(log, x, s.cache[x].fetch) { HeldStays(s.log, c, x, s.cache[x].fetch); }
    assert log[..|s.log| + 1] == log;
  }

  lemma StepKeepsGenuine(strategy: Strategy, s: State, step: Step)
    requires Genuine(s) && Enabled(s, step)
    ensures Genuine(Apply(strategy, s, step))
  {
    match step
    case Create(id, row) => CommitKeepsGenuine(s, id, row);
    case CommitUpdate(rid, id, row) => CommitKeepsGenuine(s, id, row);
    case FetchRow(rid) => assert s.log[..|s.log|] == s.log;
    case Fill(rid, reading) => StoreKeepsGenuine(s, rid, reading);
    case Invalidate(rid, reading) => StoreKeepsGenuine(s, rid, reading);
    case _ =>
  }

  lemma StoreKeepsGenuine(s: State, rid: nat, reading: int)
    requires Genuine(s) && rid in s.requests && !s.requests[rid].Reading?
    requires s.requests[rid].fetch.at <= reading <= s.now
    ensures Genuine(Ended(s, rid)) && Genuine(Stored(Ended(s, rid), s.requests[rid].id, s.requests[rid].fetch, reading))
  {
  }

  lemma {:induction false} RunKeepsGenuine(strategy: Strategy, run: seq<State>, steps: seq<Step>, k: nat)
    requires IsRun(strategy, run, steps) && k < |run|
    ensures Genuine(run[k])
  {
    if k > 0 {
      RunKeepsGenuine(strategy, run, steps, k - 1);
      assert Moves(strategy, run, steps, k - 1);
      StepKeepsGenuine(strategy, run[k - 1], steps[k - 1]);
    }
  }

  /** Under every strategy, any interleaving and any failures: a hit returns a row that the database held at some time,
      at most five minutes earlier plus the time the request that cached it took in between. */
  lemma HitIsRecentlyHeld(strategy: Strategy, run: seq<State>, steps: seq<Step>, k: nat, id: string)
    requires IsRun(strategy, run, steps) && k < |run| && id in run[k].cache && run[k].cache[id].Live(run[k].now)
    ensures var s, c := run[k], run[k].cache[id];
            && Held(s.log, id, c.fetch) && 0 <= c.storedAt - c.fetch.at
            && s.now - c.fetch.at <= 300_000_000_000 + (c.storedAt - c.fetch.at)
  {
    RunKeepsGenuine(strategy, run, steps, k);
  }

  // ----- in sync while requests for one product do not overlap -----

  /** No other request for the same product is in flight when a request for it starts, and no cache call fails. */
  ghost predicate Orderly(s: State, step: Step) {
    match step
    case ReadMiss(_, id) => Idle(s, id)
    case CommitUpdate(_, id, _) => Idle(s, id)
    case _ => Succeeds(s, step)
  }

  /** No cache call of an update fails, and no scheduled deletion. */
  ghost predicate Succeeds(s: State, step: Step) {
    match step
    case Fail(rid) => rid in s.requests ==> !s.requests[rid].Updating?
    case LoseDeletion(_) => false
    case _ => true
  }

  ghost predicate Idle(s: State, id: string) { forall rid <- s.requests :: s.requests[rid].id != id }

  /** No update of `id` stands between its commit and its invalidation. */
  ghost predicate Settled(s: State, id: string) {
    forall rid <- s.requests :: s.requests[rid].id == id ==> !s.requests[rid].Updating?
  }

  ghost predicate UpToDate(s: State, id: string) { id in s.cache ==> Current(s.log, id) == Some(s.cache[id].fetch.row) }

  ghost predicate InSync(strategy: Strategy, s: State) {
    && (forall a <- s.requests, b <- s.requests :: s.requests[a].id == s.requests[b].id ==> a == b)
    && (forall rid <- s.requests :: !s.requests[rid].Reading? ==>
          Current(s.log, s.requests[rid].id) == Some(s.requests[rid].fetch.row))
    && (forall id <- s.cache :: Settled(s, id) ==>
          (strategy == WriteThrough || (strategy == WriteBehind && id !in s.pending)) ==> UpToDate(s, id))
    && (forall id <- s.cache :: Current(s.log, id).Some?)
  }

  lemma CurrentAfter(log: seq<Commit>, c: Commit, id: string)
    ensures Current(log + [c], id) == if c.id == id then Some(c.row) else Current(log, id)
  {
    assert (log + [c])[..|log|] == log;
  }

  lemma CreateKeepsInSync(strategy: Strategy, s: State, id: string, row: Row)
    requires InSync(strategy, s) && Current(s.log, id).None?
    ensures InSync(strategy, Committed(s, id, row))
  {
    forall x ensures Current(Committed(s, id, row).log, x) == if x == id then Some(row) else Current(s.log, x) {
      CurrentAfter(s.log, Commit(s.now, id, row), x);
    }
  }

  lemma UpdateKeepsInSync(strategy: Strategy, s: State, rid: nat, id: string, row: Row)
    requires InSync(strategy, s) && Enabled(s, CommitUpdate(rid, id, row)) && Idle(s, id)
    ensures InSync(strategy, Apply(strategy, s, CommitUpdate(rid, id, row)))
  {
    var s' := Apply(strategy, s, CommitUpdate(rid, id, row));
    forall x ensures Current(s'.log, x) == if x == id then Some(row) else Current(s.log, x) {
      CurrentAfter(s.log, Commit(s.now, id, row), x);
    }
    assert !Settled(s', id) by { assert rid in s'.requests; }
    forall x | x in s'.cache && x != id && Settled(s', x) ensures Settled(s, x) {
      forall q <- s.requests ensures s.requests[q].id == x ==> !s.requests[q].Updating? {
        assert s'.requests[q] == s.requests[q];
      }
    }
  }

  /** Ending a request that is not an update settles nothing that was unsettled. */
  lemma EndKeepsInSync(strategy: Strategy, s: State, rid: nat)
    requires InSync(strategy, s) && rid in s.requests && !s.requests[rid].Updating?
    ensures InSync(strategy, Ended(s, rid))
  {
    var s' := Ended(s, rid);
    forall x | x in s'.cache && Settled(s', x) ensures Settled(s, x) {
      forall q <- s.requests ensures s.requests[q].id == x ==> !s.requests[q].Updating? {
        if q != rid { assert s'.requests[q] == s.requests[q]; }
      }
    }
  }

  lemma InvalidateKeepsInSync(strategy: Strategy, s: State, rid: nat, reading: int)
    requires InSync(strategy, s) && Enabled(s, Invalidate(rid, reading))
    ensures InSync(strategy, Apply(strategy, s, Invalidate(rid, reading)))
  {
    var s', id := Apply(strategy, s, Invalidate(rid, reading)), s.requests[rid].id;
    assert s'.log == s.log;
    forall x | x in s'.cache && x != id && Settled(s', x) ensures Settled(s, x) {
      forall q <- s.requests ensures s.requests[q].id == x ==> !s.requests[q].Updating? {
        if q != rid { assert s'.requests[q] == s.requests[q]; }
      }
    }
  }

  lemma FetchKeepsInSync(strategy: Strategy, s: State, rid: nat)
    requires InSync(strategy, s) && Enabled(s, FetchRow(rid))
    ensures InSync(strategy, Apply(strategy, s, FetchRow(rid)))
  {
    var s' := Apply(strategy, s, FetchRow(rid));
    if Current(s.log, s.requests[rid].id).None? {
      EndKeepsInSync(strategy, s, rid);
    } else {
      forall x | x in s'.cache && Settled(s', x) ensures Settled(s, x) {
        forall q <- s.requests ensures s.requests[q].id == x ==> !s.requests[q].Updating? {
          if q != rid { assert s'.requests[q] == s.requests[q]; }
        }
      }
    }
  }

  lemma MissKeepsInSync(strategy: Strategy, s: State, rid: nat, id: string)
    requires InSync(strategy, s) && Enabled(s, ReadMiss(rid, id)) && Idle(s, id)
    ensures InSync(strategy, Apply(strategy, s, ReadMiss(rid, id)))
  {
    var s' := Apply(strategy, s, ReadMiss(rid, id));
    forall x | x in s'.cache && Settled(s', x) ensures Settled(s, x) {
      forall q <- s.requests ensures s.requests[q].id == x ==> !s.requests[q].Updating? {
        assert s'.requests[q] == s.requests[q];
      }
    }
  }

  lemma FillKeepsInSync(strategy: Strategy, s: State, rid: nat, reading: int)
    requires InSync(strategy, s) && Enabled(s, Fill(rid, reading))
    ensures InSync(strategy, Apply(strategy, s, Fill(rid, reading)))
  {
    EndKeepsInSync(strategy, s, rid);
    var s' := Apply(strategy, s, Fill(rid, reading));
    assert forall x :: Settled(s', x) <==> Settled(Ended(s, rid), x);
  }

  lemma DropKeepsInSync(strategy: Strategy, s: State, s': State, id: string)
    requires InSync(strategy, s) && s'.log == s.log && s'.requests == s.requests && s'.cache == s.cache - {id}
    requires forall x :: x != id && x in s.pending ==> x in s'.pending
    ensures InSync(strategy, s')
  {
    assert forall x :: Settled(s', x) <==> Settled(s, x);
  }

  lemma StepKeepsInSync(strategy: Strategy, s: State, step: Step)
    requires InSync(strategy, s) && Enabled(s, step) && Orderly(s, step)
    ensures InSync(strategy, Apply(strategy, s, step))
  {
    match step
    case Create(id, row) => CreateKeepsInSync(strategy, s, id, row);
    case CommitUpdate(rid, id, row) => UpdateKeepsInSync(strategy, s, rid, id, row);
    case ReadMiss(rid, id) => MissKeepsInSync(strategy, s, rid, id);
    case FetchRow(rid) => FetchKeepsInSync(strategy, s, rid);
    case Fill(rid, reading) => FillKeepsInSync(strategy, s, rid, reading);
    case RunDeletion(id) => DropKeepsInSync(strategy, s, Apply(strategy, s, step), id);
    case Evict(id) => DropKeepsInSync(strategy, s, Apply(strategy, s, step), id);
    case Fail(rid) => EndKeepsInSync(strategy, s, rid);
    case Invalidate(rid, reading) => InvalidateKeepsInSync(strategy, s, rid, reading);
    case _ =>
  }

  ghost predicate OrderlyRun(run: seq<State>, steps: seq<Step>)
    requires |run| > |steps|
  {
    forall k {:trigger steps[k]} :: 0 <= k < |steps| ==> Orderly(run[k], steps[k])
  }

  lemma {:induction false} OrderlyRunKeepsInSync(strategy: Strategy, run: seq<State>, steps: seq<Step>, k: nat)
    requires IsRun(strategy, run, steps) && k < |run|
    requires OrderlyRun(run, steps)
    ensures InSync(strategy, run[k])
  {
    if k > 0 {
      OrderlyRunKeepsInSync(strategy, run, steps, k - 1);
      assert Moves(strategy, run, steps, k - 1) && Orderly(run[k - 1], steps[k - 1]);
      StepKeepsInSync(strategy, run[k - 1], steps[k - 1]);
    }
  }

  /** While requests for one product do not overlap (requests for others may), a cached row is the database's row
      whenever no update of it is unfinished: always under write-through, and under write-behind whenever no deletion of
      it is pending, through any number of pending deletions, evictions and aborted reads. */
  lemma CachedRowIsCurrent(strategy: Strategy, run: seq<State>, steps: seq<Step>, k: nat, id: string)
    requires IsRun(strategy, run, steps) && k < |run|
    requires OrderlyRun(run, steps)
    requires id in run[k].cache && Settled(run[k], id)
    requires strategy == WriteThrough || (strategy == WriteBehind && id !in run[k].pending)
    ensures Current(run[k].log, id) == Some(run[k].cache[id].fetch.row)
  {
    OrderlyRunKeepsInSync(strategy, run, steps, k);
  }

  // ----- and exactly how far beyond that -----

  lemma {:induction false} CurrentSplits(log: seq<Commit>, n: nat, id: string)
    requires n <= |log|
    ensures Current(log, id) == if Current(log[n..], id).Some? then Current(log[n..], id) else Current(log[..n], id)
  {
    if n == |log| {
      assert log[..n] == log;
    } else {
      var rest, last := log[..|log| - 1], log[|log| - 1];
      CurrentSplits(rest, n, id);
      assert log[n..][..|log[n..]| - 1] == rest[n..] && rest[..n] == log[..n];
    }
  }

  /** The last commit of `id`, among those after the row was fetched and up to the first `upto`, wrote another row. */
  ghost predicate Overtaken(log: seq<Commit>, id: string, f: Fetch, upto: nat)
    requires f.after <= upto <= |log|
  {
    var last := Current(log[f.after..upto], id);
    last.Some? && last != Some(f.row)
  }

  lemma CurrentIffNotOvertaken(log: seq<Commit>, id: string, f: Fetch)
    requires Held(log, id, f)
    ensures Current(log, id) == Some(f.row) <==> !Overtaken(log, id, f, |log|)
  {
    CurrentSplits(log, f.after, id);
    assert log[f.after..|log|] == log[f.after..];
  }

  /** In every run, a read leaves its product in sync if and only if the last update of it since the read fetched its
      row, if any, wrote that same row. */
  lemma FillIsUpToDateIff(strategy: Strategy, run: seq<State>, steps: seq<Step>, k: nat, rid: nat, reading: int)
    requires IsRun(strategy, run, steps) && k < |run| && Enabled(run[k], Fill(rid, reading))
    ensures var s, r := run[k], run[k].requests[rid];
            && r.fetch.after <= |s.log|
            && (UpToDate(Apply(strategy, s, Fill(rid, reading)), r.id) <==> !Overtaken(s.log, r.id, r.fetch, |s.log|))
  {
    RunKeepsGenuine(strategy, run, steps, k);
    CurrentIffNotOvertaken(run[k].log, run[k].requests[rid].id, run[k].requests[rid].fetch);
  }

  /** In every run, an update whose cache call fails leaves its product in sync if and only if it is not cached, or the
      last update of it since the cached row was fetched, the failed one included, wrote that same row. */
  lemma FailedUpdateIsUpToDateIff(strategy: Strategy, run: seq<State>, steps: seq<Step>, k: nat, rid: nat)
    requires IsRun(strategy, run, steps) && k < |run|
    requires Enabled(run[k], Fail(rid)) && run[k].requests[rid].Updating?
    ensures var s, id := run[k], run[k].requests[rid].id;
            && (id in s.cache ==> s.cache[id].fetch.after <= |s.log|)
            && (UpToDate(Apply(strategy, s, Fail(rid)), id) <==>
                  id in s.cache ==> !Overtaken(s.log, id, s.cache[id].fetch, |s.log|))
  {
    RunKeepsGenuine(strategy, run, steps, k);
    var s, id := run[k], run[k].requests[rid].id;
    if id in s.cache { CurrentIffNotOvertaken(s.log, id, s.cache[id].fetch); }
  }

  ghost predicate FailureFree(run: seq<State>, steps: seq<Step>)
    requires |run| > |steps|
  {
    forall k {:trigger steps[k]} :: 0 <= k < |steps| ==> Succeeds(run[k], steps[k])
  }

  /** The strategy has yet to act on an update of `id`. */
  ghost predicate Unfinished(strategy: Strategy, s: State, id: string) {
    !Settled(s, id) || (strategy == WriteBehind && id in s.pending)
  }

  /** A product updated since its row was stored has an unfinished update. */
  ghost predicate UpdatesAreSeen(strategy: Strategy, s: State) {
    forall id <- s.cache ::
      && s.cache[id].fetch.after <= s.cache[id].storedAfter <= |s.log|
      && (Current(s.log[s.cache[id].storedAfter..], id).Some? ==> Unfinished(strategy, s, id))
  }

  lemma CommitIsSeen(strategy: Strategy, s: State, s': State, id: string, row: Row)
    requires UpdatesAreSeen(strategy, s) && s'.log == s.log + [Commit(s.now, id, row)] && s'.cache == s.cache
    requires forall x :: x != id && Unfinished(strategy, s, x) ==> Unfinished(strategy, s', x)
    requires id in s.cache ==> Unfinished(strategy, s', id)
    ensures UpdatesAreSeen(strategy, s')
  {
    forall x <- s'.cache ensures Current(s'.log[s.cache[x].storedAfter..], x).Some? ==> Unfinished(strategy, s', x) {
      var n := s.cache[x].storedAfter;
      assert s'.log[n..] == s.log[n..] + [Commit(s.now, id, row)];
      CurrentAfter(s.log[n..], Commit(s.now, id, row), x);
    }
  }

  /** A step that commits nothing and either keeps a product's cached row and its unfinished updates, or stores or drops
      the row. */
  lemma QuietStepIsSeen(strategy: Strategy, s: State, s': State)
    requires UpdatesAreSeen(strategy, s) && s'.log == s.log
    requires forall x <- s'.cache ::
      || (x in s.cache && s'.cache[x] == s.cache[x] && (Unfinished(strategy, s, x) ==> Unfinished(strategy, s', x)))
      || s'.cache[x].fetch.after <= s'.cache[x].storedAfter == |s.log|
    ensures UpdatesAreSeen(strategy, s')
  {
    assert s.log[|s.log|..] == [];
  }

  lemma EndKeepsUnfinished(strategy: Strategy, s: State, rid: nat, x: string)
    requires rid in s.requests && Unfinished(strategy, s, x)
    requires s.requests[rid].Updating? ==> s.requests[rid].id != x
    ensures Unfinished(strategy, Ended(s, rid), x)
  {
    if !Settled(s, x) {
      var q :| q in s.requests && s.requests[q].id == x && s.requests[q].Updating?;
      assert Ended(s, rid).requests[q] == s.requests[q];
    }
  }

  lemma CreateIsSeen(strategy: Strategy, s: State, id: string, row: Row)
    requires Genuine(s) && UpdatesAreSeen(strategy, s) && Current(s.log, id).None?
    ensures UpdatesAreSeen(strategy, Committed(s, id, row))
  {
    if id in s.cache { CurrentSplits(s.log, s.cache[id].fetch.after, id); }
    CommitIsSeen(strategy, s, Committed(s, id, row), id, row);
  }

  lemma UpdateIsSeen(strategy: Strategy, s: State, rid: nat, id: string, row: Row)
    requires UpdatesAreSeen(strategy, s) && Enabled(s, CommitUpdate(rid, id, row))
    ensures UpdatesAreSeen(strategy, Apply(strategy, s, CommitUpdate(rid, id, row)))
  {
    var s' := Apply(strategy, s, CommitUpdate(rid, id, row));
    assert rid in s'.requests && s'.requests[rid].Updating? && s'.requests[rid].id == id;
    forall x | x != id && Unfinished(strategy, s, x) ensures Unfinished(strategy, s', x) {
      if !Settled(s, x) {
        var q :| q in s.requests && s.requests[q].id == x && s.requests[q].Updating?;
        assert s'.requests[q] == s.requests[q];
      }
    }
    CommitIsSeen(strategy, s, s', id, row);
  }

  /** What a request that is not an update does keeps every unfinished update. */
  lemma ReadIsSeen(strategy: Strategy, s: State, step: Step)
    requires Genuine(s) && UpdatesAreSeen(strategy, s) && Enabled(s, step)
    requires step.ReadMiss? || step.FetchRow? || step.Fill?
    ensures UpdatesAreSeen(strategy, Apply(strategy, s, step))
  {
    var s' := Apply(strategy, s, step);
    forall x | Unfinished(strategy, s, x) ensures Unfinished(strategy, s', x) {
      if !Settled(s, x) {
        var q :| q in s.requests && s.requests[q].id == x && s.requests[q].Updating?;
        assert s'.requests[q] == s.requests[q];
      }
    }
    QuietStepIsSeen(strategy, s, s');
  }

  lemma InvalidateIsSeen(strategy: Strategy, s: State, rid: nat, reading: int)
    requires strategy != NoInvalidation && Genuine(s) && UpdatesAreSeen(strategy, s)
    requires Enabled(s, Invalidate(rid, reading))
    ensures UpdatesAreSeen(strategy, Apply(strategy, s, Invalidate(rid, reading)))
  {
    var s' := Apply(strategy, s, Invalidate(rid, reading));
    forall x | x != s.requests[rid].id && Unfinished(strategy, s, x) ensures Unfinished(strategy, s', x) {
      EndKeepsUnfinished(strategy, s, rid, x);
      assert Settled(s', x) <==> Settled(Ended(s, rid), x);
    }
    QuietStepIsSeen(strategy, s, s');
  }

  lemma FailIsSeen(strategy: Strategy, s: State, rid: nat)
    requires UpdatesAreSeen(strategy, s) && rid in s.requests && !s.requests[rid].Updating?
    ensures UpdatesAreSeen(strategy, Ended(s, rid))
  {
    forall x | Unfinished(strategy, s, x) ensures Unfinished(strategy, Ended(s, rid), x) {
      EndKeepsUnfinished(strategy, s, rid, x);
    }
    QuietStepIsSeen(strategy, s, Ended(s, rid));
  }

  lemma StepIsSeen(strategy: Strategy, s: State, step: Step)
    requires strategy != NoInvalidation && Genuine(s) && UpdatesAreSeen(strategy, s)
    requires Enabled(s, step) && Succeeds(s, step)
    ensures UpdatesAreSeen(strategy, Apply(strategy, s, step))
  {
    match step
    case Create(id, row) => CreateIsSeen(strategy, s, id, row);
    case CommitUpdate(rid, id, row) => UpdateIsSeen(strategy, s, rid, id, row);
    case Invalidate(rid, reading) => InvalidateIsSeen(strategy, s, rid, reading);
    case Fail(rid) => FailIsSeen(strategy, s, rid);
    case ReadMiss(_, _) => ReadIsSeen(strategy, s, step);
    case FetchRow(_) => ReadIsSeen(strategy, s, step);
    case Fill(_, _) => ReadIsSeen(strategy, s, step);
    case Tick(_) => QuietStepIsSeen(strategy, s, Apply(strategy, s, step));
    case RunDeletion(_) => QuietStepIsSeen(strategy, s, Apply(strategy, s, step));
    case Evict(_) => QuietStepIsSeen(strategy, s, Apply(strategy, s, step));
    case LoseDeletion(_) =>
  }

  lemma {:induction false} RunSeesUpdates(strategy: Strategy, run: seq<State>, steps: seq<Step>, k: nat)
    requires strategy != NoInvalidation && IsRun(strategy, run, steps) && k < |run| && FailureFree(run, steps)
    ensures UpdatesAreSeen(strategy, run[k])
  {
    if k > 0 {
      RunSeesUpdates(strategy, run, steps, k - 1);
      RunKeepsGenuine(strategy, run, steps, k - 1);
      assert Moves(strategy, run, steps, k - 1) && Succeeds(run[k - 1], steps[k - 1]);
      StepIsSeen(strategy, run[k - 1], steps[k - 1]);
    }
  }

  /** With any overlap of requests but no failed cache call, a cached row is the database's if and only if the request
      that stored it was not overtaken: the last update of the product committed while that request was under way, from
      its fetch or commit to its store, if any, wrote the same row. */
  lemma CachedRowIsCurrentIff(strategy: Strategy, run: seq<State>, steps: seq<Step>, k: nat, id: string)
    requires IsRun(strategy, run, steps) && k < |run| && FailureFree(run, steps)
    requires id in run[k].cache && Settled(run[k], id)
    requires strategy == WriteThrough || (strategy == WriteBehind && id !in run[k].pending)
    ensures var s, c := run[k], run[k].cache[id];
            && c.fetch.after <= c.storedAfter <= |s.log|
            && (Current(s.log, id) == Some(c.fetch.row) <==> !Overtaken(s.log, id, c.fetch, c.storedAfter))
  {
    var s, c := run[k], run[k].cache[id];
    RunSeesUpdates(strategy, run, steps, k);
    RunKeepsGenuine(strategy, run, steps, k);
    assert Current(s.log[c.storedAfter..], id).None?;
    CurrentSplits(s.log, c.storedAfter, id);
    CurrentSplits(s.log[..c.storedAfter], c.fetch.after, id);
    assert s.log[..c.storedAfter][c.fetch.after..] == s.log[c.fetch.after..c.storedAfter];
    assert s.log[..c.storedAfter][..c.fetch.after] == s.log[..c.fetch.after];
  }

  ghost predicate Reachable(strategy: Strategy, s: State) {
    exists run: seq<State>, steps: seq<Step> :: IsRun(strategy, run, steps) && run[|run| - 1] == s
  }

  lemma ReachableStep(strategy: Strategy, s: State, step: Step)
    requires Reachable(strategy, s) && Enabled(s, step)
    ensures Reachable(strategy, Apply(strategy, s, step))
  {
    var run: seq<State>, steps: seq<Step> :| IsRun(strategy, run, steps) && run[|run| - 1] == s;
    var run', steps' := run + [Apply(strategy, s, step)], steps + [step];
    forall k | 0 <= k < |steps'| ensures Moves(strategy, run', steps', k) {
      assert k < |steps| ==> Moves(strategy, run, steps, k);
    }
    assert IsRun(strategy, run', steps') && run'[|run'| - 1] == Apply(strategy, s, step);
  }

  /** Overlapping requests break write-through: a read that fetched before an update and fills after it leaves a live
      stale row behind, with no request in flight. */
  lemma OverlapBreaksWriteThrough(id: string) returns (s: State)
    ensures Reachable(WriteThrough, s) && s.requests == map[] && id in s.cache && s.cache[id].Live(s.now)
    ensures !UpToDate(s, id)
  {
    s := Start();
    assert IsRun(WriteThrough, [s], []) && [s][0] == s;
    ReachableStep(WriteThrough, s, Create(id, "old"));
    s := Apply(WriteThrough, s, Create(id, "old"));
    ReachableStep(WriteThrough, s, ReadMiss(1, id));
    s := Apply(WriteThrough, s, ReadMiss(1, id));
    ReachableStep(WriteThrough, s, FetchRow(1));
    s := Apply(WriteThrough, s, FetchRow(1));
    ReachableStep(WriteThrough, s, CommitUpdate(2, id, "new"));
    s := Apply(WriteThrough, s, CommitUpdate(2, id, "new"));
    ReachableStep(WriteThrough, s, Invalidate(2, 0));
    s := Apply(WriteThrough, s, Invalidate(2, 0));
    ReachableStep(WriteThrough, s, Fill(1, 0));
    s := Apply(WriteThrough, s, Fill(1, 0));
    assert |"old"| == 3 && "old"[0] != "new"[0];
  }
}
