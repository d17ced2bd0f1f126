/** What each policy has become after any history of notifications, told from the history of each key alone. */
module PolicyHistory {
  import opened Options
  import opened Recency
  import opened HeapOrder
  import opened PolicyModel

  datatype Note =
    | Accessed(key: string, now: int)
    | Inserted(key: string, now: int, expiresAt: int)
    | Evicted(key: string)

  function Notified(p: PolicyView, n: Note): PolicyView {
    match n
    case Accessed(key, now) => p.OnAccess(key, now)
    case Inserted(key, now, expiresAt) => p.OnInsert(key, expiresAt, now)
    case Evicted(key) => p.OnEvict(key)
  }

  function AfterNotes(p: PolicyView, notes: seq<Note>): PolicyView {
    if notes == [] then p else Notified(AfterNotes(p, notes[..|notes| - 1]), notes[|notes| - 1])
  }

  /** A key since its insertion: accesses including the insertion, the time and position of the last one, and the
      expiry it was inserted with. */
  datatype Usage = Usage(count: nat, at: int, last: nat, expiresAt: int)

  function UsageOf(notes: seq<Note>, k: string): Option<Usage> {
    if notes == [] then None
    else
      var i := |notes| - 1;
      var before := UsageOf(notes[..i], k);
      if notes[i].key != k then before
      else
        match notes[i]
        case Inserted(_, now, expiresAt) => Some(Usage(1, now, i, expiresAt))
        case Accessed(_, now) =>
          if before.None? then None
          else Some(before.value.(count := before.value.count + 1, at := now, last := i))
        case Evicted(_) => None
  }

  /** The cache inserts a key only while the policy does not track it. */
  ghost predicate Legal(notes: seq<Note>) {
    forall i :: 0 <= i < |notes| && notes[i].Inserted? ==> UsageOf(notes[..i], notes[i].key).None?
  }

  /** LFU ranks exactly the keys in use, by how often and when they were last used. */
  ghost predicate RanksUsage(table: map<string, Rank>, notes: seq<Note>) {
    && (forall k :: k in table <==> UsageOf(notes, k).Some?)
    && (forall k <- table :: var u := UsageOf(notes, k).value; table[k] == Rank(u.count, u.at))
  }

  /** TTL-only ranks exactly the keys in use, by the expiry they were inserted with. */
  ghost predicate RanksExpiry(table: map<string, Rank>, notes: seq<Note>) {
    && (forall k :: k in table <==> UsageOf(notes, k).Some?)
    && (forall k <- table :: table[k] == Rank(UsageOf(notes, k).value.expiresAt, 0))
  }

  lemma {:induction false} LfuFollowsHistory(notes: seq<Note>)
    ensures var p := AfterNotes(LfuView(map[]), notes); p.LfuView? && RanksUsage(p.table, notes)
  {
    if notes != [] { LfuFollowsHistory(notes[..|notes| - 1]); }
  }

  lemma {:induction false} TtlFollowsHistory(notes: seq<Note>)
    ensures var p := AfterNotes(TtlView(map[]), notes); p.TtlView? && RanksExpiry(p.table, notes)
  {
    if notes != [] { TtlFollowsHistory(notes[..|notes| - 1]); }
  }

  // ----- LRU -----

  /** A notification as a use or a removal; an access to a key that is not tracked changes nothing, like a removal. */
  ghost function AsOp(notes: seq<Note>, i: nat): Op<string>
    requires i < |notes|
  {
    var k := notes[i].key;
    if notes[i].Inserted? || (notes[i].Accessed? && UsageOf(notes[..i], k).Some?) then Use(k) else Drop(k)
  }

  ghost function AsOps(notes: seq<Note>): seq<Op<string>> {
    seq(|notes|, i requires 0 <= i < |notes| => AsOp(notes, i))
  }

  lemma AsOpsPrefix(notes: seq<Note>)
    requires notes != []
    ensures AsOps(notes)[..|notes| - 1] == AsOps(notes[..|notes| - 1])
  {
    var prefix := notes[..|notes| - 1];
    forall i | 0 <= i < |prefix| ensures AsOp(notes, i) == AsOp(prefix, i) {
      assert notes[..i] == prefix[..i];
    }
  }

  lemma {:induction false} UsageIsLastUse(notes: seq<Note>, k: string, i: int)
    ensures LastUse(AsOps(notes), k, i) <==> UsageOf(notes, k).Some? && UsageOf(notes, k).value.last == i
  {
    if notes != [] {
      var n, prefix := |notes| - 1, notes[..|notes| - 1];
      UsageIsLastUse(prefix, k, i);
      AsOpsPrefix(notes);
      var ops := AsOps(notes);
      assert ops[n] == AsOp(notes, n) && ops[n].key == notes[n].key;
      LastUseOneMore(ops, ops[..n], ops[n]);
    }
  }

  lemma {:induction false} LruFollowsHistory(notes: seq<Note>)
    requires Legal(notes)
    ensures AfterNotes(LruView([]), notes) == LruView(Order(AsOps(notes)))
  {
    if notes != [] {
      LegalPrefix(notes);
      LruFollowsHistory(notes[..|notes| - 1]);
      NoteFollows(notes, Order(AsOps(notes[..|notes| - 1])));
    }
  }

  lemma LegalPrefix(notes: seq<Note>)
    requires Legal(notes) && notes != []
    ensures Legal(notes[..|notes| - 1])
  {
    var prefix := notes[..|notes| - 1];
    forall i | 0 <= i < |prefix| && prefix[i].Inserted? ensures UsageOf(prefix[..i], prefix[i].key).None? {
      assert prefix[..i] == notes[..i] && notes[i] == prefix[i];
    }
  }

  lemma NoteFollows(notes: seq<Note>, before: seq<string>)
    requires Legal(notes) && notes != [] && before == Order(AsOps(notes[..|notes| - 1]))
    ensures Notified(LruView(before), notes[|notes| - 1]) == LruView(Order(AsOps(notes)))
  {
    var n, ops := |notes| - 1, AsOps(notes);
    AsOpsPrefix(notes);
    OrderTracks(notes[..n], notes[n].key);
    assert ops[n] == AsOp(notes, n);
    assert Order(ops) == if ops[n].Use? then Touch(before, ops[n].key) else Without(before, ops[n].key);
    if notes[n].key !in before { WithoutAbsent(before, notes[n].key); }
    assert notes[n].Inserted? ==> UsageOf(notes[..n], notes[n].key).None?;
  }

  lemma OrderTracks(notes: seq<Note>, k: string)
    ensures k in Order(AsOps(notes)) <==> UsageOf(notes, k).Some?
  {
    OrderIsByLastUse(AsOps(notes));
    if UsageOf(notes, k).Some? {
      UsageIsLastUse(notes, k, UsageOf(notes, k).value.last);
    } else {
      forall i ensures !LastUse(AsOps(notes), k, i) { UsageIsLastUse(notes, k, i); }
    }
  }

  // ----- the victim -----

  /** After any history, no tracked key was used longer ago than the LRU victim. */
  lemma LruVictimIsOldest(notes: seq<Note>, victim: string, k: string)
    requires Legal(notes) && AfterNotes(LruView([]), notes).MayEvict(victim) && UsageOf(notes, k).Some?
    ensures UsageOf(notes, victim).Some? && UsageOf(notes, victim).value.last <= UsageOf(notes, k).value.last
  {
    LruFollowsHistory(notes);
    var ops := AsOps(notes);
    var order := Order(ops);
    OrderIsByLastUse(ops);
    OrderTracks(notes, k);
    OrderTracks(notes, victim);
    var a :| 0 <= a < |order| && order[a] == k;
    UsageIsLastUse(notes, k, UsageOf(notes, k).value.last);
    UsageIsLastUse(notes, victim, UsageOf(notes, victim).value.last);
    assert a < |order| - 1 ==> LastUse(ops, order[a], UsageOf(notes, k).value.last);
  }

  /** After any history, no tracked key was used less often than the LFU victim, nor equally often and longer ago. */
  lemma LfuVictimIsLeastUsed(notes: seq<Note>, victim: string, k: string)
    requires AfterNotes(LfuView(map[]), notes).MayEvict(victim) && UsageOf(notes, k).Some?
    ensures UsageOf(notes, victim).Some?
    ensures var u, v := UsageOf(notes, k).value, UsageOf(notes, victim).value;
            v.count < u.count || (v.count == u.count && v.at <= u.at)
  {
    LfuFollowsHistory(notes);
  }

  /** After any history, no tracked key was inserted with an earlier expiry than the TTL-only victim. */
  lemma TtlVictimExpiresFirst(notes: seq<Note>, victim: string, k: string)
    requires AfterNotes(TtlView(map[]), notes).MayEvict(victim) && UsageOf(notes, k).Some?
    ensures UsageOf(notes, victim).Some? && UsageOf(notes, victim).value.expiresAt <= UsageOf(notes, k).value.expiresAt
  {
    TtlFollowsHistory(notes);
  }
}
