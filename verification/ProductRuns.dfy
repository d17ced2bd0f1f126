/** Any sequence of reads, updates and due deletions served by the product object: what each read is answered with, and
    how old it can be. */
module ProductRuns {
  import opened Options
  import opened CacheModel
  import opened Coherence
  import opened CacheAside

  /** What reaches the products: reads, updates, and the scheduled deletions whose time has come.  Each carries the
      clock readings that it takes. */
  datatype Event =
    | ReadEvent(id: string, now: int, later: int, noted: int, stored: int, storeNoted: int)
    | UpdateEvent(id: string, row: Row, now: int, noted: int)
    | DeletionEvent(id: string)

  /** The reading at which an event caches its product, if it does. */
  function StoringTime(e: Event): int {
    match e
    case ReadEvent(_, _, _, _, stored, _) => stored
    case UpdateEvent(_, _, now, _) => now
    case DeletionEvent(_) => 0
  }

  /** The database and the scheduled deletions, whatever the cache does. */
  datatype Storage = Storage(db: map<string, Row>, pending: multiset<string>) {
    function After(strategy: Strategy, e: Event): Storage {
      match e
      case ReadEvent(_, _, _, _, _, _) => this
      case UpdateEvent(id, row, _, _) =>
        if id !in db then this
        else Storage(db[id := row], if strategy == WriteBehind then pending + multiset{id} else pending)
      case DeletionEvent(id) => Storage(db, pending - multiset{id})
    }

    /** What a read may answer: a row exactly if the product exists, and a stale one only where none is promised. */
    ghost predicate MayAnswer(strategy: Strategy, e: Event, row: Option<Row>) {
      e.ReadEvent? ==>
        && (row.Some? <==> e.id in db)
        && (row.Some? && Promised(strategy, pending, e.id) ==> row == Some(db[e.id]))
    }
  }

  function AfterAll(strategy: Strategy, store: Storage, events: seq<Event>): Storage {
    if events == [] then store
    else AfterAll(strategy, store, events[..|events| - 1]).After(strategy, events[|events| - 1])
  }

  // ----- what one event does -----

  /** The event caches at most its own product, as the database then has it, for five minutes. */
  ghost predicate CachesAtMost(before: map<string, EntryView>, after: map<string, EntryView>, e: Event,
                               db: map<string, Row>, decode: Bytes -> Option<Row>)
  {
    || NothingNew(before, after)
    || (&& !e.DeletionEvent? && e.id in db && Key(e.id) in after && NothingNew(before, after - {Key(e.id)})
        && decode(after[Key(e.id)].value) == Some(db[e.id])
        && after[Key(e.id)].expiresAt == Deadline(StoringTime(e), TTL))
  }

  /** A read is answered with the database's row, or with a row that is cached and has not expired. */
  ghost predicate AnsweredFrom(entries: map<string, EntryView>, e: Event, db: map<string, Row>,
                               decode: Bytes -> Option<Row>, row: Option<Row>)
  {
    e.ReadEvent? && row.Some? ==>
      || (e.id in db && row == Some(db[e.id]))
      || (Key(e.id) in entries && decode(entries[Key(e.id)].value) == row && !entries[Key(e.id)].IsExpired(e.now))
  }

  // ----- what all events do -----

  /** Each read among the first events was answered from the store that the events before it left. */
  ghost predicate Answered(strategy: Strategy, store: Storage, events: seq<Event>, rows: seq<Option<Row>>) {
    |rows| <= |events| && forall i :: 0 <= i < |rows| ==> AnsweredAt(strategy, store, events, rows[i], i)
  }

  ghost predicate AnsweredAt(strategy: Strategy, store: Storage, events: seq<Event>, row: Option<Row>, i: int)
    requires 0 <= i < |events|
  {
    AfterAll(strategy, store, events[..i]).MayAnswer(strategy, events[i], row)
  }

  /** After event `j`, which is about the product, the database had this row. */
  ghost predicate HeldAt(strategy: Strategy, store: Storage, events: seq<Event>, j: int, id: string, row: Row)
    requires 0 <= j < |events|
  {
    var db := AfterAll(strategy, store, events[..j + 1]).db;
    events[j].id == id && !events[j].DeletionEvent? && id in db && db[id] == row
  }

  /** Every row answered is the database's at that event, or at an earlier one at which it was cached at most five
      minutes before. */
  ghost predicate Recent(strategy: Strategy, store: Storage, events: seq<Event>, rows: seq<Option<Row>>) {
    |rows| <= |events| && forall i :: 0 <= i < |rows| ==> RecentAt(strategy, store, events, rows[i], i)
  }

  ghost predicate RecentAt(strategy: Strategy, store: Storage, events: seq<Event>, row: Option<Row>, i: int)
    requires 0 <= i < |events|
  {
    events[i].ReadEvent? && row.Some? ==>
      || HeldAt(strategy, store, events, i, events[i].id, row.value)
      || exists j :: 0 <= j < i && HeldAt(strategy, store, events, j, events[i].id, row.value) &&
                     InTime(StoringTime(events[j]) + 300_000_000_000, events[i].now)
  }

  /** A deadline of 0 never passes. */
  predicate InTime(deadline: int, now: int) { deadline == 0 || now <= deadline }

  /** Whatever is cached and decodes is what the database had after one of the first `n` events, from which its lifetime
      counts. */
  ghost predicate Sourced(strategy: Strategy, store: Storage, events: seq<Event>, n: nat,
                          entries: map<string, EntryView>, decode: Bytes -> Option<Row>)
    requires n <= |events|
  {
    forall id {:trigger Key(id)} :: Key(id) in entries && decode(entries[Key(id)].value).Some? ==>
      HasSource(strategy, store, events, n, id, decode(entries[Key(id)].value).value, entries[Key(id)].expiresAt)
  }

  ghost predicate HasSource(strategy: Strategy, store: Storage, events: seq<Event>, n: nat, id: string, row: Row,
                            expiresAt: int)
    requires n <= |events|
  {
    exists j :: 0 <= j < n && HeldAt(strategy, store, events, j, id, row) &&
                expiresAt == Deadline(StoringTime(events[j]), TTL)
  }

  lemma SourceStays(strategy: Strategy, store: Storage, events: seq<Event>, n: nat, id: string, row: Row,
                    expiresAt: int)
    requires n < |events| && HasSource(strategy, store, events, n, id, row, expiresAt)
    ensures HasSource(strategy, store, events, n + 1, id, row, expiresAt)
  {
  }

  lemma OneMoreSourced(strategy: Strategy, store: Storage, events: seq<Event>, n: nat, before: map<string, EntryView>,
                       after: map<string, EntryView>, decode: Bytes -> Option<Row>)
    requires n < |events| && Sourced(strategy, store, events, n, before, decode)
    requires CachesAtMost(before, after, events[n], AfterAll(strategy, store, events[..n + 1]).db, decode)
    ensures Sourced(strategy, store, events, n + 1, after, decode)
  {
    forall id | Key(id) in after && decode(after[Key(id)].value).Some?
      ensures HasSource(strategy, store, events, n + 1, id, decode(after[Key(id)].value).value,
                        after[Key(id)].expiresAt)
    {
      var row, expiresAt := decode(after[Key(id)].value).value, after[Key(id)].expiresAt;
      if NothingNew(before, after) {
        SourceStays(strategy, store, events, n, id, row, expiresAt);
      } else if id == events[n].id {
        assert HeldAt(strategy, store, events, n, id, row);
      } else {
        if Key(id) == Key(events[n].id) { KeysDiffer(id, events[n].id); }
        assert Key(id) in after - {Key(events[n].id)};
        SourceStays(strategy, store, events, n, id, row, expiresAt);
      }
    }
  }

  lemma OneMoreRecent(strategy: Strategy, store: Storage, events: seq<Event>, n: nat, entries: map<string, EntryView>,
                      decode: Bytes -> Option<Row>, row: Option<Row>)
    requires n < |events| && Sourced(strategy, store, events, n, entries, decode)
    requires AnsweredFrom(entries, events[n], AfterAll(strategy, store, events[..n + 1]).db, decode, row)
    ensures RecentAt(strategy, store, events, row, n)
  {
    var e := events[n];
    if e.ReadEvent? && row.Some? && !HeldAt(strategy, store, events, n, e.id, row.value) {
      var expiresAt := entries[Key(e.id)].expiresAt;
      assert HasSource(strategy, store, events, n, e.id, row.value, expiresAt);
      var j :| 0 <= j < n && HeldAt(strategy, store, events, j, e.id, row.value) &&
               expiresAt == Deadline(StoringTime(events[j]), TTL);
      assert InTime(StoringTime(events[j]) + 300_000_000_000, e.now);
    }
  }

  /** The first events were served, and left this store. */
  ghost predicate Served(strategy: Strategy, store: Storage, events: seq<Event>, rows: seq<Option<Row>>, left: Storage)
  {
    Answered(strategy, store, events, rows) && left == AfterAll(strategy, store, events[..|rows|])
  }

  /** And all of it from a cache that held nothing before them. */
  ghost predicate Traced(strategy: Strategy, store: Storage, events: seq<Event>, rows: seq<Option<Row>>,
                         entries: map<string, EntryView>, decode: Bytes -> Option<Row>)
  {
    |rows| <= |events| && Recent(strategy, store, events, rows) &&
    Sourced(strategy, store, events, |rows|, entries, decode)
  }

  lemma OneMoreServed(strategy: Strategy, store: Storage, events: seq<Event>, rows: seq<Option<Row>>, left: Storage,
                      row: Option<Row>)
    requires Served(strategy, store, events, rows, left) && |rows| < |events|
    requires left.MayAnswer(strategy, events[|rows|], row)
    ensures Served(strategy, store, events, rows + [row], left.After(strategy, events[|rows|]))
  {
    var i := |rows|;
    assert events[..i + 1][..i] == events[..i];
    assert AnsweredAt(strategy, store, events, row, i);
  }

  lemma OneMoreTraced(strategy: Strategy, store: Storage, events: seq<Event>, rows: seq<Option<Row>>, left: Storage,
                      row: Option<Row>, before: map<string, EntryView>, after: map<string, EntryView>,
                      decode: Bytes -> Option<Row>)
    requires Traced(strategy, store, events, rows, before, decode) && |rows| < |events|
    requires left == AfterAll(strategy, store, events[..|rows| + 1])
    requires AnsweredFrom(before, events[|rows|], left.db, decode, row)
    requires CachesAtMost(before, after, events[|rows|], left.db, decode)
    ensures Traced(strategy, store, events, rows + [row], after, decode)
  {
    OneMoreRecent(strategy, store, events, |rows|, before, decode, row);
    OneMoreSourced(strategy, store, events, |rows|, before, after, decode);
    forall i | 0 <= i < |rows + [row]| ensures RecentAt(strategy, store, events, (rows + [row])[i], i) {
      if i < |rows| { assert (rows + [row])[i] == rows[i]; }
    }
  }

  /** What serving keeps; `empty` says whether the cache held nothing before the first event. */
  ghost predicate Progress(strategy: Strategy, store: Storage, events: seq<Event>, rows: seq<Option<Row>>,
                           left: Storage, entries: map<string, EntryView>, decode: Bytes -> Option<Row>, empty: bool)
  {
    && Served(strategy, store, events, rows, left)
    && (empty ==> Traced(strategy, store, events, rows, entries, decode))
  }

  lemma NothingServed(strategy: Strategy, store: Storage, events: seq<Event>, entries: map<string, EntryView>,
                      decode: Bytes -> Option<Row>)
    ensures Progress(strategy, store, events, [], store, entries, decode, entries == map[])
  {
  }

  lemma OneMoreProgress(strategy: Strategy, store: Storage, events: seq<Event>, rows: seq<Option<Row>>, left: Storage,
                        row: Option<Row>, before: map<string, EntryView>, after: map<string, EntryView>,
                        decode: Bytes -> Option<Row>, empty: bool, left': Storage)
    requires Progress(strategy, store, events, rows, left, before, decode, empty) && |rows| < |events|
    requires left.MayAnswer(strategy, events[|rows|], row) && left' == left.After(strategy, events[|rows|])
    requires AnsweredFrom(before, events[|rows|], left'.db, decode, row)
    requires CachesAtMost(before, after, events[|rows|], left'.db, decode)
    ensures Progress(strategy, store, events, rows + [row], left', after, decode, empty)
  {
    OneMoreServed(strategy, store, events, rows, left, row);
    if empty { OneMoreTraced(strategy, store, events, rows, left', row, before, after, decode); }
  }

  lemma AllServed(strategy: Strategy, store: Storage, events: seq<Event>, rows: seq<Option<Row>>, left: Storage,
                  entries: map<string, EntryView>, decode: Bytes -> Option<Row>, empty: bool)
    requires Progress(strategy, store, events, rows, left, entries, decode, empty) && |rows| == |events|
    ensures left == AfterAll(strategy, store, events) && Answered(strategy, store, events, rows)
    ensures empty ==> Recent(strategy, store, events, rows)
  {
    assert events[..|events|] == events;
  }

  // ----- serving them -----

  ghost function Persistent(products: CacheAside): Storage
    reads products
  {
    Storage(products.db, products.pending)
  }

  method ServeOne(products: CacheAside, e: Event) returns (row: Option<Row>)
    requires products.cache.Valid() && products.Separate() && products.Coherent()
    modifies products, products.cache, products.cache.cells, products.cache.policy.Repr
    ensures products.cache.Valid() && products.Separate() && products.Coherent()
    ensures fresh(products.cache.cells - old(products.cache.cells))
    ensures fresh(products.cache.policy.Repr - old(products.cache.policy.Repr))
    ensures Persistent(products) == old(Persistent(products)).After(products.strategy, e)
    ensures old(Persistent(products)).MayAnswer(products.strategy, e, row)
    ensures AnsweredFrom(old(products.cache.view).entries, e, products.db, products.decode, row)
    ensures CachesAtMost(old(products.cache.view).entries, products.cache.view.entries, e, products.db, products.decode)
  {
    row := None;
    match e
    case ReadEvent(id, now, later, noted, stored, storeNoted) =>
      var found, _ := products.GetProduct(id, now, later, noted, stored, storeNoted);
      row := found;
    case UpdateEvent(id, written, now, noted) =>
      var _ := products.UpdateProduct(id, written, now, noted);
    case DeletionEvent(id) =>
      if id in products.pending {
        products.RunDeletion(id);
      } else {
        assert products.pending - multiset{id} == products.pending;
      }
  }

  ghost predicate InProgress(products: CacheAside, store: Storage, events: seq<Event>, rows: seq<Option<Row>>,
                             empty: bool)
    reads products, products.cache`view
  {
    Progress(products.strategy, store, events, rows, Persistent(products), products.cache.view.entries,
             products.decode, empty) == true
  }

  method ServeNext(products: CacheAside, ghost store: Storage, events: seq<Event>, rows: seq<Option<Row>>,
                   ghost empty: bool)
    returns (row: Option<Row>)
    requires products.cache.Valid() && products.Separate() && products.Coherent()
    requires |rows| < |events| && InProgress(products, store, events, rows, empty)
    modifies products, products.cache, products.cache.cells, products.cache.policy.Repr
    ensures products.cache.Valid() && products.Separate() && products.Coherent()
    ensures fresh(products.cache.cells - old(products.cache.cells))
    ensures fresh(products.cache.policy.Repr - old(products.cache.policy.Repr))
    ensures InProgress(products, store, events, rows + [row], empty)
  {
    ghost var left, entries := Persistent(products), products.cache.view.entries;
    row := ServeOne(products, events[|rows|]);
    OneMoreProgress(products.strategy, store, events, rows, left, row, entries, products.cache.view.entries,
                    products.decode, empty, Persistent(products));
  }

  /** Serving any events, one after the other, keeps cache and database coherent.  Every read is answered from the
      database as the updates before it left it: always under write-through, and under write-behind whenever no deletion
      of the product is still scheduled.  Under every strategy, if the cache was empty at first, every row answered was
      the database's at most five minutes earlier. */
  method ServeAll(products: CacheAside, events: seq<Event>) returns (rows: seq<Option<Row>>)
    requires products.cache.Valid() && products.Separate() && products.Coherent()
    modifies products, products.cache, products.cache.cells, products.cache.policy.Repr
    ensures products.cache.Valid() && products.Separate() && products.Coherent()
    ensures Persistent(products) == AfterAll(products.strategy, old(Persistent(products)), events)
    ensures |rows| == |events| && Answered(products.strategy, old(Persistent(products)), events, rows)
    ensures old(products.cache.view).entries == map[] ==>
              Recent(products.strategy, old(Persistent(products)), events, rows)
  {
    rows := [];
    ghost var store, empty := Persistent(products), products.cache.view.entries == map[];
    NothingServed(products.strategy, store, events, products.cache.view.entries, products.decode);
    for i := 0 to |events|
      invariant products.cache.Valid() && products.Separate() && products.Coherent()
      invariant fresh(products.cache.cells - old(products.cache.cells))
      invariant fresh(products.cache.policy.Repr - old(products.cache.policy.Repr))
      invariant |rows| == i
      invariant InProgress(products, store, events, rows, empty)
    {
      var row := ServeNext(products, store, events, rows, empty);
      rows := rows + [row];
    }
    AllServed(products.strategy, store, events, rows, Persistent(products), products.cache.view.entries,
              products.decode, empty);
  }
}
