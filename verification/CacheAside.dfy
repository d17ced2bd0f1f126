/** The product read and write paths of `internal/api/middleware.go` over the real cache object, with any eviction
    policy and each invalidation strategy. The database is a map; JSON is any encoding that decodes what it encoded. */
module CacheAside {
  import opened Options
  import opened CacheModel
  import opened CacheCalls
  import Objects = InMemoryCache
  import opened Coherence

  function Key(id: string): string { "product:" + id }

  lemma KeysDiffer(a: string, b: string)
    requires Key(a) == Key(b)
    ensures a == b
  {
    assert Key(a)[8..] == a && Key(b)[8..] == b;
  }

  /** Every cached product exists, and what decodes is the database's row wherever the strategy promises that. */
  ghost predicate Synced(entries: map<string, EntryView>, db: map<string, Row>, decode: Bytes -> Option<Row>,
                         strategy: Strategy, pending: multiset<string>)
  {
    forall id {:trigger Key(id)} :: Key(id) in entries ==>
      && id in db
      && (Promised(strategy, pending, id) && decode(entries[Key(id)].value).Some? ==>
           decode(entries[Key(id)].value) == Some(db[id]))
  }

  predicate Promised(strategy: Strategy, pending: multiset<string>, id: string) {
    strategy == WriteThrough || (strategy == WriteBehind && id !in pending)
  }

  ghost predicate RoundTrips(encode: Row -> Bytes, decode: Bytes -> Option<Row>) {
    forall row :: decode(encode(row)) == Some(row)
  }

  /** `after` holds only entries of `before`, with the same values and expiries. */
  ghost predicate NothingNew(before: map<string, EntryView>, after: map<string, EntryView>) {
    forall k <- after :: k in before && after[k].value == before[k].value && after[k].expiresAt == before[k].expiresAt
  }

  /** `after` gives `key` this value until `deadline`, and otherwise holds only entries of `before`. */
  ghost predicate OneSet(before: map<string, EntryView>, after: map<string, EntryView>, key: string, value: Bytes,
                         deadline: int)
  {
    && key in after && after[key].value == value && after[key].expiresAt == deadline
    && NothingNew(before, after - {key})
  }

  /** Whatever the reading, a Get of `key` finds `value` exactly up to `deadline`; a deadline of 0 never passes. */
  ghost predicate KeptUntil(c: CacheView, key: string, value: Bytes, deadline: int) {
    forall u :: Found(c, key, u) == if deadline == 0 || u <= deadline then Some(value) else None
  }

  lemma GetSetsNothing(c: CacheView, capacity: nat, key: string, now: int, later: int, noted: int)
    ensures NothingNew(c.entries, After(c, capacity, GetCall(key, now, later, noted)).entries)
  {
  }

  lemma PutSetsOne(c: CacheView, after: CacheView, capacity: nat, key: string, value: Bytes, now: int, noted: int,
                   victim: string)
    requires after == WithPut(c, capacity, key, value, Deadline(now, TTL), now, noted, victim)
    ensures OneSet(c.entries, after.entries, key, value, Deadline(now, TTL))
    ensures KeptUntil(after, key, value, now + 300_000_000_000)
  {
  }

  lemma SetAfterDrop(a: map<string, EntryView>, b: map<string, EntryView>, c: map<string, EntryView>, key: string,
                     value: Bytes, deadline: int)
    requires NothingNew(a, b) && OneSet(b, c, key, value, deadline)
    ensures OneSet(a, c, key, value, deadline)
  {
    forall k <- c - {key} ensures k in a && c[k].value == a[k].value && c[k].expiresAt == a[k].expiresAt {
      assert k in b;
    }
  }

  class CacheAside {
    const cache: Objects.InMemoryCache
    const strategy: Strategy
    const encode: Row -> Bytes
    const decode: Bytes -> Option<Row>
    var db: map<string, Row>
    var pending: multiset<string>

    /** What a Get of a product finds and decodes. */
    function CachedRow(c: CacheView, id: string, now: int): Option<Row> {
      var value := Found(c, Key(id), now);
      if value.Some? then decode(value.value) else None
    }

    ghost predicate Separate()
      reads this, cache, cache.policy
    {
      this !in cache.policy.Repr
    }

    ghost predicate Coherent()
      reads this, cache`view
    {
      Synced(cache.view.entries, db, decode, strategy, pending) && RoundTrips(encode, decode)
    }

    constructor (cache: Objects.InMemoryCache, strategy: Strategy, encode: Row -> Bytes, decode: Bytes -> Option<Row>,
                 db: map<string, Row>)
      requires cache.Valid() && cache.view.entries == map[] && RoundTrips(encode, decode)
      ensures cache.Valid() && Separate() && Coherent()
      ensures this.cache == cache && this.strategy == strategy && this.db == db && pending == multiset{}
    {
      this.cache, this.strategy, this.encode, this.decode := cache, strategy, encode, decode;
      this.db, pending := db, multiset{};
    }

    /** A hit and a miss both return the database's row, except that a hit may be stale under the strategies that
        allow it.  After a miss the product is cached for five minutes. */
    method GetProduct(id: string, now: int, later: int, noted: int, stored: int, storeNoted: int)
      returns (row: Option<Row>, hit: bool)
      requires cache.Valid() && Separate() && Coherent()
      modifies cache, cache.cells, cache.policy.Repr
      ensures cache.Valid() && Separate() && Coherent()
      ensures fresh(cache.cells - old(cache.cells)) && fresh(cache.policy.Repr - old(cache.policy.Repr))
      ensures row.Some? <==> id in db
      ensures row.Some? && (!hit || Promised(strategy, pending, id)) ==> row == Some(db[id])
      ensures hit <==> CachedRow(old(cache.view), id, now).Some?
      ensures hit ==> row == CachedRow(old(cache.view), id, now)
      ensures row.Some? && !hit ==> KeptUntil(cache.view, "product:" + id, encode(db[id]), stored + 300_000_000_000)
      ensures row.Some? && !hit ==>
                OneSet(old(cache.view).entries, cache.view.entries, Key(id), encode(db[id]), Deadline(stored, TTL))
      ensures row.None? || hit ==> NothingNew(old(cache.view).entries, cache.view.entries)
    {
      ghost var before := cache.view.entries;
      row := ReadCached(id, now, later, noted);
      hit := row.Some?;
      if !hit {
        ghost var between := cache.view.entries;
        row := Fetch(id, stored, storeNoted);
        if row.Some? {
          SetAfterDrop(before, between, cache.view.entries, Key(id), encode(db[id]), Deadline(stored, TTL));
        }
      }
    }

    /** The row cached under a product.  A value that does not decode is dropped and counts as a miss. */
    method ReadCached(id: string, now: int, later: int, noted: int) returns (row: Option<Row>)
      requires cache.Valid() && Separate() && Coherent()
      modifies cache, cache.cells, cache.policy.Repr
      ensures cache.Valid() && Separate() && Coherent()
      ensures fresh(cache.cells - old(cache.cells)) && fresh(cache.policy.Repr - old(cache.policy.Repr))
      ensures row == CachedRow(old(cache.view), id, now) && NothingNew(old(cache.view).entries, cache.view.entries)
      ensures row.Some? ==> id in db && (Promised(strategy, pending, id) ==> row == Some(db[id]))
    {
      var value := Lookup(id, now, later, noted);
      row := if value.Some? then decode(value.value) else None;
      if value.Some? && row.None? {
        Discard(id);
      }
    }

    /** The database's row of a product, which is cached on the way. */
    method Fetch(id: string, now: int, noted: int) returns (row: Option<Row>)
      requires cache.Valid() && Separate() && Coherent()
      modifies cache, cache.cells, cache.policy.Repr
      ensures cache.Valid() && Separate() && Coherent()
      ensures fresh(cache.cells - old(cache.cells)) && fresh(cache.policy.Repr - old(cache.policy.Repr))
      ensures row == if id in db then Some(db[id]) else None
      ensures row.Some? ==> KeptUntil(cache.view, "product:" + id, encode(db[id]), now + 300_000_000_000)
      ensures row.Some? ==>
                OneSet(old(cache.view).entries, cache.view.entries, Key(id), encode(db[id]), Deadline(now, TTL))
      ensures row.None? ==> cache.view == old(cache.view)
    {
      if id !in db {
        return None;
      }
      row := Some(db[id]);
      Store(id, now, noted);
    }

    method Lookup(id: string, now: int, later: int, noted: int) returns (value: Option<Bytes>)
      requires cache.Valid() && Separate() && Coherent()
      modifies cache, cache.cells, cache.policy.Repr
      ensures cache.Valid() && Separate() && Coherent() && value == Found(old(cache.view), Key(id), now)
      ensures NothingNew(old(cache.view).entries, cache.view.entries)
      ensures fresh(cache.cells - old(cache.cells)) && fresh(cache.policy.Repr - old(cache.policy.Repr))
    {
      ghost var before := cache.view;
      value := cache.Get(Key(id), now, later, noted);
      GetSetsNothing(before, cache.capacity, Key(id), now, later, noted);
    }

    /** A cached value that does not decode is dropped. */
    method Discard(id: string)
      requires cache.Valid() && Separate() && Coherent()
      modifies cache, cache.cells, cache.policy.Repr
      ensures cache.Valid() && Separate() && Coherent() && Key(id) !in cache.view.entries
      ensures db == old(db) && pending == old(pending) && NothingNew(old(cache.view).entries, cache.view.entries)
      ensures fresh(cache.cells - old(cache.cells)) && fresh(cache.policy.Repr - old(cache.policy.Repr))
    {
      cache.Delete(Key(id));
    }

    /** Caching the database's row, as a miss does and write-through does. */
    method Store(id: string, now: int, noted: int)
      requires cache.Valid() && Separate() && Coherent() && id in db
      modifies cache, cache.cells, cache.policy.Repr
      ensures cache.Valid() && Separate() && Coherent()
      ensures fresh(cache.cells - old(cache.cells)) && fresh(cache.policy.Repr - old(cache.policy.Repr))
      ensures KeptUntil(cache.view, "product:" + id, encode(db[id]), now + 300_000_000_000)
      ensures OneSet(old(cache.view).entries, cache.view.entries, Key(id), encode(db[id]), Deadline(now, TTL))
    {
      ghost var before, rows, deletions := cache.view, db, pending;
      assert Synced(before.entries, rows, decode, strategy, deletions) && rows[id := rows[id]] == rows;
      SetRow(id, db[id], now, noted);
      UpdateStaysSynced(before.entries, cache.view.entries, id, rows[id], rows, encode, decode, strategy, deletions,
                        Deadline(now, TTL));
    }

    /** The cache call of both: it stores one row and may evict others. */
    method SetRow(id: string, row: Row, now: int, noted: int)
      requires cache.Valid() && Separate()
      modifies cache, cache.cells, cache.policy.Repr
      ensures cache.Valid() && Separate() && db == old(db) && pending == old(pending)
      ensures fresh(cache.cells - old(cache.cells)) && fresh(cache.policy.Repr - old(cache.policy.Repr))
      ensures KeptUntil(cache.view, "product:" + id, encode(row), now + 300_000_000_000)
      ensures OneSet(old(cache.view).entries, cache.view.entries, Key(id), encode(row), Deadline(now, TTL))
    {
      ghost var before := cache.view;
      var _, victim := cache.Set(Key(id), encode(row), TTL, now, noted);
      PutSetsOne(before, cache.view, cache.capacity, Key(id), encode(row), now, noted, victim);
    }

    /** The database is written first; then write-through caches the new row, write-behind schedules a deletion, and
        otherwise the cache is left alone.  An unknown product changes nothing. */
    method UpdateProduct(id: string, row: Row, now: int, noted: int) returns (updated: bool)
      requires cache.Valid() && Separate() && Coherent()
      modifies this, cache, cache.cells, cache.policy.Repr
      ensures cache.Valid() && Separate() && Coherent() && updated == (id in old(db))
      ensures fresh(cache.cells - old(cache.cells)) && fresh(cache.policy.Repr - old(cache.policy.Repr))
      ensures db == if updated then old(db)[id := row] else old(db)
      ensures pending == if updated && strategy == WriteBehind then old(pending) + multiset{id} else old(pending)
      ensures updated && strategy == WriteThrough ==>
                && KeptUntil(cache.view, "product:" + id, encode(row), now + 300_000_000_000)
                && OneSet(old(cache.view).entries, cache.view.entries, Key(id), encode(row), Deadline(now, TTL))
      ensures !updated || strategy != WriteThrough ==> cache.view == old(cache.view)
    {
      if id !in db {
        return false;
      }
      updated := true;
      if strategy == WriteThrough {
        WriteAndStore(id, row, now, noted);
      } else {
        db := db[id := row];
        if strategy == WriteBehind {
          pending := pending + multiset{id};
        }
      }
    }

    /** Write-through, from the commit on: between its two writes the product alone is out of sync. */
    method WriteAndStore(id: string, row: Row, now: int, noted: int)
      requires cache.Valid() && Separate() && Coherent() && id in db
      modifies this`db, cache, cache.cells, cache.policy.Repr
      ensures cache.Valid() && Separate() && Coherent()
      ensures fresh(cache.cells - old(cache.cells)) && fresh(cache.policy.Repr - old(cache.policy.Repr))
      ensures db == old(db)[id := row]
      ensures KeptUntil(cache.view, "product:" + id, encode(row), now + 300_000_000_000)
      ensures OneSet(old(cache.view).entries, cache.view.entries, Key(id), encode(row), Deadline(now, TTL))
    {
      ghost var before, rows, deletions := cache.view, db, pending;
      assert Synced(before.entries, rows, decode, strategy, deletions);
      db := db[id := row];
      SetRow(id, row, now, noted);
      UpdateStaysSynced(before.entries, cache.view.entries, id, row, rows, encode, decode, strategy, deletions,
                        Deadline(now, TTL));
    }

    /** A deletion scheduled by write-behind runs. */
    method RunDeletion(id: string)
      requires cache.Valid() && Separate() && Coherent() && id in pending
      modifies this`pending, cache, cache.cells, cache.policy.Repr
      ensures cache.Valid() && Separate() && Coherent() && Key(id) !in cache.view.entries
      ensures fresh(cache.cells - old(cache.cells)) && fresh(cache.policy.Repr - old(cache.policy.Repr))
      ensures pending == old(pending) - multiset{id} && NothingNew(old(cache.view).entries, cache.view.entries)
    {
      Discard(id);
      DeletionStaysSynced(cache.view.entries, db, decode, strategy, pending, id);
      pending := pending - multiset{id};
    }
  }

  lemma DeletionStaysSynced(entries: map<string, EntryView>, db: map<string, Row>, decode: Bytes -> Option<Row>,
                            strategy: Strategy, pending: multiset<string>, id: string)
    requires Synced(entries, db, decode, strategy, pending) && Key(id) !in entries
    ensures Synced(entries, db, decode, strategy, pending - multiset{id})
  {
  }

  lemma UpdateStaysSynced(before: map<string, EntryView>, after: map<string, EntryView>, id: string, row: Row,
                          db: map<string, Row>, encode: Row -> Bytes, decode: Bytes -> Option<Row>,
                          strategy: Strategy, pending: multiset<string>, deadline: int)
    requires Synced(before, db, decode, strategy, pending) && RoundTrips(encode, decode)
    requires OneSet(before, after, Key(id), encode(row), deadline)
    ensures Synced(after, db[id := row], decode, strategy, pending)
  {
    forall x | Key(x) in after && x != id ensures Key(x) in before && after[Key(x)].value == before[Key(x)].value {
      if Key(x) == Key(id) { KeysDiffer(x, id); }
      assert Key(x) in after - {Key(id)};
    }
  }
}
