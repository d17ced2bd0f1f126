/** The policy objects of `internal/eviction` other than the linked list, and the interface the cache calls them by. */
module Policies {
  import opened Recency
  import opened HeapOrder
  import opened IndexedHeap
  import opened LruList
  import opened PolicyModel

  class LFU {
    const heap: IndexedHeap

    constructor ()
      ensures heap.Valid() && heap.Table() == map[] && fresh(heap.Repr())
    {
      heap := new IndexedHeap();
    }

    method OnAccess(key: string, now: int)
      requires heap.Valid()
      modifies heap.Repr()
      ensures heap.Valid() && heap.Repr() == old(heap.Repr())
      ensures LfuView(heap.Table()) == old(LfuView(heap.Table()).OnAccess(key, now))
    {
      if key in heap.entries {
        var entry := heap.entries[key];
        heap.Reorder(key, Rank(entry.rank.major + 1, now));
      }
    }

    method OnInsert(key: string, now: int)
      requires heap.Valid() && key !in heap.entries
      modifies heap.Repr()
      ensures heap.Valid() && fresh(heap.Repr() - old(heap.Repr()))
      ensures heap.Table() == old(heap.Table())[key := Rank(1, now)]
    {
      heap.Insert(key, Rank(1, now));
    }
  }

  class TTLOnly {
    const heap: IndexedHeap

    constructor ()
      ensures heap.Valid() && heap.Table() == map[] && fresh(heap.Repr())
    {
      heap := new IndexedHeap();
    }

    method OnInsert(key: string, expiresAt: int)
      requires heap.Valid() && key !in heap.entries
      modifies heap.Repr()
      ensures heap.Valid() && fresh(heap.Repr() - old(heap.Repr()))
      ensures heap.Table() == old(heap.Table())[key := Rank(expiresAt, 0)]
    {
      heap.Insert(key, Rank(expiresAt, 0));
    }
  }

  class Random {
    var keys: seq<string>

    constructor ()
      ensures keys == []
    {
      keys := [];
    }

    method OnInsert(key: string)
      modifies this
      ensures keys == old(keys) + [key]
    {
      keys := keys + [key];
    }

    method OnEvict(key: string)
      modifies this
      ensures keys == SwapOut(old(keys), key) && (key !in old(keys) ==> keys == old(keys))
      ensures forall i :: 0 <= i < |old(keys)| && old(keys)[i] == key && key !in old(keys)[..i] ==>
                var n := |old(keys)| - 1; keys == old(keys)[i := old(keys)[n]][..n]
    {
      for i := 0 to |keys|
        invariant keys == old(keys) && key !in keys[..i]
      {
        if keys[i] == key {
          assert i == IndexOf(keys, key);
          keys := keys[i := keys[|keys| - 1]];
          keys := keys[..|keys| - 1];
          return;
        }
      }
    }

    method Evict() returns (key: string, ok: bool)
      ensures ok <==> keys != []
      ensures ok ==> key in keys
    {
      if |keys| == 0 {
        return "", false;
      }
      var i :| 0 <= i < |keys|;
      return keys[i], true;
    }
  }

  datatype Policy = LruPolicy(lru: LRU) | LfuPolicy(lfu: LFU) | TtlPolicy(ttl: TTLOnly) | RandomPolicy(random: Random)

  /** The policy that a cache was given.  `view` is what it tracks and `Repr` holds the objects it is made of; every
      method changes `view` by the notification of the same name. */
  class EvictionPolicy {
    const policy: Policy
    ghost var view: PolicyView
    ghost var Repr: set<object>

    ghost predicate Valid()
      reads this, Repr
    {
      Invariant() == true  // one fact for callers, rather than the many it is made of
    }

    ghost predicate Invariant()
      reads this, Repr
    {
      match policy
      case LruPolicy(lru) =>
        Owns(lru) && lru.Repr() <= Repr && this !in lru.Repr() && lru.Valid() && view == LruView(lru.Keys())
      case LfuPolicy(lfu) => OwnsHeap(lfu.heap) && view == LfuView(lfu.heap.Table())
      case TtlPolicy(ttl) => OwnsHeap(ttl.heap) && view == TtlView(ttl.heap.Table())
      case RandomPolicy(random) => Owns(random) && Distinct(random.keys) && view == RandomView(random.keys)
    }

    ghost predicate Owns(o: object)
      reads this
    {
      this in Repr && o in Repr && o != this
    }

    ghost predicate OwnsHeap(heap: IndexedHeap)
      reads this, Repr
    {
      Owns(heap) && heap.Repr() <= Repr && this !in heap.Repr() && heap.Valid()
    }

    constructor Lru()
      ensures Valid() && this in Repr && fresh(Repr) && view == LruView([])
    {
      var lru := new LRU();
      policy, view := LruPolicy(lru), LruView([]);
      Repr := {this} + lru.Repr();
    }

    constructor Lfu()
      ensures Valid() && this in Repr && fresh(Repr) && view == LfuView(map[])
    {
      var lfu := new LFU();
      policy, view := LfuPolicy(lfu), LfuView(map[]);
      Repr := {this} + lfu.heap.Repr();
    }

    constructor Ttl()
      ensures Valid() && this in Repr && fresh(Repr) && view == TtlView(map[])
    {
      var ttl := new TTLOnly();
      policy, view := TtlPolicy(ttl), TtlView(map[]);
      Repr := {this} + ttl.heap.Repr();
    }

    constructor Rand()
      ensures Valid() && this in Repr && fresh(Repr) && view == RandomView([])
    {
      var random := new Random();
      policy, view := RandomPolicy(random), RandomView([]);
      Repr := {this, random};
    }

    lemma ViewIsWellFormed()
      requires Valid()
      ensures view.WellFormed()
    {
      if policy.LruPolicy? { policy.lru.KeysAreDistinct(); }
    }

    method OnAccess(key: string, now: int)
      requires Valid()
      modifies Repr
      ensures Valid() && this in Repr && fresh(Repr - old(Repr)) && view == old(view).OnAccess(key, now)
    {
      view := view.OnAccess(key, now);
      match policy
      case LruPolicy(lru) => lru.OnAccess(key);
      case LfuPolicy(lfu) => lfu.OnAccess(key, now);
      case _ =>
    }

    method OnInsert(key: string, expiresAt: int, now: int)
      requires Valid() && key !in view.Tracked()
      modifies Repr
      ensures Valid() && this in Repr && fresh(Repr - old(Repr)) && view == old(view).OnInsert(key, expiresAt, now)
    {
      match policy
      case LruPolicy(lru) => InsertLru(lru, key);
      case LfuPolicy(lfu) => InsertLfu(lfu, key, now);
      case TtlPolicy(ttl) => InsertTtl(ttl, key, expiresAt);
      case RandomPolicy(random) => random.OnInsert(key); view := RandomView(random.keys);
    }

    method InsertLru(lru: LRU, key: string)
      requires Valid() && policy == LruPolicy(lru) && key !in view.Tracked()
      modifies Repr
      ensures Valid() && this in Repr && fresh(Repr - old(Repr)) && view == LruView([key] + old(view).order)
    {
      lru.OnInsert(key);
      view, Repr := LruView(lru.Keys()), Repr + lru.Repr();
    }

    method InsertLfu(lfu: LFU, key: string, now: int)
      requires Valid() && policy == LfuPolicy(lfu) && key !in view.Tracked()
      modifies Repr
      ensures Valid() && this in Repr && fresh(Repr - old(Repr))
      ensures view == LfuView(old(view).table[key := Rank(1, now)])
    {
      lfu.OnInsert(key, now);
      view, Repr := LfuView(lfu.heap.Table()), Repr + lfu.heap.Repr();
    }

    method InsertTtl(ttl: TTLOnly, key: string, expiresAt: int)
      requires Valid() && policy == TtlPolicy(ttl) && key !in view.Tracked()
      modifies Repr
      ensures Valid() && this in Repr && fresh(Repr - old(Repr))
      ensures view == TtlView(old(view).table[key := Rank(expiresAt, 0)])
    {
      ttl.OnInsert(key, expiresAt);
      assert this !in ttl.heap.Repr();
      view, Repr := TtlView(ttl.heap.Table()), Repr + ttl.heap.Repr();
    }

    method OnEvict(key: string)
      requires Valid()
      modifies Repr
      ensures Valid() && this in Repr && fresh(Repr - old(Repr)) && view == old(view).OnEvict(key)
    {
      match policy
      case LruPolicy(lru) => EvictLru(lru, key);
      case LfuPolicy(lfu) => EvictLfu(lfu, key);
      case TtlPolicy(ttl) => EvictTtl(ttl, key);
      case RandomPolicy(random) =>
        SwapOutMembers(random.keys, key);
        random.OnEvict(key);
        view := RandomView(random.keys);
    }

    method EvictLru(lru: LRU, key: string)
      requires Valid() && policy == LruPolicy(lru)
      modifies Repr
      ensures Valid() && this in Repr && Repr == old(Repr) && view == LruView(Without(old(view).order, key))
    {
      view := LruView(Without(view.order, key));
      lru.OnEvict(key);
    }

    method EvictLfu(lfu: LFU, key: string)
      requires Valid() && policy == LfuPolicy(lfu)
      modifies Repr
      ensures Valid() && this in Repr && Repr == old(Repr) && view == LfuView(old(view).table - {key})
    {
      view := LfuView(view.table - {key});
      lfu.heap.Delete(key);
    }

    method EvictTtl(ttl: TTLOnly, key: string)
      requires Valid() && policy == TtlPolicy(ttl)
      modifies Repr
      ensures Valid() && this in Repr && Repr == old(Repr) && view == TtlView(old(view).table - {key})
    {
      view := TtlView(view.table - {key});
      ttl.heap.Delete(key);
    }

    method Evict() returns (key: string, ok: bool)
      requires Valid()
      ensures ok <==> view.Tracked() != {}
      ensures ok ==> view.MayEvict(key)
    {
      match policy
      case LruPolicy(lru) =>
        key, ok := lru.Evict();
        assert ok ==> key in view.Tracked();
      case LfuPolicy(lfu) =>
        key, ok := lfu.heap.Peek();
      case TtlPolicy(ttl) =>
        key, ok := ttl.heap.Peek();
      case RandomPolicy(random) =>
        key, ok := random.Evict();
        assert ok ==> key in view.Tracked();
    }
  }
}
