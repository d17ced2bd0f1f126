/** The eviction policies as values: what each of the four tracks, and what the four notifications do to it. */
module PolicyModel {
  import opened Recency
  import opened HeapOrder

  function IndexOf(s: seq<string>, k: string): (i: nat)
    requires k in s
    ensures i < |s| && s[i] == k && k !in s[..i]
  {
    if s[0] == k then 0 else 1 + IndexOf(s[1..], k)
  }

  /** Removal by moving the last element into the gap. */
  function SwapOut(s: seq<string>, k: string): seq<string> {
    if k in s then s[IndexOf(s, k) := s[|s| - 1]][..|s| - 1] else s
  }

  datatype PolicyView =
    | LruView(order: seq<string>)         // most recently used first
    | LfuView(table: map<string, Rank>)   // frequency, then last access
    | TtlView(table: map<string, Rank>)   // expiry given at insertion
    | RandomView(keys: seq<string>)
  {
    ghost predicate WellFormed() {
      match this
      case LruView(order) => Distinct(order)
      case RandomView(keys) => Distinct(keys)
      case _ => true
    }

    function Tracked(): set<string> {
      match this
      case LruView(order) => set k | k in order
      case LfuView(table) => table.Keys
      case TtlView(table) => table.Keys
      case RandomView(keys) => set k | k in keys
    }

    function OnAccess(key: string, now: int): PolicyView {
      match this
      case LruView(order) => LruView(if key in order then Touch(order, key) else order)
      case LfuView(table) => LfuView(if key in table then table[key := Rank(table[key].major + 1, now)] else table)
      case TtlView(_) => this
      case RandomView(_) => this
    }

    function OnInsert(key: string, expiresAt: int, now: int): PolicyView {
      match this
      case LruView(order) => LruView([key] + order)
      case LfuView(table) => LfuView(table[key := Rank(1, now)])
      case TtlView(table) => TtlView(table[key := Rank(expiresAt, 0)])
      case RandomView(keys) => RandomView(keys + [key])
    }

    function OnEvict(key: string): PolicyView {
      match this
      case LruView(order) => LruView(Without(order, key))
      case LfuView(table) => LfuView(table - {key})
      case TtlView(table) => TtlView(table - {key})
      case RandomView(keys) => RandomView(SwapOut(keys, key))
    }

    /** The keys that Evict may return: the least recently used, the least by frequency and last access, the one
        whose recorded expiry comes first, or any. */
    ghost predicate MayEvict(key: string) {
      match this
      case LruView(order) => order != [] && key == order[|order| - 1]
      case LfuView(table) => key in table && forall k <- table :: AtMost(table[key], table[k])
      case TtlView(table) => key in table && forall k <- table :: AtMost(table[key], table[k])
      case RandomView(keys) => key in keys
    }
  }

  lemma SwapOutMembers(s: seq<string>, k: string)
    requires Distinct(s)
    ensures Distinct(SwapOut(s, k))
    ensures forall x :: x in SwapOut(s, k) <==> x in s && x != k
  {
    if k in s {
      var i, t := IndexOf(s, k), SwapOut(s, k);
      assert forall j :: 0 <= j < |t| ==> t[j] == if j == i then s[|s| - 1] else s[j];
      forall x | x in s && x != k ensures x in t {
        var j :| 0 <= j < |s| && s[j] == x;
        assert x == if j == |s| - 1 then t[i] else t[j];
      }
    }
  }

  lemma AccessTracks(p: PolicyView, key: string, now: int)
    requires p.WellFormed()
    ensures p.OnAccess(key, now).WellFormed() && p.OnAccess(key, now).Tracked() == p.Tracked()
  {
    if p.LruView? { TouchMembers(p.order, key); }
  }

  lemma InsertTracks(p: PolicyView, key: string, expiresAt: int, now: int)
    requires p.WellFormed() && key !in p.Tracked()
    ensures var q := p.OnInsert(key, expiresAt, now); q.WellFormed() && q.Tracked() == p.Tracked() + {key}
  {
  }

  lemma EvictTracks(p: PolicyView, key: string)
    requires p.WellFormed()
    ensures p.OnEvict(key).WellFormed() && p.OnEvict(key).Tracked() == p.Tracked() - {key}
  {
    match p
    case LruView(order) => WithoutMembers(order, key);
    case RandomView(keys) => SwapOutMembers(keys, key);
    case _ =>
  }

  lemma VictimIsTracked(p: PolicyView, key: string)
    requires p.MayEvict(key)
    ensures key in p.Tracked()
  {
  }
}
