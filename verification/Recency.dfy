/** Sequences of distinct keys ordered from most to least recently used, and what bounding their length keeps. */
module Recency {

  predicate Distinct<T(==)>(s: seq<T>) { forall i, j :: 0 <= i < j < |s| ==> s[i] != s[j] }

  function Without<T(==)>(s: seq<T>, k: T): seq<T> {
    if s == [] then [] else (if s[0] == k then [] else [s[0]]) + Without(s[1..], k)
  }

  function Touch<T(==)>(s: seq<T>, k: T): seq<T> { [k] + Without(s, k) }

  function Take<T>(s: seq<T>, n: nat): seq<T> { if |s| <= n then s else s[..n] }

  // ----- Without -----

  lemma {:induction false} WithoutAbsent<T>(s: seq<T>, k: T)
    requires k !in s
    ensures Without(s, k) == s
  {
    if s != [] {
      WithoutAbsent(s[1..], k);
      assert s == [s[0]] + s[1..];
    }
  }

  lemma CutBehindFirst<T>(s: seq<T>, i: nat)
    requires 0 < i < |s|
    ensures [s[0]] + (s[1..][..i - 1] + s[1..][i..]) == s[..i] + s[i + 1..]
  {
  }

  /** In a distinct sequence, removing the element at `i` closes the gap. */
  lemma {:induction false} WithoutAt<T>(s: seq<T>, i: nat)
    requires Distinct(s) && i < |s|
    ensures Without(s, s[i]) == s[..i] + s[i + 1..]
  {
    if i == 0 {
      WithoutAbsent(s[1..], s[0]);
    } else {
      WithoutAt(s[1..], i - 1);
      CutBehindFirst(s, i);
    }
  }

  lemma {:induction false} WithoutMembers<T>(s: seq<T>, k: T)
    ensures forall x :: x in Without(s, k) <==> x in s && x != k
    ensures Distinct(s) ==> Distinct(Without(s, k))
  {
    if Distinct(s) {
      if k in s {
        var i :| 0 <= i < |s| && s[i] == k;
        WithoutAt(s, i);
      } else {
        WithoutAbsent(s, k);
      }
    } else {
      WithoutKeepsOthers(s, k);
    }
  }

  lemma {:induction false} WithoutKeepsOthers<T>(s: seq<T>, k: T)
    ensures forall x :: x in Without(s, k) <==> x in s && x != k
  {
    if s != [] { WithoutKeepsOthers(s[1..], k); }
  }

  lemma CutMembers<T>(s: seq<T>, i: nat)
    requires Distinct(s) && i < |s|
    ensures forall x :: x in s[..i] + s[i + 1..] <==> x in s && x != s[i]
    ensures Distinct(s[..i] + s[i + 1..])
  {
    WithoutAt(s, i);
    WithoutMembers(s, s[i]);
  }

  lemma TouchMembers<T>(s: seq<T>, k: T)
    ensures forall x :: x in Touch(s, k) <==> x in s || x == k
    ensures Distinct(s) ==> Distinct(Touch(s, k))
  {
    WithoutMembers(s, k);
    assert k !in Without(s, k);
  }

  lemma PrefixOneMore<T>(s: seq<T>, i: nat)
    requires 0 < i <= |s|
    ensures s[..i - 1] + [s[i - 1]] == s[..i]
  {
  }

  // ----- listing a set -----

  ghost predicate Lists<T(!new)>(list: seq<T>, members: set<T>) {
    Distinct(list) && forall x :: x in list <==> x in members
  }

  lemma {:induction false} ListEndingIn<T(!new)>(members: set<T>, last: T) returns (l: seq<T>)
    requires last in members
    ensures Lists(l, members) && l != [] && l[|l| - 1] == last
    decreases members, 0
  {
    var before := ListOf(members - {last});
    l := before + [last];
    assert forall x :: x in l <==> x in before || x == last;
  }

  lemma {:induction false} ListOf<T(!new)>(members: set<T>) returns (l: seq<T>)
    ensures Lists(l, members)
    decreases members, 1
  {
    l := [];
    if members != {} {
      var last :| last in members;
      l := ListEndingIn(members, last);
    }
  }

  // ----- the order that uses and removals leave behind -----

  datatype Op<T> = Use(key: T) | Drop(key: T)

  /** The keys in use after `ops`, most recently used first. */
  function Order<T(==)>(ops: seq<Op<T>>): seq<T> {
    if ops == [] then []
    else
      var before, op := Order(ops[..|ops| - 1]), ops[|ops| - 1];
      if op.Use? then Touch(before, op.key) else Without(before, op.key)
  }

  /** `i` is the last use of `k`, and `k` was not removed since. */
  ghost predicate LastUse<T>(ops: seq<Op<T>>, k: T, i: int) {
    0 <= i < |ops| && ops[i] == Use(k) && forall j :: i < j < |ops| ==> ops[j].key != k
  }

  /** `s` lists every key in use exactly once, by decreasing position of its last use. */
  ghost predicate ByLastUse<T(!new)>(ops: seq<Op<T>>, s: seq<T>) {
    && Distinct(s)
    && (forall k :: k in s <==> exists i :: LastUse(ops, k, i))
    && Descending(ops, s)
  }

  ghost predicate Descending<T>(ops: seq<Op<T>>, s: seq<T>) {
    forall a, b, i, j :: 0 <= a < b < |s| && LastUse(ops, s[a], i) && LastUse(ops, s[b], j) ==> j < i
  }

  lemma {:induction false} OrderIsByLastUse<T(!new)>(ops: seq<Op<T>>)
    ensures ByLastUse(ops, Order(ops))
  {
    if ops != [] {
      var prefix, last := ops[..|ops| - 1], ops[|ops| - 1];
      var before := Order(prefix);
      OrderIsByLastUse(prefix);
      LastUseOneMore(ops, prefix, last);
      WithoutMembers(before, last.key);
      WithoutDescends(prefix, before, last.key);
      var rest := Without(before, last.key);
      forall k ensures k in rest <==> k != last.key && exists i :: LastUse(ops, k, i) {
        if k in rest {
          var i :| LastUse(prefix, k, i);
          assert LastUse(ops, k, i);
        }
      }
      if last.Use? {
        assert Order(ops) == [last.key] + rest;
        assert LastUse(ops, last.key, |ops| - 1);
        forall a, b, i, j | 0 <= a < b <= |rest| && LastUse(ops, Order(ops)[a], i) && LastUse(ops, Order(ops)[b], j)
          ensures j < i
        {
          assert Order(ops)[b] == rest[b - 1] && rest[b - 1] in rest;
          assert a > 0 ==> Order(ops)[a] == rest[a - 1] && rest[a - 1] in rest;
        }
      }
    }
  }

  lemma LastUseOneMore<T(!new)>(ops: seq<Op<T>>, prefix: seq<Op<T>>, last: Op<T>)
    requires ops != [] && prefix == ops[..|ops| - 1] && last == ops[|ops| - 1]
    ensures forall k, i :: k != last.key ==> (LastUse(ops, k, i) <==> LastUse(prefix, k, i))
    ensures forall i :: LastUse(ops, last.key, i) <==> last.Use? && i == |ops| - 1
  {
  }

  lemma WithoutDescends<T>(ops: seq<Op<T>>, s: seq<T>, k: T)
    requires Distinct(s) && Descending(ops, s)
    ensures Descending(ops, Without(s, k))
  {
    if k in s {
      var i :| 0 <= i < |s| && s[i] == k;
      WithoutAt(s, i);
      assert forall a :: 0 <= a < |s| - 1 ==> Without(s, k)[a] == s[if a < i then a else a + 1];
    } else {
      WithoutAbsent(s, k);
    }
  }

  // ----- bounding the length -----

  /** One request to a least-recently-used cache: a hit moves to the front, a miss enters there and, when the cache
      is full, pushes out the last key. */
  function Request<T(==)>(s: seq<T>, capacity: nat, k: T): seq<T> {
    if k in s then Touch(s, k) else [k] + if |s| >= capacity && s != [] then s[..|s| - 1] else s
  }

  function Requests<T(==)>(capacity: nat, keys: seq<T>): seq<T> {
    if keys == [] then [] else Request(Requests(capacity, keys[..|keys| - 1]), capacity, keys[|keys| - 1])
  }

  function Uses<T>(keys: seq<T>): seq<Op<T>> { seq(|keys|, i requires 0 <= i < |keys| => Use(keys[i])) }

  function MovedToFront<T>(s: seq<T>, i: nat): seq<T>
    requires i < |s|
  {
    [s[i]] + s[..i] + s[i + 1..]
  }

  lemma TouchAt<T>(s: seq<T>, i: nat)
    requires Distinct(s) && i < |s|
    ensures Touch(s, s[i]) == MovedToFront(s, i)
  {
    WithoutAt(s, i);
  }

  lemma TakeMoved<T>(s: seq<T>, i: nat, n: nat)
    requires i < |s| && n >= 1
    ensures Take(MovedToFront(s, i), n) == if i < n then MovedToFront(Take(s, n), i) else [s[i]] + s[..n - 1]
  {
    if i >= n {
      assert MovedToFront(s, i)[..n] == [s[i]] + s[..n - 1];
    } else if |s| > n {
      assert s[..n][..i] == s[..i] && s[..n][i + 1..] == s[i + 1..n];
      assert MovedToFront(s, i)[..n] == [s[i]] + s[..i] + s[i + 1..n];
    }
  }

  lemma RequestKeepsMostRecent<T>(s: seq<T>, capacity: nat, k: T)
    requires capacity >= 1 && Distinct(s)
    ensures Request(Take(s, capacity), capacity, k) == Take(Touch(s, k), capacity)
  {
    var front := Take(s, capacity);
    if k !in s {
      WithoutAbsent(s, k);
      assert k !in front;
    } else {
      var i :| 0 <= i < |s| && s[i] == k;
      TouchAt(s, i);
      TakeMoved(s, i, capacity);
      if i < capacity {
        assert front[i] == k;
        TouchAt(front, i);
      } else {
        assert k !in front;
        assert front[..capacity - 1] == s[..capacity - 1];
      }
    }
  }

  /** After any requests, a cache of capacity `capacity` holds exactly the most recently requested distinct keys. */
  lemma {:induction false} HoldsMostRecent<T(!new)>(capacity: nat, keys: seq<T>)
    requires capacity >= 1
    ensures Requests(capacity, keys) == Take(Order(Uses(keys)), capacity)
  {
    if keys != [] {
      var prefix, k, ops := keys[..|keys| - 1], keys[|keys| - 1], Uses(keys);
      HoldsMostRecent(capacity, prefix);
      assert ops[..|ops| - 1] == Uses(prefix) && ops[|ops| - 1] == Use(k);
      assert Order(ops) == Touch(Order(Uses(prefix)), k);
      OrderIsByLastUse(Uses(prefix));
      RequestKeepsMostRecent(Order(Uses(prefix)), capacity, k);
    }
  }

  /** Inclusion: on the same requests a smaller cache's contents are a prefix of a larger one's. */
  lemma SmallerIsIncluded<T(!new)>(small: nat, large: nat, keys: seq<T>)
    requires 1 <= small <= large
    ensures Requests(small, keys) <= Requests(large, keys)
  {
    HoldsMostRecent(small, keys);
    HoldsMostRecent(large, keys);
  }
}
