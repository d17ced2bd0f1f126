/** The retrieval simulation of `python/src/llmsim/rag.py`: its prefix encoding, its request loop and its cost
    figures. */
module Rag {
  import opened Recency
  import opened PrefixModel
  import opened PrefixCaches

  // ----- the prefix encoding -----

  const MARKER := 500000
  const QUERY := 900000
  const CAPACITY := 100_000  // of the simulation's cache

  ghost predicate Increasing(s: seq<int>) { forall i, j :: 0 <= i < j < |s| ==> s[i] < s[j] }

  /** Insertion that keeps one copy of each element. */
  function InsertOnce(s: seq<int>, x: int): seq<int> {
    if s == [] || x < s[0] then [x] + s
    else if x == s[0] then s
    else [s[0]] + InsertOnce(s[1..], x)
  }

  lemma {:induction false} InsertOnceOk(s: seq<int>, x: int)
    requires Increasing(s)
    ensures Increasing(InsertOnce(s, x)) && forall y :: y in InsertOnce(s, x) <==> y in s || y == x
  {
    if s != [] && x > s[0] {
      var rest := InsertOnce(s[1..], x);
      InsertOnceOk(s[1..], x);
      forall i | 0 <= i < |rest| ensures s[0] < rest[i] { assert rest[i] in rest; }
      assert forall y :: y in s <==> y == s[0] || y in s[1..];
    }
  }

  /** sorted(set(...)) */
  function SortedSet(xs: seq<int>): seq<int> {
    if xs == [] then [] else InsertOnce(SortedSet(xs[..|xs| - 1]), xs[|xs| - 1])
  }

  lemma {:induction false} SortedSetOk(xs: seq<int>)
    ensures Increasing(SortedSet(xs)) && forall y :: y in SortedSet(xs) <==> y in xs
  {
    if xs != [] {
      var front, last := xs[..|xs| - 1], xs[|xs| - 1];
      SortedSetOk(front);
      InsertOnceOk(SortedSet(front), last);
      assert forall y :: y in xs <==> y in front || y == last;
    }
  }

  /** An increasing sequence is determined by its elements. */
  lemma {:induction false} IncreasingIsDetermined(s: seq<int>, t: seq<int>)
    requires Increasing(s) && Increasing(t) && forall y :: y in s <==> y in t
    ensures s == t
  {
    assert s != [] ==> s[0] in s;
    assert t != [] ==> t[0] in t;
    if s != [] {
      forall y ensures y in s[1..] <==> y in t[1..] {
        assert y in s <==> y == s[0] || y in s[1..];
        assert y in t <==> y == t[0] || y in t[1..];
      }
      IncreasingIsDetermined(s[1..], t[1..]);
    }
  }

  function Markers(indices: seq<int>): seq<int> {
    if indices == [] then [] else Block(indices[0]) + Markers(indices[1..])
  }

  /** The eight marker tokens of one document. */
  function Block(index: int): seq<int> { seq(8, _ => MARKER + index) }

  lemma OneMoreBlock(tokens: seq<int>, indices: seq<int>, i: nat)
    requires i < |indices|
    ensures tokens + Markers(indices[i..]) == tokens + Block(indices[i]) + Markers(indices[i + 1..])
  {
    assert indices[i..][1..] == indices[i + 1..];
  }

  function Query(count: nat): seq<int> { seq(count, j requires 0 <= j < count => QUERY + j) }

  function Encoded(indices: seq<int>, queryTokens: nat): seq<int> { Markers(indices) + Query(queryTokens) }

  /** Eight equal tokens are a marker block; a query block never starts with them, whatever the indices. */
  function Decoded(tokens: seq<int>): (seq<int>, nat)
    decreases |tokens|
  {
    if |tokens| >= 8 && forall i :: 0 <= i < 8 ==> tokens[i] == tokens[0] then
      var (indices, queryTokens) := Decoded(tokens[8..]);
      ([tokens[0] - MARKER] + indices, queryTokens)
    else ([], |tokens|)
  }

  lemma {:induction false} DecodesEncoded(indices: seq<int>, queryTokens: nat)
    ensures Decoded(Encoded(indices, queryTokens)) == (indices, queryTokens)
  {
    var tokens := Encoded(indices, queryTokens);
    if indices == [] {
      assert tokens == Query(queryTokens);
      assert |tokens| >= 8 ==> tokens[1] != tokens[0];
    } else {
      assert tokens[8..] == Encoded(indices[1..], queryTokens);
      assert forall i :: 0 <= i < 8 ==> tokens[i] == MARKER + indices[0];
      DecodesEncoded(indices[1..], queryTokens);
      assert indices == [indices[0]] + indices[1..];
    }
  }

  ghost predicate SameMembers(a: seq<int>, b: seq<int>) { forall y :: y in a <==> y in b }

  lemma SameSortedSetIff(a: seq<int>, b: seq<int>)
    ensures SortedSet(a) == SortedSet(b) <==> SameMembers(a, b)
  {
    SortedSetOk(a);
    SortedSetOk(b);
    if SameMembers(a, b) {
      IncreasingIsDetermined(SortedSet(a), SortedSet(b));
    } else {
      var y :| (y in a) != (y in b);
      assert (y in SortedSet(a)) != (y in SortedSet(b));
    }
  }

  /** Two prefixes are the same exactly if the document sets and the query lengths are, whatever the order and the
      duplicates, and even for indices whose markers look like query tokens. */
  lemma SamePrefixIff(a: seq<int>, q: nat, b: seq<int>, r: nat)
    ensures Encoded(SortedSet(a), q) == Encoded(SortedSet(b), r) <==> SameMembers(a, b) && q == r
  {
    SameSortedSetIff(a, b);
    DecodesEncoded(SortedSet(a), q);
    DecodesEncoded(SortedSet(b), r);
  }

  lemma {:induction false} MarkersAre(indices: seq<int>, t: nat)
    requires t < 8 * |indices|
    ensures |Markers(indices)| == 8 * |indices| && Markers(indices)[t] == 500_000 + indices[t / 8]
  {
    MarkersSize(indices);
    if t >= 8 { MarkersAre(indices[1..], t - 8); }
  }

  lemma {:induction false} MarkersSize(indices: seq<int>)
    ensures |Markers(indices)| == 8 * |indices|
  {
    if indices != [] { MarkersSize(indices[1..]); }
  }

  /** The encoding, token by token: eight for each index, and then the query. */
  ghost predicate Encodes(tokens: seq<int>, indices: seq<int>, queryTokens: nat) {
    && |tokens| == 8 * |indices| + queryTokens
    && forall t :: 0 <= t < |tokens| ==>
         tokens[t] == if t < 8 * |indices| then 500_000 + indices[t / 8] else 900_000 + t - 8 * |indices|
  }

  lemma EncodedEncodes(indices: seq<int>, queryTokens: nat)
    ensures Encodes(Encoded(indices, queryTokens), indices, queryTokens)
  {
    MarkersSize(indices);
    var tokens := Encoded(indices, queryTokens);
    forall t | 0 <= t < 8 * |indices| ensures tokens[t] == 500_000 + indices[t / 8] { MarkersAre(indices, t); }
  }

  /** The documents' indices without duplicates, in ascending order, eight tokens for each, and then the query. */
  method BuildPrefixTokens(docIndices: seq<int>, queryTokens: nat) returns (tokens: seq<int>)
    ensures tokens == Encoded(SortedSet(docIndices), queryTokens)
    ensures Encodes(tokens, SortedSet(docIndices), queryTokens)
  {
    var unique := SortedSet(docIndices);
    tokens := [];
    for i := 0 to |unique|
      invariant tokens + Markers(unique[i..]) == Markers(unique)
    {
      OneMoreBlock(tokens, unique, i);
      tokens := tokens + Block(unique[i]);
    }
    assert tokens == Markers(unique);
    for j := 0 to queryTokens
      invariant tokens == Markers(unique) + Query(queryTokens)[..j]
    {
      tokens := tokens + [QUERY + j];
    }
    EncodedEncodes(unique, queryTokens);
  }

  // ----- the request loop -----

  /** The requests that find their hash missing. */
  function MissCount(capacity: nat, hashes: seq<string>): nat {
    if hashes == [] then 0
    else
      var before, h := hashes[..|hashes| - 1], hashes[|hashes| - 1];
      MissCount(capacity, before) + if h in Requests(capacity, before) then 0 else 1
  }

  lemma OneMoreRequest(capacity: nat, hashes: seq<string>, h: string)
    ensures var before := Requests(capacity, hashes);
            && Requests(capacity, hashes + [h]) == Request(before, capacity, h)
            && MissCount(capacity, hashes + [h]) == MissCount(capacity, hashes) + if h in before then 0 else 1
  {
    assert (hashes + [h])[..|hashes|] == hashes;
  }

  function Distincts(hashes: seq<string>): set<string> { set h | h in hashes }

  /** While the distinct hashes fit, a hash is cached exactly if it was requested before. */
  lemma FittingHoldsAll(capacity: nat, hashes: seq<string>, h: string)
    requires capacity >= 1 && |Distincts(hashes)| <= capacity
    ensures h in Requests(capacity, hashes) <==> h in hashes
  {
    HoldsMostRecent(capacity, hashes);
    var ops, order := Uses(hashes), Order(Uses(hashes));
    OrderIsByLastUse(ops);
    forall k ensures k in order <==> k in hashes { UsedIffRequested(hashes, k); }
    RecentCounts(order, Distincts(hashes));
  }

  lemma {:induction false} UsedIffRequested(hashes: seq<string>, k: string)
    ensures (exists i :: LastUse(Uses(hashes), k, i)) <==> k in hashes
  {
    if hashes != [] {
      var before, last, ops := hashes[..|hashes| - 1], hashes[|hashes| - 1], Uses(hashes);
      UsedIffRequested(before, k);
      assert ops[..|ops| - 1] == Uses(before);
      LastUseOneMore(ops, Uses(before), Use(last));
      if k == last {
        assert LastUse(ops, k, |ops| - 1);
      } else if k in before {
        var i :| LastUse(Uses(before), k, i);
        assert LastUse(ops, k, i);
      }
    }
  }

  lemma DistinctsOneMore(hashes: seq<string>)
    requires hashes != []
    ensures var before, last := hashes[..|hashes| - 1], hashes[|hashes| - 1];
            |Distincts(hashes)| == |Distincts(before)| + if last in before then 0 else 1
  {
    var before, last := hashes[..|hashes| - 1], hashes[|hashes| - 1];
    assert Distincts(hashes) == Distincts(before) + {last};
    assert last in before <==> last in Distincts(before);
  }

  /** While the distinct hashes fit, there are as many misses as distinct hashes. */
  lemma {:induction false} FittingMissesOncePerHash(capacity: nat, hashes: seq<string>)
    requires capacity >= 1 && |Distincts(hashes)| <= capacity
    ensures MissCount(capacity, hashes) == |Distincts(hashes)|
  {
    if hashes != [] {
      var before, last := hashes[..|hashes| - 1], hashes[|hashes| - 1];
      DistinctsOneMore(hashes);
      FittingMissesOncePerHash(capacity, before);
      FittingHoldsAll(capacity, before, last);
    }
  }

  /** The hash of each request's prefix. */
  function HashesOf(docs: seq<seq<int>>, q: nat, hash: seq<int> -> string): seq<string> {
    seq(|docs|, i requires 0 <= i < |docs| => hash(Encoded(SortedSet(docs[i]), q)))
  }

  lemma OneMoreHash(docs: seq<seq<int>>, q: nat, hash: seq<int> -> string, i: nat)
    requires i < |docs|
    ensures HashesOf(docs, q, hash)[..i + 1] == HashesOf(docs, q, hash)[..i] + [hash(Encoded(SortedSet(docs[i]), q))]
  {
  }

  /** No two of the requested prefixes collide. */
  ghost predicate CollisionFree(docs: seq<seq<int>>, q: nat, hash: seq<int> -> string) {
    forall i, j :: 0 <= i < j < |docs| && HashesOf(docs, q, hash)[i] == HashesOf(docs, q, hash)[j]
      ==> Encoded(SortedSet(docs[i]), q) == Encoded(SortedSet(docs[j]), q)
  }

  function Members(docs: seq<int>): set<int> { set d | d in docs }

  function DocumentSets(docs: seq<seq<int>>): set<set<int>> { set d | d in docs :: Members(d) }

  lemma SameMembersIff(a: seq<int>, b: seq<int>)
    ensures SameMembers(a, b) <==> Members(a) == Members(b)
  {
    if SameMembers(a, b) {
      forall y ensures y in Members(a) <==> y in Members(b) { assert y in a <==> y in b; }
      assert Members(a) == Members(b);
    } else {
      var y :| (y in a) != (y in b);
      assert (y in Members(a)) != (y in Members(b));
    }
  }

  lemma DocumentSetsOneMore(docs: seq<seq<int>>)
    requires docs != []
    ensures var before, last := DocumentSets(docs[..|docs| - 1]), Members(docs[|docs| - 1]);
            |DocumentSets(docs)| == |before| + if last in before then 0 else 1
  {
    var before, last := docs[..|docs| - 1], docs[|docs| - 1];
    assert forall d :: d in docs <==> d in before || d == last;
    assert DocumentSets(docs) == DocumentSets(before) + {Members(last)};
  }

  lemma SeenBeforeIff(docs: seq<seq<int>>, q: nat, hash: seq<int> -> string)
    requires docs != [] && CollisionFree(docs, q, hash)
    ensures var n, hashes := |docs| - 1, HashesOf(docs, q, hash);
            hashes[n] in hashes[..n] <==> Members(docs[n]) in DocumentSets(docs[..n])
  {
    var n, hashes := |docs| - 1, HashesOf(docs, q, hash);
    forall i | 0 <= i < n ensures hashes[i] == hashes[n] <==> Members(docs[i]) == Members(docs[n]) {
      SamePrefixIff(docs[i], q, docs[n], q);
      SameMembersIff(docs[i], docs[n]);
    }
    if hashes[n] in hashes[..n] {
      var i :| 0 <= i < n && hashes[i] == hashes[n];
      assert docs[i] in docs[..n];
    }
  }

  /** If no two prefixes collide, there are as many hashes as sets of retrieved documents. */
  lemma {:induction false} HashPerDocumentSet(docs: seq<seq<int>>, q: nat, hash: seq<int> -> string)
    requires CollisionFree(docs, q, hash)
    ensures |Distincts(HashesOf(docs, q, hash))| == |DocumentSets(docs)|
  {
    if docs != [] {
      var n := |docs| - 1;
      var before, hashes := docs[..n], HashesOf(docs, q, hash);
      assert hashes[..n] == HashesOf(before, q, hash);
      HashPerDocumentSet(before, q, hash);
      SeenBeforeIff(docs, q, hash);
      DistinctsOneMore(hashes);
      DocumentSetsOneMore(docs);
    }
  }

  /** If no two prefixes collide and the cache is large enough, the simulation misses exactly once for each set of
      documents that was ever retrieved, whatever their order and repetitions. */
  lemma MissesAreDocumentSets(capacity: nat, docs: seq<seq<int>>, q: nat, hash: seq<int> -> string)
    requires capacity >= 1 && CollisionFree(docs, q, hash) && |DocumentSets(docs)| <= capacity
    ensures MissCount(capacity, HashesOf(docs, q, hash)) == |DocumentSets(docs)|
  {
    HashPerDocumentSet(docs, q, hash);
    FittingMissesOncePerHash(capacity, HashesOf(docs, q, hash));
  }

  /** Every entry has the figures of `e`. */
  ghost predicate Priced(entries: map<string, Entry>, e: Entry) {
    forall h <- entries ::
      entries[h].tokenCount == e.tokenCount && entries[h].tflops == e.tflops && entries[h].costUsd == e.costUsd
  }

  lemma RequestKeepsPrice(p: Ordered, capacity: nat, h: string, e: Entry)
    requires Priced(p.entries, e)
    ensures Priced(p.Requested(capacity, h, e).entries, e)
  {
  }

  /** `n` additions of `x`. */
  function Added(n: nat, x: real): real { if n == 0 then 0.0 else Added(n - 1, x) + x }

  lemma {:induction false} AddedIsProduct(n: nat, x: real)
    ensures Added(n, x) == x * n as real
  {
    if n > 0 {
      AddedIsProduct(n - 1, x);
      assert x * (n - 1) as real + x == x * n as real;
    }
  }

  // What a request does to the three things that a run tallies, each by itself.

  lemma ListOneMore(p: Ordered, capacity: nat, hashes: seq<string>, h: string, e: Entry)
    requires p.WellFormed() && p.recent == Requests(capacity, hashes)
    ensures p.Requested(capacity, h, e).recent == Requests(capacity, hashes + [h])
  {
    OneMoreRequest(capacity, hashes, h);
    RequestedIsRequest(p, capacity, h, e);
  }

  lemma CountOneMore(p: Ordered, capacity: nat, hashes: seq<string>, h: string, hits: int)
    requires p.WellFormed() && p.recent == Requests(capacity, hashes) && hits == |hashes| - MissCount(capacity, hashes)
    ensures hits + (if h in p.entries then 1 else 0) == |hashes + [h]| - MissCount(capacity, hashes + [h])
  {
    OneMoreRequest(capacity, hashes, h);
  }

  lemma SaveOneMore(hits: nat, hits': nat, saved: real, saved': real, cost: real, hit: bool)
    requires saved == Added(hits, cost)
    requires if hit then hits' == hits + 1 && saved' == saved + cost else hits' == hits && saved' == saved
    ensures saved' == Added(hits', cost)
  {
  }

  /** The cache lists the most recently requested of `hashes`, has counted every request and every hit, and what it
      saved is one prefix cost for each hit. */
  ghost predicate Tallied(cache: OrderedCache, hashes: seq<string>, e: Entry)
    reads cache
  {
    && cache.Valid() && cache.recent == Requests(cache.capacity, hashes)
    && cache.totalRequests == |hashes| && cache.cacheHits == |hashes| - MissCount(cache.capacity, hashes)
    && Priced(cache.entries, e)
    && cache.savedUsd == Added(cache.cacheHits, e.costUsd) && cache.savedTflops == Added(cache.cacheHits, e.tflops)
  }

  /** One round of the loop: a lookup, and a store on a miss. */
  method Serve(cache: OrderedCache, ghost hashes: seq<string>, h: string, e: Entry)
    requires Tallied(cache, hashes, e)
    modifies cache
    ensures Tallied(cache, hashes + [h], e)
  {
    ghost var p, hits, saved, tflops := cache.View(), cache.cacheHits, cache.savedUsd, cache.savedTflops;
    ListOneMore(p, cache.capacity, hashes, h, e);
    CountOneMore(p, cache.capacity, hashes, h, hits);
    RequestKeepsPrice(p, cache.capacity, h, e);
    var found := cache.Lookup(h);
    if found.None? {
      cache.Store(h, e);
    }
    SaveOneMore(hits, cache.cacheHits, saved, cache.savedUsd, e.costUsd, found.Some?);
    SaveOneMore(hits, cache.cacheHits, tflops, cache.savedTflops, e.tflops, found.Some?);
  }

  /** The request loop, given each request's retrieved indices. */
  method RunRequests(cache: OrderedCache, docs: seq<seq<int>>, q: nat, hash: seq<int> -> string, e: Entry)
    requires cache.Valid() && cache.View() == Ordered([], map[])
    requires cache.totalRequests == cache.cacheHits == 0 && cache.savedUsd == cache.savedTflops == 0.0
    modifies cache
    ensures Tallied(cache, HashesOf(docs, q, hash), e)
  {
    ghost var hashes := HashesOf(docs, q, hash);
    for i := 0 to |docs|
      invariant Tallied(cache, hashes[..i], e)
    {
      var tokens := BuildPrefixTokens(docs[i], q);
      OneMoreHash(docs, q, hash, i);
      Serve(cache, hashes[..i], hash(tokens), e);
    }
    assert hashes[..|docs|] == hashes;
  }

  // ----- cost figures -----

  datatype Costs = Costs(withoutCache: real, withCache: real, savings: real, savingsPct: real, perRequestWithout: real,
                         perRequestWith: real, monthlyWithout: real, monthlyWith: real, monthlySavings: real)

  function CostsOf(costPerMiss: real, requests: nat, misses: nat, requestsPerDay: nat): Costs
    requires requests >= 1
  {
    var withoutCache := costPerMiss * requests as real;
    var withCache := costPerMiss * misses as real;
    var savings := withoutCache - withCache;
    var pct := if withoutCache > 0.0 then savings / withoutCache * 100.0 else 0.0;
    var perWithout, perWith := withoutCache / requests as real, withCache / requests as real;
    var monthly := (requestsPerDay * 30) as real;
    Costs(withoutCache, withCache, savings, pct, perWithout, perWith, perWithout * monthly, perWith * monthly,
          perWithout * monthly - perWith * monthly)
  }

  lemma Cancels(c: real, a: real, b: real)
    requires c != 0.0 && b != 0.0
    ensures c * b != 0.0 && c * a / (c * b) == a / b
  {
    var x := a / b;
    assert a == x * b;
    assert c * a == x * (c * b);
  }

  lemma MonthlyDifference(a: real, b: real, n: real, m: real)
    requires n != 0.0
    ensures a / n * m - b / n * m == (a - b) / n * m
  {
    assert a / n - b / n == (a - b) / n;
  }

  lemma SavingsAreAdded(cost: real, requests: nat, misses: nat)
    requires misses <= requests
    ensures cost * requests as real - cost * misses as real == Added(requests - misses, cost)
  {
    AddedIsProduct(requests - misses, cost);
    Distributes(cost, requests as real, misses as real, (requests - misses) as real);
  }

  lemma Distributes(x: real, a: real, b: real, d: real)
    requires d == a - b
    ensures x * a - x * b == x * d
  {
  }

  lemma ShareIsHitRate(cost: real, requests: nat, misses: nat)
    requires cost > 0.0 && requests >= 1 && misses <= requests
    ensures var n, m := requests as real, misses as real;
            cost * n > 0.0 && (cost * n - cost * m) / (cost * n) * 100.0 == HitRate(requests - misses, requests)
  {
    var n, m, hits := requests as real, misses as real, (requests - misses) as real;
    Cancels(cost, hits, n);
    Distributes(cost, n, m, hits);
  }

  /** The reported savings are exactly what the cache accumulated hit by hit; as a share of the cost they are the hit
      rate, whenever a request costs anything. */
  lemma SavingsAreWhatTheCacheSaved(cost: real, requests: nat, misses: nat, requestsPerDay: nat, savedUsd: real)
    requires cost >= 0.0 && requests >= 1 && misses <= requests && savedUsd == Added(requests - misses, cost)
    ensures var c := CostsOf(cost, requests, misses, requestsPerDay);
            && c.savings == savedUsd
            && (cost > 0.0 ==> c.savingsPct == HitRate(requests - misses, requests))
            && c.monthlySavings == savedUsd / requests as real * (requestsPerDay * 30) as real
  {
    SavingsAreAdded(cost, requests, misses);
    if cost > 0.0 { ShareIsHitRate(cost, requests, misses); }
    MonthlyDifference(cost * requests as real, cost * misses as real, requests as real, (requestsPerDay * 30) as real);
  }

  /** What the figures of a simulation say about what its cache did: without it every request pays for a prefix, with
      it every miss does. */
  ghost predicate Reports(c: Costs, stats: Stats, e: Entry, requestsPerDay: nat)
    requires stats.hits <= stats.requests && stats.requests >= 1
  {
    && Prices(c, e.costUsd, stats.requests, stats.misses, requestsPerDay)
    && c.savings == stats.savedUsd && stats.savedTflops == e.tflops * stats.hits as real
    && (e.costUsd > 0.0 ==> c.savingsPct == stats.hitRate)
    && c.monthlySavings == stats.savedUsd / stats.requests as real * (requestsPerDay * 30) as real
  }

  /** The figures with and without the cache, in all, for one request, and for thirty days. */
  ghost predicate Prices(c: Costs, cost: real, requests: nat, misses: nat, requestsPerDay: nat) {
    var n, m, monthly := requests as real, misses as real, (requestsPerDay * 30) as real;
    && c.withoutCache == cost * n && c.perRequestWithout == cost && c.monthlyWithout == cost * monthly
    && c.withCache == cost * m && c.perRequestWith * n == cost * m && c.monthlyWith == c.perRequestWith * monthly
  }

  lemma PerRequest(cost: real, n: real, m: real)
    requires n != 0.0
    ensures cost * n / n == cost && cost * m / n * n == cost * m
  {
  }

  lemma CostsArePrices(cost: real, requests: nat, misses: nat, requestsPerDay: nat)
    requires requests >= 1
    ensures Prices(CostsOf(cost, requests, misses, requestsPerDay), cost, requests, misses, requestsPerDay)
  {
    PerRequest(cost, requests as real, misses as real);
  }

  lemma FiguresReport(c: Costs, e: Entry, requestsPerDay: nat, stats: Stats)
    requires e.costUsd >= 0.0 && stats.requests >= 1 && stats.hits + stats.misses == stats.requests
    requires stats.savedUsd == Added(stats.hits, e.costUsd) && stats.savedTflops == Added(stats.hits, e.tflops)
    requires stats.hitRate == HitRate(stats.hits, stats.requests)
    requires c == CostsOf(e.costUsd, stats.requests, stats.misses, requestsPerDay)
    ensures Reports(c, stats, e, requestsPerDay)
  {
    AddedIsProduct(stats.hits, e.tflops);
    SavingsAreWhatTheCacheSaved(e.costUsd, stats.requests, stats.misses, requestsPerDay, stats.savedUsd);
    CostsArePrices(e.costUsd, stats.requests, stats.misses, requestsPerDay);
  }

  /** The requests of a simulation: what its cache counted and saved, hit by hit. */
  method Simulate(docs: seq<seq<int>>, q: nat, hash: seq<int> -> string, e: Entry) returns (stats: Stats)
    ensures stats.requests == |docs| && stats.hits + stats.misses == stats.requests
    ensures stats.hitRate == HitRate(stats.hits, stats.requests)
    ensures stats.savedUsd == Added(stats.hits, e.costUsd) && stats.savedTflops == Added(stats.hits, e.tflops)
    ensures stats.misses == MissCount(100_000, HashesOf(docs, q, hash))
  {
    var cache := new OrderedCache(CAPACITY);
    RunRequests(cache, docs, q, hash, e);
    stats := cache.GetStats();
  }

  /** The whole simulation, given each request's retrieved indices and the cost of one prefix. The reported savings
      are what its cache accumulated, their share is the cache's hit rate, and the misses it pays for are the sets of
      documents that were retrieved, if no two prefixes collide and they fit. */
  method RunSimulation(docs: seq<seq<int>>, q: nat, hash: seq<int> -> string, e: Entry, requestsPerDay: nat)
    returns (c: Costs, stats: Stats)
    requires docs != [] && e.costUsd >= 0.0
    ensures stats.requests == |docs| && stats.hits + stats.misses == stats.requests
    ensures Reports(c, stats, e, requestsPerDay)
    ensures stats.misses == MissCount(100_000, HashesOf(docs, q, hash))
    ensures CollisionFree(docs, q, hash) && |DocumentSets(docs)| <= 100_000 ==> stats.misses == |DocumentSets(docs)|
  {
    stats := Simulate(docs, q, hash, e);
    c := CostsOf(e.costUsd, stats.requests, stats.misses, requestsPerDay);
    FiguresReport(c, e, requestsPerDay, stats);
    if CollisionFree(docs, q, hash) && |DocumentSets(docs)| <= 100_000 {
      MissesAreDocumentSets(100_000, docs, q, hash);
    }
  }
}
