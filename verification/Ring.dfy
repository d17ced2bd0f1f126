/** The ring object of `internal/cluster/ring.go`: the sorted token array, its search and its compaction in place. */
module Ring {
  import opened RingModel
  import opened VirtualNodes

  // ----- the sorted token list -----

  ghost predicate Ascending(s: seq<Token>) { forall i, j :: 0 <= i < j < |s| ==> s[i] <= s[j] }

  lemma PrependAscends(t: Token, s: seq<Token>)
    requires Ascending(s) && forall x <- s :: t <= x
    ensures Ascending([t] + s)
  {
    assert forall i :: 0 <= i < |s| ==> s[i] in s;
  }

  function Insert(s: seq<Token>, t: Token): (r: seq<Token>)
    requires Ascending(s)
    ensures Ascending(r) && multiset(r) == multiset(s) + multiset{t}
  {
    if s == [] || t <= s[0] then
      PrependAscends(t, s);
      [t] + s
    else
      var rest := Insert(s[1..], t);
      InsertedAscends(s, t, rest);
      assert s == [s[0]] + s[1..];
      [s[0]] + rest
  }

  lemma InsertedAscends(s: seq<Token>, t: Token, rest: seq<Token>)
    requires s != [] && Ascending(s) && s[0] < t && Ascending(rest) && multiset(rest) == multiset(s[1..]) + multiset{t}
    ensures Ascending([s[0]] + rest)
  {
    forall x <- rest ensures s[0] <= x {
      assert x in multiset(rest);
      assert x == t || x in s[1..];
    }
    PrependAscends(s[0], rest);
  }

  /** sort.Slice by ascending token. */
  function Sorted(s: seq<Token>): (r: seq<Token>)
    ensures Ascending(r) && multiset(r) == multiset(s)
  {
    if s == [] then [] else
      assert s == s[..|s| - 1] + [s[|s| - 1]];
      Insert(Sorted(s[..|s| - 1]), s[|s| - 1])
  }

  ghost function Members(s: seq<Token>): set<Token> { set t | t in s }

  /** The first index at which the tokens reach `pos`, or the start if none does, is the clockwise successor. */
  lemma SearchFindsSuccessor(s: seq<Token>, pos: Token, idx: nat)
    requires s != [] && Ascending(s) && idx <= |s|
    requires (forall i :: 0 <= i < idx ==> s[i] < pos) && (forall i :: idx <= i < |s| ==> s[i] >= pos)
    ensures IsSuccessor(Members(s), pos, if idx == |s| then s[0] else s[idx])
  {
    var t := if idx == |s| then s[0] else s[idx];
    forall u <- Members(s) ensures Distance(pos, t) <= Distance(pos, u) {
      var i :| 0 <= i < |s| && s[i] == u;
      DistanceIs(pos, t);
      DistanceIs(pos, u);
    }
  }

  // ----- removal -----

  /** Indexing the token map as Go does: a missing token yields the empty name. */
  function NodeAt(tokens: TokenMap, t: Token): string { if t in tokens then tokens[t] else "" }

  /** One pass of Remove over the sorted tokens: the tokens kept, and the map after it. */
  function Scan(s: seq<Token>, tokens: TokenMap, node: string): (seq<Token>, TokenMap) {
    if s == [] then ([], tokens)
    else if NodeAt(tokens, s[0]) == node then Scan(s[1..], tokens - {s[0]}, node)
    else
      var (kept, after) := Scan(s[1..], tokens, node);
      ([s[0]] + kept, after)
  }

  /** One turn of the loop, with `front` already kept. */
  lemma ScanTurn(front: seq<Token>, s: seq<Token>, i: nat, tokens: TokenMap, node: string)
    requires i < |s|
    ensures NodeAt(tokens, s[i]) == node ==> Scan(s[i + 1..], tokens - {s[i]}, node) == Scan(s[i..], tokens, node)
    ensures NodeAt(tokens, s[i]) != node ==>
              && front + [s[i]] + Scan(s[i + 1..], tokens, node).0 == front + Scan(s[i..], tokens, node).0
              && Scan(s[i + 1..], tokens, node).1 == Scan(s[i..], tokens, node).1
  {
    assert s[i..][1..] == s[i + 1..];
    var kept := Scan(s[i + 1..], tokens, node).0;
    assert front + ([s[i]] + kept) == front + [s[i]] + kept;
  }

  lemma {:induction false} ScanMap(s: seq<Token>, tokens: TokenMap, node: string)
    ensures Scan(s, tokens, node).1 == map t | t in tokens && !(t in s && tokens[t] == node) :: tokens[t]
  {
    if s != [] {
      if NodeAt(tokens, s[0]) == node {
        ScanMap(s[1..], tokens - {s[0]}, node);
      } else {
        ScanMap(s[1..], tokens, node);
      }
      assert forall t :: t in s <==> t == s[0] || t in s[1..];
    }
  }

  /** A token of another node is kept as often as it occurs; of the removed node's, all occurrences but one are kept. */
  lemma {:induction false} ScanCount(s: seq<Token>, tokens: TokenMap, node: string, t: Token)
    ensures multiset(Scan(s, tokens, node).0)[t] ==
            if NodeAt(tokens, t) != node then multiset(s)[t]
            else if node == "" || t !in s then 0
            else multiset(s)[t] - 1
  {
    if s != [] {
      assert s == [s[0]] + s[1..];
      ScanCount(s[1..], tokens, node, t);
      ScanCount(s[1..], tokens - {s[0]}, node, t);
    }
  }

  lemma {:induction false} ScanAscends(s: seq<Token>, tokens: TokenMap, node: string)
    requires Ascending(s)
    ensures Ascending(Scan(s, tokens, node).0)
    ensures forall t <- Scan(s, tokens, node).0 :: t in s
  {
    if s != [] {
      ScanAscends(s[1..], tokens, node);
      ScanAscends(s[1..], tokens - {s[0]}, node);
      PrependAscends(s[0], Scan(s[1..], tokens, node).0);
    }
  }

  /** The list and the map hold the same tokens. */
  ghost predicate Clean(s: seq<Token>, tokens: TokenMap) { Members(s) == tokens.Keys }

  /** On a ring whose list and map agree, Remove takes exactly the node's tokens out of the map.  In the list it keeps
      every token of another node as often as it was there, and one occurrence less of each token of the node. */
  lemma RemoveIsWithoutNode(s: seq<Token>, tokens: TokenMap, node: string)
    requires Clean(s, tokens)
    ensures Scan(s, tokens, node).1 == WithoutNode(tokens, node)
    ensures forall t <- s :: multiset(Scan(s, tokens, node).0)[t] ==
              if tokens[t] != node then multiset(s)[t] else if node == "" then 0 else multiset(s)[t] - 1
    ensures forall t <- Scan(s, tokens, node).0 :: t in s
  {
    ScanMap(s, tokens, node);
    assert forall t :: t in tokens <==> t in Members(s);
    var kept := Scan(s, tokens, node).0;
    forall t: Token ensures t in kept ==> t in s {
      ScanCount(s, tokens, node, t);
      assert (t in kept <==> t in multiset(kept)) && (t in s <==> t in multiset(s));
    }
    forall t <- s ensures multiset(kept)[t] ==
      if tokens[t] != node then multiset(s)[t] else if node == "" then 0 else multiset(s)[t] - 1
    {
      assert t in Members(s);
      ScanCount(s, tokens, node, t);
    }
  }

  /** It also takes them out of the list, leaving no token without an owner, if and only if none of them is listed
      twice. */
  lemma RemoveStaysCleanIff(s: seq<Token>, tokens: TokenMap, node: string)
    requires Clean(s, tokens)
    ensures var (kept, after) := Scan(s, tokens, node);
            Clean(kept, after) <==> node == "" || forall t <- tokens :: tokens[t] == node ==> multiset(s)[t] <= 1
  {
    var (kept, after) := Scan(s, tokens, node);
    RemoveIsWithoutNode(s, tokens, node);
    forall t: Token ensures t in kept <==> t in tokens && (tokens[t] != node || (node != "" && multiset(s)[t] > 1)) {
      ScanCount(s, tokens, node, t);
      assert t in kept <==> t in multiset(kept);
      assert t in tokens <==> t in Members(s);
      assert t in s <==> t in multiset(s);
    }
    if t :| t in tokens && tokens[t] == node && node != "" && multiset(s)[t] > 1 {
      assert t in Members(kept) && t !in after;
    } else {
      assert forall t :: t in Members(kept) <==> t in after;
    }
  }

  /** Every token is listed once and has an owner. */
  ghost predicate Sound(s: seq<Token>, tokens: TokenMap) { Clean(s, tokens) && forall t <- s :: multiset(s)[t] == 1 }

  /** Removing any node leaves a sound ring sound. */
  lemma RemoveStaysSound(s: seq<Token>, tokens: TokenMap, node: string)
    requires Sound(s, tokens)
    ensures Sound(Scan(s, tokens, node).0, Scan(s, tokens, node).1)
  {
    var (kept, after) := Scan(s, tokens, node);
    forall t | t in tokens ensures multiset(s)[t] <= 1 { assert t in Members(s); }
    RemoveStaysCleanIff(s, tokens, node);
    forall t <- kept ensures multiset(kept)[t] == 1 {
      ScanCount(s, tokens, node, t);
      assert t in multiset(kept);
      assert t in multiset(s) && t in s;
    }
  }

  /** Adding a node leaves a sound ring sound if and only if its tokens are distinct and free. */
  lemma AddStaysSoundIff(s: seq<Token>, tokens: TokenMap, mine: seq<Token>, node: string, s': seq<Token>)
    requires Sound(s, tokens) && multiset(s') == multiset(s + mine)
    ensures Sound(s', WithNode(tokens, mine, node)) <==> forall t <- mine :: t !in tokens && multiset(mine)[t] == 1
  {
    SameMembers(s', s + mine);
    assert forall t :: t in s + mine <==> t in s || t in mine;
    assert Clean(s', WithNode(tokens, mine, node));
    forall t: Token
      ensures multiset(s')[t] == multiset(s)[t] + multiset(mine)[t] && (t in s' <==> t in s || t in mine)
      ensures (t in s <==> multiset(s)[t] > 0) && (t in mine <==> multiset(mine)[t] > 0) && (t in s <==> t in tokens)
    {
      assert t in s' <==> t in Members(s');
      assert t in s <==> t in Members(s);
      assert t in s <==> t in multiset(s);
      assert t in mine <==> t in multiset(mine);
    }
    if Sound(s', WithNode(tokens, mine, node)) {
      forall t <- mine ensures t !in tokens && multiset(mine)[t] == 1 { assert t in s'; }
    }
  }

  // ----- adding a node and removing it again -----

  lemma FirstIsLeast(a: seq<Token>, b: seq<Token>)
    requires a != [] && b != [] && Ascending(a) && multiset(a) == multiset(b)
    ensures a[0] <= b[0]
  {
    assert b[0] in multiset(a);
    assert b[0] in a;
  }

  lemma SameRests(a: seq<Token>, b: seq<Token>)
    requires a != [] && b != [] && a[0] == b[0] && multiset(a) == multiset(b)
    ensures multiset(a[1..]) == multiset(b[1..])
  {
    assert a == [a[0]] + a[1..] && b == [b[0]] + b[1..];
    assert multiset(a[1..]) == multiset(a) - multiset{a[0]};
  }

  /** A sorted list is determined by how often each token occurs. */
  lemma {:induction false} SortedIsUnique(a: seq<Token>, b: seq<Token>)
    requires Ascending(a) && Ascending(b) && multiset(a) == multiset(b)
    ensures a == b
  {
    if a == [] || b == [] {
      assert |multiset(a)| == |a| && |multiset(b)| == |b|;
    } else {
      FirstIsLeast(a, b);
      FirstIsLeast(b, a);
      SameRests(a, b);
      SortedIsUnique(a[1..], b[1..]);
    }
  }

  /** What adding and removing leaves in the list, token by token. */
  lemma AddThenRemoveCount(s: seq<Token>, tokens: TokenMap, mine: seq<Token>, node: string, s': seq<Token>, t: Token)
    requires tokens.Keys <= Members(s) && node !in tokens.Values && multiset(s') == multiset(s + mine)
    ensures multiset(Scan(s', WithNode(tokens, mine, node), node).0)[t] ==
            if t in mine then (if node == "" then 0 else multiset(s)[t] + multiset(mine)[t] - 1)
            else if node == "" && t !in tokens then 0
            else multiset(s)[t]
  {
    var all := WithNode(tokens, mine, node);
    ScanCount(s', all, node, t);
    assert multiset(s')[t] == multiset(s)[t] + multiset(mine)[t];
    assert (t in s' <==> t in multiset(s')) && (t in mine <==> t in multiset(mine)) && (t in s <==> t in multiset(s));
    if t !in mine && t in tokens { assert tokens[t] in tokens.Values && NodeAt(all, t) != node; }
  }

  /** When adding an absent node and removing it again restores the ring: its tokens must be free and distinct.  A node
      with the empty name is the exception: its duplicates go, but so does every token that had no owner. */
  ghost predicate Restorable(s: seq<Token>, tokens: TokenMap, mine: seq<Token>, node: string) {
    && (forall t <- mine :: t !in tokens)
    && if node == "" then Clean(s, tokens) else forall t <- mine :: multiset(mine)[t] == 1
  }

  /** Adding and removing leaves `t` listed as often as it was. */
  ghost predicate CountRestored(s: seq<Token>, tokens: TokenMap, mine: seq<Token>, node: string, t: Token) {
    if t in mine then (if node == "" then t !in s else multiset(mine)[t] == 1)
    else node != "" || t in tokens || t !in s
  }

  lemma CountRestoredIff(s: seq<Token>, tokens: TokenMap, mine: seq<Token>, node: string, s': seq<Token>)
    requires tokens.Keys <= Members(s) && node !in tokens.Values && multiset(s') == multiset(s + mine)
    ensures var kept := Scan(s', WithNode(tokens, mine, node), node).0;
            forall t: Token :: (multiset(kept)[t] == multiset(s)[t]) <==> CountRestored(s, tokens, mine, node, t)
  {
    var kept: seq<Token> := Scan(s', WithNode(tokens, mine, node), node).0;
    forall t: Token ensures (multiset(kept)[t] == multiset(s)[t]) <==> CountRestored(s, tokens, mine, node, t) {
      AddThenRemoveCount(s, tokens, mine, node, s', t);
      assert (t in s <==> t in multiset(s)) && (t in mine <==> t in multiset(mine));
      assert t in tokens ==> t in Members(s);
    }
  }

  lemma RestorableIff(s: seq<Token>, tokens: TokenMap, mine: seq<Token>, node: string)
    requires tokens.Keys <= Members(s)
    ensures Restorable(s, tokens, mine, node) <==>
            (forall t <- mine :: t !in tokens) && forall t: Token :: CountRestored(s, tokens, mine, node, t)
  {
    assert forall t: Token :: t in s <==> t in Members(s);
    if node == "" && !Clean(s, tokens) {
      var t :| t in Members(s) && t !in tokens;
      assert !CountRestored(s, tokens, mine, node, t);
    } else if node != "" {
      if t :| t in mine && multiset(mine)[t] != 1 { assert !CountRestored(s, tokens, mine, node, t); }
    }
  }

  /** On any ring, adding an absent node and removing it again restores list and map if and only if `Restorable`. */
  lemma AddThenRemoveRestoresIff(s: seq<Token>, tokens: TokenMap, mine: seq<Token>, node: string, s': seq<Token>)
    requires tokens.Keys <= Members(s) && node !in tokens.Values
    requires Ascending(s) && Ascending(s') && multiset(s') == multiset(s + mine)
    ensures Scan(s', WithNode(tokens, mine, node), node) == (s, tokens) <==> Restorable(s, tokens, mine, node)
  {
    var (kept, after) := Scan(s', WithNode(tokens, mine, node), node);
    MapAfterAddThenRemove(s, tokens, mine, node, s');
    CountRestoredIff(s, tokens, mine, node, s');
    RestorableIff(s, tokens, mine, node);
    ScanAscends(s', WithNode(tokens, mine, node), node);
    if forall t: Token :: CountRestored(s, tokens, mine, node, t) {
      assert multiset(kept) == multiset(s);
      SortedIsUnique(kept, s);
    } else {
      var t: Token :| !CountRestored(s, tokens, mine, node, t);
      assert multiset(kept)[t] != multiset(s)[t];
    }
  }

  lemma MapAfterAddThenRemove(s: seq<Token>, tokens: TokenMap, mine: seq<Token>, node: string, s': seq<Token>)
    requires tokens.Keys <= Members(s) && node !in tokens.Values && multiset(s') == multiset(s + mine)
    ensures var after := Scan(s', WithNode(tokens, mine, node), node).1;
            && (forall t <- mine :: t !in after)
            && (after == tokens <==> forall t <- mine :: t !in tokens)
  {
    var all := WithNode(tokens, mine, node);
    var after := Scan(s', all, node).1;
    ScanMap(s', all, node);
    SameMembers(s', s + mine);
    forall t: Token ensures t in s' <==> t in s || t in mine { assert t in s' <==> t in Members(s'); }
    forall t | t in tokens && t !in mine ensures t in after && after[t] == tokens[t] {
      assert tokens[t] in tokens.Values;
    }
    if forall t <- mine :: t !in tokens {
      assert after.Keys == tokens.Keys;
    }
  }

  // ----- what the ring answers -----

  /** What Get returns for a position: the node and address of its clockwise successor. A token without an owner
      answers with the empty name, yet counts as found. */
  ghost function Answer(s: seq<Token>, tokens: TokenMap, addrs: map<string, string>, pos: Token)
    : (string, string, bool)
  {
    if s == [] then ("", "", false)
    else
      assert s[0] in Members(s);
      var node := NodeAt(tokens, SuccessorOf(Members(s), pos));
      (node, if node in addrs then addrs[node] else "", true)
  }

  lemma AnswerAt(s: seq<Token>, tokens: TokenMap, addrs: map<string, string>, pos: Token, t: Token)
    requires IsSuccessor(Members(s), pos, t)
    ensures var node := NodeAt(tokens, t);
            Answer(s, tokens, addrs, pos) == (node, if node in addrs then addrs[node] else "", true)
  {
    assert t in s;
    SuccessorIsUnique(Members(s), pos, t, SuccessorOf(Members(s), pos));
  }

  /** If adding and removing restores the ring, every position is answered as before. */
  lemma AddThenRemoveKeepsAnswers(s: seq<Token>, tokens: TokenMap, mine: seq<Token>, node: string, s': seq<Token>,
                                  addrs: map<string, string>, addr: string, pos: Token)
    requires tokens.Keys <= Members(s) && node !in tokens.Values
    requires Ascending(s) && Ascending(s') && multiset(s') == multiset(s + mine)
    requires Restorable(s, tokens, mine, node)
    ensures var (kept, after) := Scan(s', WithNode(tokens, mine, node), node);
            Answer(kept, after, addrs[node := addr] - {node}, pos) == Answer(s, tokens, addrs, pos)
  {
    AddThenRemoveRestoresIff(s, tokens, mine, node, s');
    if s != [] {
      assert s[0] in Members(s);
      var t := SuccessorOf(Members(s), pos);
      if t in tokens { assert tokens[t] in tokens.Values; }
      assert NodeAt(tokens, t) != node;
    }
  }

  /** On a ring without duplicates, removing a node changes no answer but its own. */
  lemma RemoveKeepsOtherAnswers(s: seq<Token>, tokens: TokenMap, addrs: map<string, string>, node: string, pos: Token)
    requires Sound(s, tokens) && s != [] && Answer(s, tokens, addrs, pos).0 != node
    ensures var (kept, after) := Scan(s, tokens, node);
            Answer(kept, after, addrs - {node}, pos) == Answer(s, tokens, addrs, pos)
  {
    var (kept, after) := Scan(s, tokens, node);
    RemoveStaysSound(s, tokens, node);
    RemoveIsWithoutNode(s, tokens, node);
    assert s[0] in Members(s);
    var t := SuccessorOf(Members(s), pos);
    AnswerAt(s, tokens, addrs, pos, t);
    assert t in after;
    RemovalMovesOnlyItsOwn(tokens, node, pos, t);
    AnswerAt(kept, after, addrs - {node}, pos, t);
  }

  // ----- the ring -----

  class Ring {
    const hash: string -> Token
    const virtualNodes: nat
    var tokens: TokenMap
    var buf: array<Token>
    var count: nat
    var addrs: map<string, string>

    /** The token list: the first `count` slots of the backing array. */
    ghost function List(): seq<Token>
      requires count <= buf.Length
      reads this, buf
    {
      buf[..count]
    }

    ghost predicate Valid()
      reads this, buf
    {
      count <= buf.Length && Ascending(List()) && tokens.Keys <= Members(List())
    }

    /** What Get returns for a key. */
    ghost function Answered(key: string): (string, string, bool)
      requires count <= buf.Length
      reads this, buf
    {
      Answer(List(), tokens, addrs, hash(key))
    }

    constructor (hash: string -> Token)
      ensures Valid() && List() == [] && tokens == map[] && addrs == map[] && fresh(buf)
      ensures this.hash == hash && virtualNodes == 150
    {
      this.hash, virtualNodes := hash, 150;
      tokens, addrs, count := map[], map[], 0;
      buf := new Token[0];
    }

    method Add(node: string, addr: string)
      requires Valid()
      modifies this
      ensures Valid() && fresh(buf)
      ensures tokens == WithNode(old(tokens), TokensOf(hash, node, virtualNodes), node)
      ensures addrs == old(addrs)[node := addr] && OwnsAll(tokens, hash, node, virtualNodes)
      ensures multiset(List()) == multiset(old(List()) + TokensOf(hash, node, virtualNodes))
    {
      addrs := addrs[node := addr];
      AddedOwnsAll(tokens, hash, node, virtualNodes);
      var all := PlaceTokens(node);
      Install(all);
    }

    /** The loop of Add. */
    method PlaceTokens(node: string) returns (all: seq<Token>)
      requires Valid()
      modifies this`tokens
      ensures tokens == WithNode(old(tokens), TokensOf(hash, node, virtualNodes), node)
      ensures all == List() + TokensOf(hash, node, virtualNodes) && tokens.Keys <= Members(all)
    {
      all := buf[..count];
      ghost var mine := TokensOf(hash, node, virtualNodes);
      assert WithNode(tokens, mine[..0], node) == tokens;
      for i := 0 to virtualNodes
        invariant all == List() + mine[..i] && tokens == WithNode(old(tokens), mine[..i], node)
      {
        var token := hash(Name(node, i));
        tokens := tokens[token := node];
        all := all + [token];
        OneMoreToken(old(tokens), mine, i, node);
      }
      assert mine[..virtualNodes] == mine;
    }

    method Install(all: seq<Token>)
      requires tokens.Keys <= Members(all)
      modifies this`buf, this`count
      ensures Valid() && fresh(buf) && multiset(List()) == multiset(all)
    {
      var sorted := Sorted(all);
      SameMembers(all, sorted);
      buf := new Token[|sorted|](i requires 0 <= i < |sorted| => sorted[i]);
      count := |sorted|;
      assert List() == sorted;
    }

    method Remove(node: string)
      requires Valid()
      modifies this, buf
      ensures Valid() && buf == old(buf) && addrs == old(addrs) - {node}
      ensures (List(), tokens) == Scan(old(List()), old(tokens), node)
    {
      addrs := addrs - {node};
      ScanAscends(List(), tokens, node);
      ScanKeepsMapped(List(), tokens, node);
      count := Compact(node);
    }

    /** The loop of Remove: the tokens kept are written over the front of the very array that is being read. */
    method Compact(node: string) returns (kept: nat)
      requires count <= buf.Length
      modifies this`tokens, buf
      ensures kept <= count && (buf[..kept], tokens) == Scan(old(List()), old(tokens), node)
    {
      kept := 0;
      ghost var list := List();
      assert list[0..] == list;
      for i := 0 to count
        invariant kept <= i && buf[i..count] == list[i..]
        invariant Scan(list, old(tokens), node).0 == buf[..kept] + Scan(list[i..], tokens, node).0
        invariant Scan(list, old(tokens), node).1 == Scan(list[i..], tokens, node).1
      {
        var token := buf[i];
        ghost var front := buf[..kept];
        ScanTurn(front, list, i, tokens, node);
        if NodeAt(tokens, token) == node {
          tokens := tokens - {token};
        } else {
          buf[kept] := token;
          kept := kept + 1;
          assert buf[..kept] == front + [token];
        }
      }
      assert list[count..] == [];
      assert buf[..kept] + [] == buf[..kept];
    }

    /** The owner of a key's position.  The answer is "not found" only on an empty ring. */
    method Get(key: string) returns (node: string, addr: string, ok: bool)
      requires Valid()
      ensures (node, addr, ok) == Answered(key)
      ensures ok && Clean(List(), tokens) ==> Owns(tokens, hash(key), node)
      ensures ok ==> addr == if node in addrs then addrs[node] else ""
    {
      if count == 0 {
        return "", "", false;
      }
      var position := hash(key);
      var lo, hi := 0, count;
      while lo < hi
        invariant 0 <= lo <= hi <= count
        invariant forall i :: 0 <= i < lo ==> buf[i] < position
        invariant forall i :: hi <= i < count ==> buf[i] >= position
      {
        var mid := (lo + hi) / 2;
        if buf[mid] < position { lo := mid + 1; } else { hi := mid; }
      }
      SearchFindsSuccessor(List(), position, lo);
      var idx := if lo == count then 0 else lo;
      AnswerAt(List(), tokens, addrs, position, buf[idx]);
      node := NodeAt(tokens, buf[idx]);
      addr := if node in addrs then addrs[node] else "";
      ok := true;
    }
  }

  /** Adding a node twice and removing it once leaves tokens without an owner: every key is then found on a node with
      the empty name. Only a node that itself has the empty name leaves the ring empty. */
  method AddTwiceRemoveOnce(hash: string -> Token, id: string, addr: string, key: string)
    returns (ring: Ring, node: string, at: string, ok: bool)
    ensures fresh(ring) && ring.Valid() && ring.tokens == map[] && (ring.List() != [] <==> id != "")
    ensures (node, at, ok) == ("", "", id != "")
  {
    ring := new Ring(hash);
    ring.Add(id, addr);
    ghost var mine, once := TokensOf(hash, id, 150), ring.List();
    ring.Add(id, addr);
    ghost var twice, tokens := ring.List(), ring.tokens;
    assert [] + mine == mine;
    ring.Remove(id);
    TwiceListed(mine, once, twice, tokens, id);
    assert ring.addrs == map[];
    node, at, ok := ring.Get(key);
  }

  /** Adding a node to a ring of other nodes: if the hash keeps the names apart, the ring stays sound and lists as many
      tokens more as there are virtual nodes. */
  method AddAbsent(ring: Ring, ghost nodes: set<string>, node: string, addr: string)
    requires ring.Valid() && Sound(ring.List(), ring.tokens)
    requires Carries(ring.tokens, ring.hash, nodes, ring.virtualNodes) && node !in nodes
    requires HashesApart(ring.hash, nodes + {node}, ring.virtualNodes)
    modifies ring
    ensures ring.Valid() && Sound(ring.List(), ring.tokens) && ring.addrs == old(ring.addrs)[node := addr]
    ensures Carries(ring.tokens, ring.hash, nodes + {node}, ring.virtualNodes)
    ensures |ring.List()| == |old(ring.List())| + ring.virtualNodes
    ensures forall t <- old(ring.tokens) :: t in ring.tokens && ring.tokens[t] == old(ring.tokens)[t]
  {
    ghost var list, tokens, mine := ring.List(), ring.tokens, TokensOf(ring.hash, node, ring.virtualNodes);
    AbsentIsFree(tokens, ring.hash, nodes, ring.virtualNodes, node);
    ring.Add(node, addr);
    AddStaysSoundIff(list, tokens, mine, node, ring.List());
    AddCarries(tokens, ring.hash, nodes, ring.virtualNodes, node);
    SameSize(ring.List(), list + mine);
  }

  lemma SameSize(s: seq<Token>, r: seq<Token>)
    requires multiset(s) == multiset(r)
    ensures |s| == |r|
  {
    assert |s| == |multiset(s)| && |r| == |multiset(r)|;
  }

  /** Adding a node to a ring of other nodes and removing it again restores list, map and addresses, if the hash keeps
      the names apart. */
  method AddThenRemove(ring: Ring, ghost nodes: set<string>, node: string, addr: string)
    requires ring.Valid() && Sound(ring.List(), ring.tokens) && node !in ring.addrs
    requires Carries(ring.tokens, ring.hash, nodes, ring.virtualNodes) && node !in nodes
    requires HashesApart(ring.hash, nodes + {node}, ring.virtualNodes)
    modifies ring
    ensures ring.Valid() && ring.List() == old(ring.List())
    ensures ring.tokens == old(ring.tokens) && ring.addrs == old(ring.addrs)
  {
    ghost var list, tokens, addrs := ring.List(), ring.tokens, ring.addrs;
    ghost var all := AddAndRemove(ring, node, addr);
    ApartIsRestored(list, tokens, ring.hash, nodes, ring.virtualNodes, node, all);
    assert addrs[node := addr] - {node} == addrs;
  }

  /** `all` is the list in between. */
  method AddAndRemove(ring: Ring, node: string, addr: string) returns (ghost all: seq<Token>)
    requires ring.Valid()
    modifies ring
    ensures ring.Valid() && ring.addrs == old(ring.addrs)[node := addr] - {node}
    ensures Ascending(all) && multiset(all) == multiset(old(ring.List()) + TokensOf(ring.hash, node, ring.virtualNodes))
    ensures var mine := TokensOf(ring.hash, node, ring.virtualNodes);
            (ring.List(), ring.tokens) == Scan(all, WithNode(old(ring.tokens), mine, node), node)
  {
    ring.Add(node, addr);
    all := ring.List();
    ring.Remove(node);
  }

  lemma ApartIsRestored(s: seq<Token>, tokens: TokenMap, hash: string -> Token, nodes: set<string>, count: nat,
                        node: string, s': seq<Token>)
    requires Ascending(s) && Ascending(s') && Sound(s, tokens)
    requires multiset(s') == multiset(s + TokensOf(hash, node, count))
    requires Carries(tokens, hash, nodes, count) && node !in nodes && HashesApart(hash, nodes + {node}, count)
    ensures Scan(s', WithNode(tokens, TokensOf(hash, node, count), node), node) == (s, tokens)
  {
    AbsentIsFree(tokens, hash, nodes, count, node);
    AddThenRemoveRestoresIff(s, tokens, TokensOf(hash, node, count), node, s');
  }

  lemma TwiceListed(mine: seq<Token>, once: seq<Token>, twice: seq<Token>, tokens: TokenMap, node: string)
    requires mine != [] && multiset(once) == multiset(mine) && multiset(twice) == multiset(once + mine)
    requires tokens == WithNode(WithNode(map[], mine, node), mine, node)
    ensures var (kept, after) := Scan(twice, tokens, node); after == map[] && (kept != [] <==> node != "")
  {
    var (kept, after) := Scan(twice, tokens, node);
    assert tokens == map t | t in mine :: node;
    ScanMap(twice, tokens, node);
    forall t: Token ensures multiset(twice)[t] == 2 * multiset(mine)[t] {}
    forall t: Token ensures (t in mine <==> multiset(mine)[t] > 0) && (t in twice <==> t in mine) {
      assert (t in mine <==> t in multiset(mine)) && (t in twice <==> t in multiset(twice));
    }
    assert after == map[];
    ScanCount(twice, tokens, node, mine[0]);
    assert mine[0] in mine;
    if node == "" {
      forall t: Token ensures multiset(kept)[t] == 0 { ScanCount(twice, tokens, node, t); }
      assert multiset(kept) == multiset{} && |kept| == |multiset(kept)|;
    } else {
      assert mine[0] in multiset(kept) && mine[0] in kept;
    }
  }

  lemma OneMoreToken(tokens: TokenMap, mine: seq<Token>, i: nat, node: string)
    requires i < |mine|
    ensures WithNode(tokens, mine[..i + 1], node) == WithNode(tokens, mine[..i], node)[mine[i] := node]
  {
    assert mine[..i + 1] == mine[..i] + [mine[i]];
  }

  lemma SameMembers(s: seq<Token>, r: seq<Token>)
    requires multiset(s) == multiset(r)
    ensures Members(s) == Members(r)
  {
    forall t: Token ensures t in s <==> t in r {
      assert t in s <==> t in multiset(s);
      assert t in r <==> t in multiset(r);
    }
  }

  lemma ScanKeepsMapped(s: seq<Token>, tokens: TokenMap, node: string)
    requires tokens.Keys <= Members(s)
    ensures Scan(s, tokens, node).1.Keys <= Members(Scan(s, tokens, node).0)
  {
    ScanMap(s, tokens, node);
    var (kept, after) := Scan(s, tokens, node);
    forall t <- after ensures t in kept {
      assert t in Members(s);
      ScanCount(s, tokens, node, t);
      assert t in multiset(s) && t in multiset(kept);
    }
  }
}
