/** The consistent hashing ring of `internal/cluster/ring.go` as values: clockwise ownership over a token map, and what
    adding and removing nodes does to it. */
module RingModel {
  import opened Recency

  const RING_SIZE := 0x1_0000_0000

  type Token = t: int | 0 <= t < RING_SIZE

  // ----- clockwise ownership -----

  /** How far clockwise from `pos` the token `t` lies. */
  function Distance(pos: Token, t: Token): int { (t - pos) % RING_SIZE }

  /** `t` is the first token at or clockwise after `pos`. */
  ghost predicate IsSuccessor(tokens: set<Token>, pos: Token, t: Token) {
    t in tokens && forall u <- tokens :: Distance(pos, t) <= Distance(pos, u)
  }

  lemma SuccessorIsUnique(tokens: set<Token>, pos: Token, t: Token, u: Token)
    requires IsSuccessor(tokens, pos, t) && IsSuccessor(tokens, pos, u)
    ensures t == u
  {
    assert Distance(pos, t) == Distance(pos, u);
  }

  lemma {:induction false} SuccessorExists(tokens: set<Token>, pos: Token) returns (t: Token)
    requires tokens != {}
    ensures IsSuccessor(tokens, pos, t)
    decreases tokens
  {
    t :| t in tokens;
    if tokens != {t} {
      var u := SuccessorExists(tokens - {t}, pos);
      if Distance(pos, u) < Distance(pos, t) { t := u; }
    }
  }

  lemma SuccessorIsThere(tokens: set<Token>, pos: Token)
    requires tokens != {}
    ensures exists t :: IsSuccessor(tokens, pos, t)
  {
    var t := SuccessorExists(tokens, pos);
  }

  ghost function SuccessorOf(tokens: set<Token>, pos: Token): (t: Token)
    requires tokens != {}
    ensures IsSuccessor(tokens, pos, t)
  {
    SuccessorIsThere(tokens, pos);
    var t :| IsSuccessor(tokens, pos, t);
    t
  }

  type TokenMap = map<Token, string>

  /** `node` owns position `pos`. */
  ghost predicate Owns(tokens: TokenMap, pos: Token, node: string) {
    exists t :: IsSuccessor(tokens.Keys, pos, t) && tokens[t] == node
  }

  lemma OwnerIsUnique(tokens: TokenMap, pos: Token, a: string, b: string)
    requires Owns(tokens, pos, a) && Owns(tokens, pos, b)
    ensures a == b
  {
    var t :| IsSuccessor(tokens.Keys, pos, t) && tokens[t] == a;
    var u :| IsSuccessor(tokens.Keys, pos, u) && tokens[u] == b;
    SuccessorIsUnique(tokens.Keys, pos, t, u);
  }

  // ----- minimal remapping -----

  function WithNode(tokens: TokenMap, added: seq<Token>, node: string): TokenMap {
    tokens + map t | t in added :: node
  }

  function WithoutNode(tokens: TokenMap, node: string): TokenMap {
    map t | t in tokens && tokens[t] != node :: tokens[t]
  }

  /** Removing a node moves only the positions whose token `t` was its own.  Such a position moves to where `t` itself
      moves: to the next surviving token clockwise after `t`, and so the whole arc of a removed token moves together. */
  lemma RemovalMovesOnlyItsOwn(tokens: TokenMap, node: string, pos: Token, t: Token)
    requires IsSuccessor(tokens.Keys, pos, t) && WithoutNode(tokens, node) != map[]
    ensures var rest := WithoutNode(tokens, node);
            && (tokens[t] != node ==> IsSuccessor(rest.Keys, pos, t) && Owns(rest, pos, tokens[t]))
            && (exists u :: IsSuccessor(rest.Keys, pos, u) && IsSuccessor(rest.Keys, t, u))
            && (forall n :: Owns(rest, pos, n) <==> Owns(rest, t, n))
  {
    var rest := WithoutNode(tokens, node);
    var u := SuccessorExists(rest.Keys, pos);
    SuccessorFromToken(tokens.Keys, rest.Keys, pos, t, u);
    forall n ensures Owns(rest, pos, n) <==> Owns(rest, t, n) {
      if Owns(rest, pos, n) { OwnerIsUnique(rest, pos, n, rest[u]); }
      if Owns(rest, t, n) { OwnerIsUnique(rest, t, n, rest[u]); }
    }
  }

  /** Among fewer tokens, the successor of a position is the successor of what its successor was. */
  lemma SuccessorFromToken(tokens: set<Token>, rest: set<Token>, pos: Token, t: Token, u: Token)
    requires rest <= tokens && IsSuccessor(tokens, pos, t) && IsSuccessor(rest, pos, u)
    ensures IsSuccessor(rest, t, u)
  {
    forall v <- rest ensures Distance(t, u) <= Distance(t, v) {
      DistanceFrom(pos, t, u);
      DistanceFrom(pos, t, v);
    }
  }

  lemma DistanceFrom(pos: Token, t: Token, u: Token)
    requires Distance(pos, t) <= Distance(pos, u)
    ensures Distance(t, u) == Distance(pos, u) - Distance(pos, t)
  {
    DistanceIs(pos, t);
    DistanceIs(pos, u);
    DistanceIs(t, u);
  }

  lemma DistanceIs(pos: Token, t: Token)
    ensures Distance(pos, t) == if t >= pos then t - pos else t - pos + RING_SIZE
  {
  }

  /** Adding a node moves positions only to it. */
  lemma AdditionMovesOnlyToIt(tokens: TokenMap, added: seq<Token>, node: string, pos: Token, owner: string)
    requires Owns(WithNode(tokens, added, node), pos, owner)
    ensures owner == node || Owns(tokens, pos, owner)
  {
    var all := WithNode(tokens, added, node);
    var t :| IsSuccessor(all.Keys, pos, t) && all[t] == owner;
    if t !in added {
      assert IsSuccessor(tokens.Keys, pos, t);
    }
  }

  // ----- order of insertion -----

  /** The ring after adding the members in order; `of` gives each node's tokens. */
  function Built(members: seq<string>, of: string -> seq<Token>): TokenMap {
    if members == [] then map[]
    else
      var node := members[|members| - 1];
      WithNode(Built(members[..|members| - 1], of), of(node), node)
  }

  /** No two different members share a token. */
  ghost predicate CollisionFree(members: set<string>, of: string -> seq<Token>) {
    forall a <- members, b <- members, t: Token {:trigger t in of(a), t in of(b)} :: t in of(a) && t in of(b) ==> a == b
  }

  /** Without collisions the ring maps each member's tokens to it, in whatever order they were added. */
  lemma {:induction false} BuiltIs(members: seq<string>, nodes: set<string>, of: string -> seq<Token>)
    requires Lists(members, nodes) && CollisionFree(nodes, of)
    ensures forall t: Token :: t in Built(members, of) <==> exists n <- nodes :: t in of(n)
    ensures forall n <- nodes, t: Token :: t in of(n) ==> t in Built(members, of) && Built(members, of)[t] == n
  {
    if members != [] {
      var last, before := members[|members| - 1], members[..|members| - 1];
      BuiltIs(before, nodes - {last}, of);
    }
  }

  /** The last node added owns the positions of its own tokens. */
  lemma LastWriterOwns(members: seq<string>, of: string -> seq<Token>, t: Token)
    requires members != [] && t in of(members[|members| - 1])
    ensures Owns(Built(members, of), t, members[|members| - 1])
  {
    assert IsSuccessor(Built(members, of).Keys, t, t);
  }

  ghost predicate SameOwners(a: TokenMap, b: TokenMap) {
    forall pos, node :: Owns(a, pos, node) <==> Owns(b, pos, node)
  }

  /** Rings that add the same members in any two orders agree on every position if and only if no two members share a
      token. */
  lemma OrderDoesNotMatterIff(nodes: set<string>, of: string -> seq<Token>)
    ensures CollisionFree(nodes, of) <==>
            forall l, m :: Lists(l, nodes) && Lists(m, nodes) ==> SameOwners(Built(l, of), Built(m, of))
  {
    if CollisionFree(nodes, of) {
      forall l, m | Lists(l, nodes) && Lists(m, nodes) ensures SameOwners(Built(l, of), Built(m, of)) {
        BuiltIs(l, nodes, of);
        BuiltIs(m, nodes, of);
        assert Built(l, of) == Built(m, of);
      }
    } else {
      var a, b, t: Token :| a in nodes && b in nodes && t in of(a) && t in of(b) && a != b;
      var l := ListEndingIn(nodes, a);
      var m := ListEndingIn(nodes, b);
      LastWriterOwns(l, of, t);
      LastWriterOwns(m, of, t);
      if Owns(Built(m, of), t, a) {
        OwnerIsUnique(Built(m, of), t, a, b);
      }
    }
  }
}
