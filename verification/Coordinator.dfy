/** Routing over the ring: `internal/cluster/coordinator.go`, and the start-up loop of `cmd/cachenode/main.go` that
    builds each node's ring. */
module Coordinator {
  import opened Recency
  import opened RingModel
  import opened Ring
  import opened VirtualNodes

  datatype Member = Member(id: string, addr: string)

  function Ids(members: seq<Member>): seq<string> { seq(|members|, i requires 0 <= i < |members| => members[i].id) }

  /** Where a new ring places the tokens of each node. */
  function Placing(hash: string -> Token): string -> seq<Token> { node => TokensOf(hash, node, 150) }

  /** If the names of the members hash apart, no two members share a token. */
  lemma ApartIsCollisionFree(hash: string -> Token, nodes: set<string>)
    requires HashesApart(hash, nodes, 150)
    ensures CollisionFree(nodes, Placing(hash))
  {
    forall a <- nodes, b <- nodes, t: Token | t in Placing(hash)(a) && t in Placing(hash)(b) ensures a == b {
      ApartTokens(hash, nodes, 150, a, b, t);
    }
  }

  /** The address of each member is the one it was added with last, and no other node has one. */
  ghost predicate Addressed(addrs: map<string, string>, members: seq<Member>, n: nat)
    requires n <= |members|
  {
    && (forall id <- addrs :: exists i :: 0 <= i < n && members[i].id == id)
    && (forall i :: 0 <= i < n ==> members[i].id in addrs)
    && (forall i :: 0 <= i < n && (forall j :: i < j < n ==> members[j].id != members[i].id) ==>
          addrs[members[i].id] == members[i].addr)
  }

  /** Each node adds itself first and then its peers, so every node may add the members in its own order.  The list has
      150 tokens for each, and if the names hash apart each of them is listed once and owned. */
  method BuildRing(hash: string -> Token, members: seq<Member>) returns (ring: Ring)
    ensures fresh(ring) && ring.Valid() && ring.hash == hash && Clean(ring.List(), ring.tokens)
    ensures ring.tokens == Built(Ids(members), Placing(hash)) && |ring.List()| == 150 * |members|
    ensures Addressed(ring.addrs, members, |members|)
    ensures forall nodes :: Lists(Ids(members), nodes) && HashesApart(hash, nodes, 150) ==>
              Sound(ring.List(), ring.tokens)
  {
    ring := new Ring(hash);
    for i := 0 to |members|
      invariant fresh(ring) && ring.Valid() && ring.hash == hash && ring.virtualNodes == 150
      invariant BuiltSoFar(hash, members, i, ring.List(), ring.tokens) && Addressed(ring.addrs, members, i)
    {
      ghost var list, tokens := ring.List(), ring.tokens;
      AddressOne(ring.addrs, members, i);
      ring.Add(members[i].id, members[i].addr);
      OneMoreMember(hash, members, i, list, tokens, ring.List(), ring.tokens);
    }
    BuiltWhole(hash, members, ring.List(), ring.tokens);
  }

  lemma AddressOne(addrs: map<string, string>, members: seq<Member>, n: nat)
    requires n < |members| && Addressed(addrs, members, n)
    ensures Addressed(addrs[members[n].id := members[n].addr], members, n + 1)
  {
    var addrs' := addrs[members[n].id := members[n].addr];
    forall i | 0 <= i < n + 1 && (forall j :: i < j < n + 1 ==> members[j].id != members[i].id)
      ensures addrs'[members[i].id] == members[i].addr
    {
      if i < n { assert members[n].id != members[i].id; }
    }
  }

  ghost predicate BuiltSoFar(hash: string -> Token, members: seq<Member>, i: nat, list: seq<Token>, tokens: TokenMap)
    requires i <= |members|
  {
    && Clean(list, tokens) && tokens == Built(Ids(members)[..i], Placing(hash)) && |list| == 150 * i
    && Carries(tokens, hash, IdSet(members, i), 150)
    && (Distinct(Ids(members)) && HashesApart(hash, IdSet(members, |members|), 150) ==> Sound(list, tokens))
  }

  ghost function IdSet(members: seq<Member>, i: nat): set<string>
    requires i <= |members|
  {
    set m <- members[..i] :: m.id
  }

  lemma IdSetGrows(members: seq<Member>, i: nat)
    requires i < |members|
    ensures IdSet(members, i + 1) == IdSet(members, i) + {members[i].id}
    ensures IdSet(members, i + 1) <= IdSet(members, |members|)
    ensures Distinct(Ids(members)) ==> members[i].id !in IdSet(members, i)
  {
    assert members[..i + 1] == members[..i] + [members[i]];
    forall m <- members[..i + 1] ensures m in members[..|members|] {
      var j :| 0 <= j < i + 1 && members[j] == m;
      assert members[..|members|][j] == m;
    }
    if Distinct(Ids(members)) {
      forall j | 0 <= j < i ensures members[j].id != members[i].id { assert Ids(members)[j] != Ids(members)[i]; }
    }
  }

  lemma BuiltWhole(hash: string -> Token, members: seq<Member>, list: seq<Token>, tokens: TokenMap)
    requires BuiltSoFar(hash, members, |members|, list, tokens)
    ensures Clean(list, tokens) && tokens == Built(Ids(members), Placing(hash)) && |list| == 150 * |members|
    ensures forall nodes :: Lists(Ids(members), nodes) && HashesApart(hash, nodes, 150) ==> Sound(list, tokens)
  {
    assert Ids(members)[..|members|] == Ids(members);
    forall nodes | Lists(Ids(members), nodes) && HashesApart(hash, nodes, 150) ensures Sound(list, tokens) {
      forall id ensures id in IdSet(members, |members|) ==> id in nodes {
        if id in IdSet(members, |members|) {
          var j :| 0 <= j < |members| && members[j].id == id;
          assert Ids(members)[j] == id;
        }
      }
      ApartSubset(hash, nodes, IdSet(members, |members|), 150);
    }
  }

  lemma OneMoreMember(hash: string -> Token, members: seq<Member>, i: nat, s: seq<Token>, tokens: TokenMap,
                      s': seq<Token>, tokens': TokenMap)
    requires i < |members| && BuiltSoFar(hash, members, i, s, tokens)
    requires tokens' == WithNode(tokens, TokensOf(hash, members[i].id, 150), members[i].id)
    requires multiset(s') == multiset(s + TokensOf(hash, members[i].id, 150))
    ensures BuiltSoFar(hash, members, i + 1, s', tokens')
  {
    AddStaysClean(s, tokens, TokensOf(hash, members[i].id, 150), members[i].id, s');
    assert Ids(members)[..i + 1][..i] == Ids(members)[..i];
    assert Placing(hash)(members[i].id) == TokensOf(hash, members[i].id, 150);
    IdSetGrows(members, i);
    AddCarries(tokens, hash, IdSet(members, i), 150, members[i].id);
    SameSize(s', s + TokensOf(hash, members[i].id, 150));
    if Distinct(Ids(members)) && HashesApart(hash, IdSet(members, |members|), 150) {
      MemberStaysSound(hash, members, i, s, tokens, s');
    }
  }

  lemma MemberStaysSound(hash: string -> Token, members: seq<Member>, i: nat, s: seq<Token>, tokens: TokenMap,
                         s': seq<Token>)
    requires i < |members| && Sound(s, tokens) && Carries(tokens, hash, IdSet(members, i), 150)
    requires Distinct(Ids(members)) && HashesApart(hash, IdSet(members, |members|), 150)
    requires multiset(s') == multiset(s + TokensOf(hash, members[i].id, 150))
    ensures Sound(s', WithNode(tokens, TokensOf(hash, members[i].id, 150), members[i].id))
  {
    IdSetGrows(members, i);
    ApartSubset(hash, IdSet(members, |members|), IdSet(members, i + 1), 150);
    AbsentIsFree(tokens, hash, IdSet(members, i), 150, members[i].id);
    AddStaysSoundIff(s, tokens, TokensOf(hash, members[i].id, 150), members[i].id, s');
  }

  lemma AddStaysClean(s: seq<Token>, tokens: TokenMap, mine: seq<Token>, node: string, s': seq<Token>)
    requires Clean(s, tokens) && multiset(s') == multiset(s + mine)
    ensures Clean(s', WithNode(tokens, mine, node))
  {
    SameMembers(s', s + mine);
    assert forall t :: t in s + mine <==> t in s || t in mine;
    assert forall t :: t in s <==> t in Members(s);
  }

  datatype Route = NoCoordinator | Unavailable | To(node: string, addr: string)

  datatype Ownership = Confirmed | NoRing | Mismatch

  /** The owner is routed to exactly if it is known to be healthy. */
  predicate Picks(r: Route, owner: string, health: map<string, bool>) {
    if owner in health && health[owner] then r.To? && r.node == owner else r == Unavailable
  }

  class Coordinator {
    const ring: Ring
    var health: map<string, bool>
    var isLeader: bool

    constructor (ring: Ring, health: map<string, bool>)
      ensures this.ring == ring && this.health == health && !isLeader
    {
      this.ring, this.health, isLeader := ring, health, false;
    }

    /** Only a leader with a non-empty ring routes.  It routes to the node that the ring answers with, if that is known
        to be healthy, and never to another; on a ring whose list and map agree that node owns the key. */
    method Route(key: string) returns (r: Route)
      requires ring.Valid()
      ensures r == NoCoordinator <==> !isLeader || ring.List() == []
      ensures r != NoCoordinator ==> Picks(r, ring.Answered(key).0, health)
      ensures r.To? ==> r.addr == ring.Answered(key).1
      ensures r.To? ==> r.addr == if r.node in ring.addrs then ring.addrs[r.node] else ""
      ensures r != NoCoordinator && Clean(ring.List(), ring.tokens) ==>
                Owns(ring.tokens, ring.hash(key), ring.Answered(key).0)
    {
      if !isLeader {
        return NoCoordinator;
      }
      var node, addr, ok := ring.Get(key);
      if !ok {
        return NoCoordinator;
      }
      if node !in health || !health[node] {
        return Unavailable;
      }
      r := To(node, addr);
    }

    /** Exactly the claim of the node that the ring answers with is confirmed: on a ring whose list and map agree, the
        owner's. */
    method ValidateOwnership(key: string, node: string) returns (r: Ownership)
      requires ring.Valid()
      ensures r == NoRing <==> ring.List() == []
      ensures r == Confirmed <==> ring.List() != [] && ring.Answered(key).0 == node
      ensures Clean(ring.List(), ring.tokens) ==> (r == Confirmed <==> Owns(ring.tokens, ring.hash(key), node))
    {
      var owner, _, ok := ring.Get(key);
      if !ok {
        EmptyTogether(ring.List(), ring.tokens);
        return NoRing;
      }
      if Clean(ring.List(), ring.tokens) && Owns(ring.tokens, ring.hash(key), node) {
        OwnerIsUnique(ring.tokens, ring.hash(key), owner, node);
      }
      r := if owner == node then Confirmed else Mismatch;
    }
  }

  lemma EmptyTogether(s: seq<Token>, tokens: TokenMap)
    ensures Clean(s, tokens) ==> (s == [] <==> tokens == map[])
    ensures tokens == map[] ==> forall pos, node :: !Owns(tokens, pos, node)
  {
    assert s != [] ==> s[0] in Members(s);
    if s == [] && Clean(s, tokens) { assert tokens.Keys == {}; }
  }

  lemma OwnersAgree(l: seq<string>, m: seq<string>, nodes: set<string>, of: string -> seq<Token>, pos: Token, a: string,
                    b: string)
    requires Lists(l, nodes) && Lists(m, nodes) && CollisionFree(nodes, of)
    requires Owns(Built(l, of), pos, a) && Owns(Built(m, of), pos, b)
    ensures a == b
  {
    OrderDoesNotMatterIff(nodes, of);
    assert SameOwners(Built(l, of), Built(m, of));
    OwnerIsUnique(Built(l, of), pos, a, b);
  }

  /** What a coordinator that leads answers for a key, over the ring that it built from its members in their order: it
      picks the member that owns the key, under the address that it was added with. */
  method RouteOver(hash: string -> Token, members: seq<Member>, ghost nodes: set<string>, health: map<string, bool>,
                   key: string)
    returns (r: Route, ghost owner: string)
    requires Lists(Ids(members), nodes) && CollisionFree(nodes, Placing(hash))
    ensures nodes != {} ==>
              owner in nodes && Picks(r, owner, health) && Owns(Built(Ids(members), Placing(hash)), hash(key), owner)
    ensures nodes == {} ==> r == NoCoordinator
    ensures r.To? ==> Member(r.node, r.addr) in members
  {
    var ring := BuildRing(hash, members);
    var coordinator := new Coordinator(ring, health);
    coordinator.isLeader := true;
    r := coordinator.Route(key);
    owner := ring.Answered(key).0;
    SomethingListed(ring.List(), ring.tokens, Ids(members), nodes, hash);
    if nodes != {} {
      OwnerIsMember(Ids(members), nodes, Placing(hash), hash(key), owner);
      RouteIsToMember(r, ring.addrs, members, nodes, owner, health);
    }
  }

  /** Two coordinators that both believe they lead, each with the ring it built in its own order, pick the same owner
      for a key, whatever the key; they answer differently only if they disagree on that owner's health or address. */
  method CoordinatorsAgree(hash: string -> Token, l: seq<Member>, m: seq<Member>, ghost nodes: set<string>,
                           healthL: map<string, bool>, healthM: map<string, bool>, key: string)
    returns (r: Route, q: Route)
    requires Lists(Ids(l), nodes) && Lists(Ids(m), nodes) && CollisionFree(nodes, Placing(hash))
    ensures nodes != {} ==>
              exists owner <- nodes :: Picks(r, owner, healthL) && Picks(q, owner, healthM)
                && Owns(Built(Ids(l), Placing(hash)), hash(key), owner)
    ensures (r.To? ==> Member(r.node, r.addr) in l) && (q.To? ==> Member(q.node, q.addr) in m)
    ensures nodes == {} ==> r == q == NoCoordinator
  {
    ghost var ownerL, ownerM;
    r, ownerL := RouteOver(hash, l, nodes, healthL, key);
    q, ownerM := RouteOver(hash, m, nodes, healthM, key);
    if nodes != {} { OwnersAgree(Ids(l), Ids(m), nodes, Placing(hash), hash(key), ownerL, ownerM); }
  }

  lemma RouteIsToMember(r: Route, addrs: map<string, string>, members: seq<Member>, nodes: set<string>, node: string,
                        health: map<string, bool>)
    requires Lists(Ids(members), nodes) && Addressed(addrs, members, |members|) && node in nodes
    requires Picks(r, node, health) && (r.To? ==> r.addr == if r.node in addrs then addrs[r.node] else "")
    ensures r.To? ==> Member(r.node, r.addr) in members
  {
    var i :| 0 <= i < |members| && Ids(members)[i] == node;
    forall j | i < j < |members| ensures members[j].id != members[i].id {
      assert Ids(members)[j] != Ids(members)[i];
    }
    assert members[i] == Member(node, addrs[node]);
  }

  lemma SomethingListed(s: seq<Token>, tokens: TokenMap, members: seq<string>, nodes: set<string>,
                        hash: string -> Token)
    requires Lists(members, nodes) && CollisionFree(nodes, Placing(hash))
    requires Clean(s, tokens) && tokens == Built(members, Placing(hash))
    ensures s == [] <==> nodes == {}
  {
    SomethingBuilt(members, nodes, hash);
    EmptyTogether(s, tokens);
  }

  lemma SomethingBuilt(members: seq<string>, nodes: set<string>, hash: string -> Token)
    requires Lists(members, nodes) && CollisionFree(nodes, Placing(hash))
    ensures Built(members, Placing(hash)) == map[] <==> nodes == {}
  {
    BuiltIs(members, nodes, Placing(hash));
    if nodes != {} {
      var n :| n in nodes;
      var t := TokensOf(hash, n, 150)[0];
      assert t in Placing(hash)(n);
      assert t in Built(members, Placing(hash));
    } else {
      assert Built(members, Placing(hash)).Keys == {};
    }
  }

  lemma OwnerIsMember(members: seq<string>, nodes: set<string>, of: string -> seq<Token>, pos: Token, owner: string)
    requires Lists(members, nodes) && CollisionFree(nodes, of) && Owns(Built(members, of), pos, owner)
    ensures owner in nodes
  {
    BuiltIs(members, nodes, of);
  }
}
