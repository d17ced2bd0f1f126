/** The names under which `internal/cluster/ring.go` places a node on the ring, and the tokens they hash to. */
module VirtualNodes {
  import opened RingModel

  function Decimal(n: nat): string {
    if n < 10 then [('0' as int + n) as char] else Decimal(n / 10) + [('0' as int + n % 10) as char]
  }

  // ----- reading the digits back -----

  predicate IsDigit(c: char) { '0' <= c <= '9' }

  /** The number that a string of decimal digits stands for. */
  function Value(s: string): nat
    requires forall c <- s :: IsDigit(c)
  {
    if s == [] then 0
    else
      assert IsDigit(s[|s| - 1]);
      10 * Value(s[..|s| - 1]) + (s[|s| - 1] as int - '0' as int)
  }

  /** The digits of a number read back as that number, without leading zeros. */
  lemma {:induction false} DecimalReadsBack(n: nat)
    ensures Decimal(n) != [] && forall c <- Decimal(n) :: IsDigit(c)
    ensures Value(Decimal(n)) == n
    ensures n > 0 ==> Decimal(n)[0] != '0'
  {
    if n < 10 {
      assert Decimal(n)[..0] == [];
    } else {
      DecimalReadsBack(n / 10);
      assert Decimal(n)[..|Decimal(n)| - 1] == Decimal(n / 10);
    }
  }

  // ----- names -----

  /** The name of a node's virtual node `i`. */
  function Name(node: string, i: nat): string { node + "-" + Decimal(i) }

  lemma DashesAlign(a: string, d: string, b: string, e: string)
    requires a + "-" + d == b + "-" + e && forall c <- e :: IsDigit(c)
    ensures |a| <= |b|
  {
    var s := b + "-" + e;
    forall k | |b| < k < |s| ensures IsDigit(s[k]) { assert s[k] == e[k - |b| - 1]; }
    assert (a + "-" + d)[|a|] == '-';
  }

  /** No two virtual nodes have the same name, whether they are of one node or of two. */
  lemma NamesAreUnique(a: string, i: nat, b: string, j: nat)
    requires Name(a, i) == Name(b, j)
    ensures a == b && i == j
  {
    DecimalReadsBack(i);
    DecimalReadsBack(j);
    DashesAlign(a, Decimal(i), b, Decimal(j));
    DashesAlign(b, Decimal(j), a, Decimal(i));
    assert a == Name(a, i)[..|a|] && b == Name(b, j)[..|b|];
    assert Decimal(i) == Name(a, i)[|a| + 1..] && Decimal(j) == Name(b, j)[|b| + 1..];
  }

  // ----- tokens -----

  /** The positions of a node's virtual tokens: the hashes of its name with the suffixes -0, -1, ... */
  function TokensOf(hash: string -> Token, node: string, count: nat): seq<Token> {
    seq<Token>(count, i requires 0 <= i < count => hash(Name(node, i)))
  }

  /** The node owns the position of each of its names: n-0, n-1, ... */
  ghost predicate OwnsAll(tokens: TokenMap, hash: string -> Token, node: string, count: nat) {
    forall i: nat | i < count ::
      hash(node + "-" + Decimal(i)) in tokens && tokens[hash(node + "-" + Decimal(i))] == node
  }

  lemma AddedOwnsAll(tokens: TokenMap, hash: string -> Token, node: string, count: nat)
    ensures OwnsAll(WithNode(tokens, TokensOf(hash, node, count), node), hash, node, count)
  {
    var mine := TokensOf(hash, node, count);
    forall i: nat | i < count ensures hash(node + "-" + Decimal(i)) in mine {
      assert mine[i] == hash(Name(node, i)) && Name(node, i) == node + "-" + Decimal(i);
    }
  }

  /** The hash does not give two of the names used the same position. */
  ghost predicate HashesApart(hash: string -> Token, nodes: set<string>, count: nat) {
    forall a <- nodes, b <- nodes, i: nat, j: nat | i < count && j < count ::
      hash(Name(a, i)) == hash(Name(b, j)) ==> Name(a, i) == Name(b, j)
  }

  lemma NameOfToken(hash: string -> Token, node: string, count: nat, t: Token) returns (i: nat)
    requires t in TokensOf(hash, node, count)
    ensures i < count && t == hash(Name(node, i)) && TokensOf(hash, node, count)[i] == t
  {
    i :| 0 <= i < count && TokensOf(hash, node, count)[i] == t;
  }

  /** Then every node has as many different tokens as virtual nodes, and no two nodes share one. */
  lemma ApartTokens(hash: string -> Token, nodes: set<string>, count: nat, a: string, b: string, t: Token)
    requires HashesApart(hash, nodes, count) && a in nodes && b in nodes
    requires t in TokensOf(hash, a, count) && t in TokensOf(hash, b, count)
    ensures a == b
  {
    var i := NameOfToken(hash, a, count, t);
    var j := NameOfToken(hash, b, count, t);
    NamesAreUnique(a, i, b, j);
  }

  lemma DistinctTokens(hash: string -> Token, nodes: set<string>, count: nat, a: string, i: nat, j: nat)
    requires HashesApart(hash, nodes, count) && a in nodes && i < j < count
    ensures TokensOf(hash, a, count)[i] != TokensOf(hash, a, count)[j]
  {
    if hash(Name(a, i)) == hash(Name(a, j)) { NamesAreUnique(a, i, a, j); }
  }

  lemma {:induction false} OnceEach(s: seq<Token>, t: Token)
    requires t in s && forall i, j :: 0 <= i < j < |s| ==> s[i] != s[j]
    ensures multiset(s)[t] == 1
  {
    var front, last := s[..|s| - 1], s[|s| - 1];
    assert s == front + [last];
    if t == last {
      assert t !in front;
      assert t !in multiset(front);
    } else {
      OnceEach(front, t);
    }
  }

  lemma TokensOnceEach(hash: string -> Token, nodes: set<string>, count: nat, node: string, t: Token)
    requires HashesApart(hash, nodes, count) && node in nodes && t in TokensOf(hash, node, count)
    ensures multiset(TokensOf(hash, node, count))[t] == 1
  {
    forall i, j | 0 <= i < j < count ensures TokensOf(hash, node, count)[i] != TokensOf(hash, node, count)[j] {
      DistinctTokens(hash, nodes, count, node, i, j);
    }
    OnceEach(TokensOf(hash, node, count), t);
  }

  lemma ApartSubset(hash: string -> Token, nodes: set<string>, some: set<string>, count: nat)
    requires HashesApart(hash, nodes, count) && some <= nodes
    ensures HashesApart(hash, some, count)
  {
  }

  /** Every token on the ring is one of its owner's, and its owner is among `nodes`. */
  ghost predicate Carries(tokens: TokenMap, hash: string -> Token, nodes: set<string>, count: nat) {
    forall t <- tokens :: tokens[t] in nodes && t in TokensOf(hash, tokens[t], count)
  }

  /** On a ring of other nodes, the tokens of a node are free, and different from each other. */
  lemma AbsentIsFree(tokens: TokenMap, hash: string -> Token, nodes: set<string>, count: nat, node: string)
    requires Carries(tokens, hash, nodes, count) && node !in nodes && HashesApart(hash, nodes + {node}, count)
    ensures var mine := TokensOf(hash, node, count);
            forall t <- mine :: t !in tokens && multiset(mine)[t] == 1
    ensures node !in tokens.Values
  {
    var mine := TokensOf(hash, node, count);
    forall t <- mine ensures t !in tokens && multiset(mine)[t] == 1 {
      if t in tokens { ApartTokens(hash, nodes + {node}, count, tokens[t], node, t); }
      TokensOnceEach(hash, nodes + {node}, count, node, t);
    }
    assert forall t <- tokens :: tokens[t] != node;
  }

  lemma AddCarries(tokens: TokenMap, hash: string -> Token, nodes: set<string>, count: nat, node: string)
    requires Carries(tokens, hash, nodes, count)
    ensures Carries(WithNode(tokens, TokensOf(hash, node, count), node), hash, nodes + {node}, count)
  {
  }
}
