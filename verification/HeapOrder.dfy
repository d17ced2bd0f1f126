/** The order of a binary min-heap over ranks, and what one swap of a sift keeps of it. */
module HeapOrder {

  /** What an entry is ordered by: `major` first, ties by `minor`. */
  datatype Rank = Rank(major: int, minor: int)

  predicate Before(a: Rank, b: Rank) { a.major < b.major || (a.major == b.major && a.minor < b.minor) }

  predicate AtMost(a: Rank, b: Rank) { !Before(b, a) }

  function Parent(k: int): int
    requires k > 0
  {
    (k - 1) / 2
  }

  function Swapped<T>(r: seq<T>, i: nat, j: nat): seq<T>
    requires i < |r| && j < |r|
  {
    r[i := r[j]][j := r[i]]
  }

  /** No slot below `n` ranks before its parent. */
  ghost predicate Ordered(r: seq<Rank>, n: nat) {
    n <= |r| && forall k {:trigger r[k]} :: 0 < k < n ==> AtMost(r[Parent(k)], r[k])
  }

  /** The children of `i` do not rank before the parent of `i`. */
  ghost predicate Bridged(r: seq<Rank>, n: nat, i: nat) {
    n <= |r| && (0 < i < n ==> forall k {:trigger r[k]} :: 0 < k < n && Parent(k) == i ==> AtMost(r[Parent(i)], r[k]))
  }

  /** Ordered, except that slot `j` may rank before its parent. */
  ghost predicate OrderedButUp(r: seq<Rank>, n: nat, j: nat) {
    && j < n <= |r| && Bridged(r, n, j)
    && forall k {:trigger r[k]} :: 0 < k < n && k != j ==> AtMost(r[Parent(k)], r[k])
  }

  /** Ordered, except that children of slot `i` may rank before it and, if `up`, slot `i` before its parent. */
  ghost predicate OrderedButDown(r: seq<Rank>, n: nat, i: nat, up: bool) {
    && i < n <= |r| && Bridged(r, n, i)
    && forall k {:trigger r[k]} :: 0 < k < n && Parent(k) != i && (up ==> k != i) ==> AtMost(r[Parent(k)], r[k])
  }

  lemma UpStep(r: seq<Rank>, n: nat, j: nat)
    requires OrderedButUp(r, n, j) && j > 0 && Before(r[j], r[Parent(j)])
    ensures OrderedButUp(Swapped(r, Parent(j), j), n, Parent(j))
  {
    var p, r' := Parent(j), Swapped(r, Parent(j), j);
    forall k {:trigger r'[k]} | 0 < k < n && k != p ensures AtMost(r'[Parent(k)], r'[k]) {
      if k != j && Parent(k) != j {
        assert AtMost(r[Parent(k)], r[k]);
      }
    }
    if p > 0 {
      forall k {:trigger r'[k]} | 0 < k < n && Parent(k) == p ensures AtMost(r'[Parent(p)], r'[k]) {
        assert AtMost(r[Parent(p)], r[p]);
        assert k != j ==> AtMost(r[p], r[k]);
      }
    }
  }

  lemma UpDone(r: seq<Rank>, n: nat, j: nat)
    requires OrderedButUp(r, n, j) && (j > 0 ==> AtMost(r[Parent(j)], r[j]))
    ensures Ordered(r, n)
  {
  }

  /** `j` is a child of `i` and no other child ranks before it. */
  predicate LeastChild(r: seq<Rank>, n: nat, i: nat, j: nat) {
    && j < n <= |r| && (j == 2 * i + 1 || j == 2 * i + 2)
    && AtMost(r[j], r[2 * i + 1]) && (2 * i + 2 < n ==> AtMost(r[j], r[2 * i + 2]))
  }

  lemma LeastOfChildren(r: seq<Rank>, n: nat, i: nat, j: nat)
    requires LeastChild(r, n, i, j)
    ensures Parent(j) == i && forall k {:trigger r[k]} :: 0 < k < n && Parent(k) == i ==> AtMost(r[j], r[k])
  {
    forall k | 0 < k < n && Parent(k) == i ensures AtMost(r[j], r[k]) {
      assert k == 2 * i + 1 || k == 2 * i + 2;
    }
  }

  lemma DownStep(r: seq<Rank>, n: nat, i: nat, j: nat, up: bool)
    requires OrderedButDown(r, n, i, up) && LeastChild(r, n, i, j) && Before(r[j], r[i])
    ensures OrderedButDown(Swapped(r, i, j), n, j, false)
  {
    LeastOfChildren(r, n, i, j);
  }

  lemma DownDone(r: seq<Rank>, n: nat, i: nat, j: nat, up: bool)
    requires OrderedButDown(r, n, i, up)
    requires 2 * i + 1 >= n || (LeastChild(r, n, i, j) && AtMost(r[i], r[j]))
    ensures if up then OrderedButUp(r, n, i) else Ordered(r, n)
  {
    if 2 * i + 1 < n { LeastOfChildren(r, n, i, j); }
    forall k | 0 < k < n && Parent(k) == i ensures AtMost(r[i], r[k]) {}
  }

  /** Whatever rank lands in slot `i` of an ordered heap, only the edges at `i` can be wrong. */
  lemma Disturbed(r: seq<Rank>, n: nat, r': seq<Rank>, n': nat, i: nat)
    requires Ordered(r, n) && i < n' <= n <= |r'|
    requires forall k {:trigger r[k]} {:trigger r'[k]} :: 0 <= k < n' && k != i ==> r'[k] == r[k]
    ensures OrderedButDown(r', n', i, true)
  {
  }

  lemma {:induction false} RootIsLeast(r: seq<Rank>, n: nat, k: nat)
    requires Ordered(r, n) && k < n
    ensures AtMost(r[0], r[k])
  {
    if k > 0 { RootIsLeast(r, n, Parent(k)); }
  }
}
