/** The heap of `internal/eviction/lfu.go` and `ttl.go`: entries that know their slot, a map from keys to entries, and
    the sift moves of Go's container/heap over them.  Both policies share it; they differ in what an entry's rank is. */
module IndexedHeap {
  import opened HeapOrder

  class HeapEntry {
    const key: string
    var rank: Rank
    var index: int

    constructor (key: string, rank: Rank)
      ensures this.key == key && this.rank == rank
    {
      this.key, this.rank, index := key, rank, 0;
    }
  }

  class IndexedHeap {
    var h: seq<HeapEntry>
    var entries: map<string, HeapEntry>

    ghost function Repr(): set<object>
      reads this
    {
      {this} + Members()
    }

    ghost function Members(): set<HeapEntry>
      reads this
    {
      set e | e in h
    }

    ghost function Ranks(): seq<Rank>
      reads this, h
    {
      var heap := h;
      seq(|heap|, i requires 0 <= i < |heap| reads heap => heap[i].rank)
    }

    /** Every entry's index names its real slot. */
    ghost predicate Indexed()
      reads this, h
    {
      forall i :: 0 <= i < |h| ==> h[i].index == i
    }

    /** The map and the heap hold the same entries, each under its own key. */
    ghost predicate Tracks()
      reads this
    {
      && (forall e <- Members() :: e.key in entries && entries[e.key] == e)
      && (forall k <- entries :: entries[k].key == k && entries[k] in Members())
    }

    ghost predicate Valid()
      reads this, h
    {
      Indexed() && Tracks() && Ordered(Ranks(), |h|)
    }

    /** The rank of every tracked key. */
    ghost function Table(): map<string, Rank>
      reads this, entries.Values
    {
      map k <- entries :: entries[k].rank
    }

    constructor ()
      ensures Valid() && Table() == map[] && fresh(Repr())
    {
      h, entries := [], map[];
    }

    // ----- heap.Interface and container/heap -----

    method Swap(i: nat, j: nat)
      requires Indexed() && i < |h| && j < |h|
      modifies this`h, Members()`index
      ensures Indexed() && h == old(Swapped(h, i, j))
      ensures Ranks() == old(Swapped(Ranks(), i, j))
      ensures Members() == old(Members())
    {
      h := h[i := h[j]][j := h[i]];
      h[i].index := i;
      h[j].index := j;
      SwapKeepsMembers(old(h), i, j);
    }

    method Up(j0: nat, ghost n: nat)
      requires Indexed() && n <= |h| && OrderedButUp(Ranks(), n, j0)
      modifies this`h, Members()`index
      ensures Indexed() && |h| == old(|h|) && Ordered(Ranks(), n)
      ensures h[n..] == old(h)[n..] && Members() == old(Members())
    {
      var j: nat := j0;
      while j > 0 && Before(h[j].rank, h[Parent(j)].rank)
        invariant Indexed() && |h| == old(|h|) && OrderedButUp(Ranks(), n, j)
        invariant h[n..] == old(h)[n..] && Members() == old(Members())
      {
        UpStep(Ranks(), n, j);
        Swap(Parent(j), j);
        j := Parent(j);
      }
      UpDone(Ranks(), n, j);
    }

    method Down(i0: nat, n: nat) returns (moved: bool)
      requires Indexed() && n <= |h| && OrderedButDown(Ranks(), n, i0, true)
      modifies this`h, Members()`index
      ensures Indexed() && |h| == old(|h|)
      ensures if moved then Ordered(Ranks(), n) else OrderedButUp(Ranks(), n, i0)
      ensures h[n..] == old(h)[n..] && Members() == old(Members())
    {
      var i, j := i0, 0;
      while 2 * i + 1 < n
        invariant Indexed() && |h| == old(|h|) && i0 <= i && OrderedButDown(Ranks(), n, i, i == i0)
        invariant h[n..] == old(h)[n..] && Members() == old(Members())
        decreases n - i
      {
        j := LesserChild(i, n);
        if !Before(h[j].rank, h[i].rank) {
          break;
        }
        DownStep(Ranks(), n, i, j, i == i0);
        Swap(i, j);
        i := j;
      }
      DownDone(Ranks(), n, i, j, i == i0);
      moved := i > i0;
    }

    method LesserChild(i: nat, n: nat) returns (j: nat)
      requires 2 * i + 1 < n <= |h|
      ensures LeastChild(Ranks(), n, i, j)
    {
      j := 2 * i + 1;
      if j + 1 < n && Before(h[j + 1].rank, h[j].rank) {
        j := j + 1;
      }
    }

    method Fix(i: nat)
      requires Indexed() && OrderedButDown(Ranks(), |h|, i, true)
      modifies this`h, Members()`index
      ensures Indexed() && |h| == old(|h|) && Ordered(Ranks(), |h|)
      ensures Members() == old(Members())
    {
      var moved := Down(i, |h|);
      if !moved {
        Up(i, |h|);
      }
    }

    method Push(entry: HeapEntry)
      requires Indexed() && Ordered(Ranks(), |h|) && entry !in h
      modifies this`h, Members()`index, entry`index
      ensures Indexed() && Ordered(Ranks(), |h|)
      ensures Members() == old(Members()) + {entry}
    {
      entry.index := |h|;
      h := h + [entry];
      assert Ranks()[..|h| - 1] == old(Ranks());
      Up(|h| - 1, |h|);
    }

    method Remove(i: nat)
      requires Indexed() && Ordered(Ranks(), |h|) && i < |h|
      modifies this`h, Members()`index
      ensures Indexed() && Ordered(Ranks(), |h|)
      ensures Members() == old(Members() - {h[i]})
    {
      var n := |h| - 1;
      ghost var ranks := Ranks();
      if n != i {
        Swap(i, n);
        Disturbed(ranks, n + 1, Ranks(), n, i);
        var moved := Down(i, n);
        if !moved {
          Up(i, n);
        }
      }
      Pop();
    }

    method Pop()
      requires Indexed() && h != [] && Ordered(Ranks(), |h| - 1)
      modifies this`h, Members()`index
      ensures Indexed() && Ordered(Ranks(), |h|) && h == old(h[..|h| - 1])
      ensures Members() == old(Members() - {h[|h| - 1]})
    {
      var entry := h[|h| - 1];
      ghost var ranks := Ranks();
      h := h[..|h| - 1];
      entry.index := -1;
      assert Ranks() == ranks[..|h|];
    }

    // ----- what the two policies do with it -----

    method Insert(key: string, rank: Rank)
      requires Valid() && key !in entries
      modifies Repr()
      ensures Valid() && fresh(Repr() - old(Repr()))
      ensures Table() == old(Table())[key := rank]
    {
      var entry := new HeapEntry(key, rank);
      entries := entries[key := entry];
      assert Ranks() == old(Ranks());
      Push(entry);
    }

    method Reorder(key: string, rank: Rank)
      requires Valid() && key in entries
      modifies Repr()
      ensures Valid() && Repr() == old(Repr()) && entries == old(entries)
      ensures Table() == old(Table())[key := rank]
    {
      var entry := entries[key];
      ghost var ranks := Ranks();
      ghost var i :| 0 <= i < |h| && h[i] == entry;
      entry.rank := rank;
      Disturbed(ranks, |h|, Ranks(), |h|, entry.index);
      Fix(entry.index);
    }

    method Delete(key: string)
      requires Valid()
      modifies Repr()
      ensures Valid() && Repr() <= old(Repr())
      ensures Table() == old(Table()) - {key}
    {
      if key in entries {
        var entry := entries[key];
        ghost var i :| 0 <= i < |h| && h[i] == entry;
        Remove(entry.index);
        ghost var ranks := Ranks();
        entries := entries - {key};
        assert Ranks() == ranks;
      }
    }

    /** The key at the top; no tracked key ranks before it. */
    method Peek() returns (key: string, ok: bool)
      requires Valid()
      ensures ok <==> Table() != map[]
      ensures ok ==> key in Table() && forall k <- Table() :: AtMost(Table()[key], Table()[k])
    {
      if |h| == 0 {
        assert Members() == {};
        return "", false;
      }
      key, ok := h[0].key, true;
      assert h[0] in Members();
      forall k <- Table() ensures AtMost(Table()[key], Table()[k]) {
        assert entries[k] in Members();
        var i :| 0 <= i < |h| && h[i] == entries[k];
        RootIsLeast(Ranks(), |h|, i);
      }
    }
  }

  lemma SwapKeepsMembers<T>(s: seq<T>, i: nat, j: nat)
    requires i < |s| && j < |s|
    ensures forall e :: e in Swapped(s, i, j) <==> e in s
  {
    var t := Swapped(s, i, j);
    assert t[i] == s[j] && t[j] == s[i];
    assert forall k :: 0 <= k < |s| && k != i && k != j ==> t[k] == s[k];
  }
}
