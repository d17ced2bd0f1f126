/** The LRU eviction policy of `internal/eviction/lru.go`: a doubly linked list with sentinels and a map of its
    nodes. */
module LruList {
  import opened Recency

  class LruNode {
    const key: string
    var prev: LruNode?
    var next: LruNode?

    constructor (key: string)
      ensures this.key == key && prev == null && next == null
    {
      this.key := key;
      prev, next := null, null;
    }
  }

  ghost function KeysOf(nodes: seq<LruNode>): seq<string> {
    seq(|nodes|, i requires 0 <= i < |nodes| => nodes[i].key)
  }

  lemma KeysInFront(node: LruNode, rest: seq<LruNode>)
    ensures KeysOf([node] + rest) == [node.key] + KeysOf(rest)
  {
  }

  class LRU {
    var nodes: map<string, LruNode>
    const head: LruNode
    const tail: LruNode
    ghost var order: seq<LruNode>  // the nodes between the sentinels, most recently used first

    ghost function List(): seq<LruNode>
      reads this
    {
      [head] + order + [tail]
    }

    ghost function Nodes(): set<LruNode>
      reads this
    {
      set n | n in List()
    }

    ghost function Repr(): set<object>
      reads this
    {
      {this} + Nodes()
    }

    /** Following `next` from the head, and `prev` from the tail, visits the same distinct nodes in opposite orders. */
    ghost predicate Linked()
      reads this, List()
    {
      var list := List();
      && Distinct(list)
      && (forall i {:trigger list[i].next} :: 0 <= i < |list| - 1 ==> list[i].next == list[i + 1])
      && (forall i {:trigger list[i].prev} :: 0 < i < |list| ==> list[i].prev == list[i - 1])
    }

    /** The map points each key to its own node between the sentinels, and to nothing else. */
    ghost predicate Tracks()
      reads this
    {
      && (forall n <- order :: n.key in nodes && nodes[n.key] == n)
      && (forall k <- nodes :: nodes[k].key == k && nodes[k] in order)
    }

    ghost predicate Valid()
      reads this, List()
    {
      Linked() && Tracks()
    }

    /** The tracked keys, most recently used first. */
    ghost function Keys(): seq<string>
      reads this
    {
      KeysOf(order)
    }

    /** The node `n` pointers after the head. */
    ghost function Forward(n: nat): LruNode?
      reads this, List()
    {
      if n == 0 then head
      else var p := Forward(n - 1); if p == null || p !in List() then null else p.next
    }

    /** The node `n` pointers before the tail. */
    ghost function Backward(n: nat): LruNode?
      reads this, List()
    {
      if n == 0 then tail
      else var p := Backward(n - 1); if p == null || p !in List() then null else p.prev
    }

    /** Walking forwards from the head and backwards from the tail meets the same nodes in opposite orders. */
    lemma {:induction false} WalksMirror(n: nat)
      requires Linked() && n < |List()|
      ensures Forward(n) == List()[n]
      ensures Backward(n) == List()[|List()| - 1 - n]
      ensures Forward(n) == Backward(|List()| - 1 - n)
    {
      WalkForward(n);
      WalkBackward(n);
      WalkBackward(|List()| - 1 - n);
    }

    lemma {:induction false} WalkForward(n: nat)
      requires Linked() && n < |List()|
      ensures Forward(n) == List()[n]
    {
      if n > 0 {
        WalkForward(n - 1);
        assert List()[n - 1].next == List()[n];
      }
    }

    lemma {:induction false} WalkBackward(n: nat)
      requires Linked() && n < |List()|
      ensures Backward(n) == List()[|List()| - 1 - n]
    {
      if n > 0 {
        WalkBackward(n - 1);
        assert List()[|List()| - n].prev == List()[|List()| - n - 1];
      }
    }

    constructor ()
      ensures Valid() && Keys() == [] && fresh(Repr())
    {
      head := new LruNode("");
      tail := new LruNode("");
      nodes := map[];
      order := [];
      new;
      head.next := tail;
      tail.prev := head;
    }

    lemma KeysAreDistinct()
      requires Distinct(List()) && Tracks()
      ensures Distinct(Keys()) && forall k :: k in Keys() <==> k in nodes
    {
      forall i, j | 0 <= i < j < |order| ensures Keys()[i] != Keys()[j] {
        assert order[i] == List()[i + 1] && order[j] == List()[j + 1];
        assert order[i] in order && order[j] in order;
      }
      forall k ensures k in Keys() <==> k in nodes {
        if k in nodes {
          var i :| 0 <= i < |order| && order[i] == nodes[k];
          assert Keys()[i] == k;
        }
      }
    }

    /** Dropping one node drops its key. */
    lemma KeysWithout(i: nat)
      requires Distinct(List()) && Tracks() && i < |order|
      ensures Without(Keys(), order[i].key) == KeysOf(order[..i] + order[i + 1..])
    {
      KeysAreDistinct();
      WithoutAt(Keys(), i);
      assert Keys()[i] == order[i].key;
      assert KeysOf(order[..i] + order[i + 1..]) == Keys()[..i] + Keys()[i + 1..];
    }

    /** Dropping one node drops nothing else. */
    lemma NodesWithout(i: nat)
      requires Distinct(List()) && i < |order|
      ensures var rest := order[..i] + order[i + 1..];
              && (forall n :: n in rest <==> n in order && n != order[i])
              && (set n | n in [head] + rest + [tail]) == Nodes() - {order[i]}
    {
      var rest, list := order[..i] + order[i + 1..], List();
      assert order == list[1..|list| - 1];
      assert list[i + 1] == order[i];
      CutMembers(order, i);
      CutMembers(list, i + 1);
      assert [head] + rest + [tail] == list[..i + 1] + list[i + 2..];
    }

    method RemoveNode(node: LruNode, ghost i: nat)
      requires Linked() && i < |order| && node == order[i]
      modifies this`order, {List()[i]}`next, {List()[i + 2]}`prev
      ensures order == old(order[..i] + order[i + 1..]) && Linked()
    {
      ghost var list := List();
      ghost var shorter := list[..i + 1] + list[i + 2..];
      CutMembers(list, i + 1);
      assert list[i + 1] == node && node.prev == list[i] && node.next == list[i + 2];
      assert forall k :: 0 <= k < |shorter| ==> shorter[k] == if k <= i then list[k] else list[k + 1];
      assert [head] + (order[..i] + order[i + 1..]) + [tail] == shorter;
      node.prev.next := node.next;
      node.next.prev := node.prev;
      order := order[..i] + order[i + 1..];
      assert List() == shorter;
      assert shorter[i].next == shorter[i + 1] && shorter[i + 1].prev == shorter[i];
    }

    method InsertAtFront(node: LruNode)
      requires Linked() && node !in Nodes()
      modifies this`order, Nodes(), node
      ensures order == [node] + old(order) && Linked()
    {
      ghost var list := List();
      assert list[0] == head && head.next == list[1];
      node.prev := head;
      node.next := head.next;
      head.next.prev := node;
      head.next := node;
      order := [node] + order;
      assert List() == [head, node] + list[1..];
    }

    method MoveToFront(node: LruNode, ghost i: nat)
      requires Linked() && i < |order| && node == order[i]
      modifies this`order, Nodes()
      ensures order == old([node] + (order[..i] + order[i + 1..])) && Linked() && Nodes() == old(Nodes())
      ensures forall n :: n in order <==> n in old(order)
    {
      NodesWithout(i);
      RemoveNode(node, i);
      InsertAtFront(node);
    }

    method OnAccess(key: string)
      requires Valid()
      modifies Repr()
      ensures Valid() && Repr() == old(Repr())
      ensures Keys() == old(if key in Keys() then Touch(Keys(), key) else Keys())
    {
      KeysAreDistinct();
      if key in nodes {
        ghost var i :| 0 <= i < |order| && order[i] == nodes[key];
        KeysWithout(i);
        KeysInFront(nodes[key], order[..i] + order[i + 1..]);
        MoveToFront(nodes[key], i);
      }
    }

    method OnInsert(key: string)
      requires Valid() && key !in Keys()
      modifies Repr()
      ensures Valid() && fresh(Repr() - old(Repr()))
      ensures Keys() == [key] + old(Keys())
    {
      KeysAreDistinct();
      var node := new LruNode(key);
      KeysInFront(node, order);
      InsertAtFront(node);
      nodes := nodes[key := node];
    }

    method OnEvict(key: string)
      requires Valid()
      modifies Repr()
      ensures Valid() && Repr() <= old(Repr())
      ensures Keys() == old(Without(Keys(), key))
    {
      KeysAreDistinct();
      if key in nodes {
        var node := nodes[key];
        ghost var i :| 0 <= i < |order| && order[i] == node;
        KeysWithout(i);
        NodesWithout(i);
        RemoveNode(node, i);
        nodes := nodes - {key};
      } else {
        WithoutAbsent(Keys(), key);
      }
    }

    method Evict() returns (key: string, ok: bool)
      requires Valid()
      ensures ok <==> Keys() != []
      ensures ok ==> key == Keys()[|Keys()| - 1]
    {
      ghost var list := List();
      assert tail == list[|list| - 1] && tail.prev == list[|list| - 2];
      if tail.prev == head {
        assert list[0] == list[|list| - 2];
        return "", false;
      }
      return tail.prev.key, true;
    }
  }
}
