/**
 The intrusive list: a ring of nodes through the list head, linked both ways.  An item is
 identified with the node inside it.
 */
module IntrusiveList {

  class Node {
    var next: Node?
    var prev: Node?

    constructor ()
      ensures next == null && prev == null
    {
      next, prev := null, null;
    }
  }

  function Reversed<T>(s: seq<T>): (r: seq<T>)
    ensures |r| == |s|
  {
    if s == [] then [] else Reversed(s[1..]) + [s[0]]
  }

  class List {
    const head: Node
    /** The items in order. */
    ghost var items: seq<Node>

    ghost function Nodes(): set<object>
      reads this
    {
      {this, head} + set n | n in items
    }

    /** The ring: the head, the items, and the head again. */
    ghost function At(i: nat): Node
      reads this
    {
      if 1 <= i <= |items| then items[i - 1] else head
    }

    ghost predicate Distinct()
      reads this
    {
      head !in items && forall i, j :: 0 <= i < j < |items| ==> items[i] != items[j]
    }

    /** Every node is linked to the next one, and that one back to it. */
    ghost predicate Valid()
      reads this, Nodes()
    {
      && Distinct()
      && forall i :: 0 <= i <= |items| ==> At(i).next == At(i + 1) && At(i + 1).prev == At(i)
    }

    constructor ()
      ensures Valid() && items == [] && fresh(head)
    {
      head := new Node();
      items := [];
      new;
      head.next := head;
      head.prev := head;
    }

    lemma Linked(k: nat)
      requires Valid() && k <= |items|
      ensures At(k).next == At(k + 1) && At(k + 1).prev == At(k)
    {
    }

    // ------------------------------------------------------------- looking

    function First(): (r: Node?)
      requires Valid()
      reads this, Nodes()
      ensures r == if items == [] then null else items[0]
    {
      Linked(0);
      if head.next == head then null else head.next
    }

    function Last(): (r: Node?)
      requires Valid()
      reads this, Nodes()
      ensures r == if items == [] then null else items[|items| - 1]
    {
      Linked(|items|);
      if head.prev == head then null else head.prev
    }

    ghost function After(k: nat): Node?
      requires k < |items|
      reads this
    {
      if k + 1 < |items| then items[k + 1] else null
    }

    ghost function Before(k: nat): Node?
      requires k < |items|
      reads this
    {
      if k > 0 then items[k - 1] else null
    }

    /** The item after one; nothing after nothing, after the last, and after an item that is
        on no list. */
    function Next(item: Node?): (r: Node?)
      requires Valid() && item != head
      reads this, Nodes(), item
      ensures forall k | 0 <= k < |items| && item == items[k] :: r == After(k)
      ensures item == null || item.next == null ==> r == null
      ensures item in items && r != null ==> r in items
    {
      assert forall k | 0 <= k < |items| :: items[k] == At(k + 1) && items[k].next == At(k + 2);
      if item == null || item.next == null || item.next == head then null else item.next
    }

    function Prev(item: Node): (r: Node?)
      requires Valid() && item in items
      reads this, Nodes()
      ensures forall k | 0 <= k < |items| && item == items[k] :: r == Before(k)
      ensures r != null ==> r in items
    {
      forall k | 0 <= k < |items| ensures items[k] == At(k + 1) && items[k].prev == At(k) {
        Linked(k);
      }
      if item.prev == head then null else item.prev
    }

    /** The items from one on, following the links; at most `n` of them. */
    ghost function Forward(item: Node?, n: nat): seq<Node>
      requires Valid() && (item != null ==> item in items)
      reads this, Nodes()
    {
      if item == null || n == 0 then [] else [item] + Forward(Next(item), n - 1)
    }

    ghost function Backward(item: Node?, n: nat): seq<Node>
      requires Valid() && (item != null ==> item in items)
      reads this, Nodes()
    {
      if item == null || n == 0 then [] else [item] + Backward(Prev(item), n - 1)
    }

    lemma {:induction false} ForwardFrom(k: nat, n: nat)
      requires Valid() && k < |items| <= n + k
      ensures Forward(items[k], n) == items[k..]
      decreases n
    {
      if k + 1 < |items| {
        ForwardFrom(k + 1, n - 1);
      } else {
        Linked(k + 1);
        assert Forward(items[k], n) == [items[k]] + Forward(null, n - 1);
      }
    }

    lemma {:induction false} BackwardFrom(k: nat, n: nat)
      requires Valid() && k < |items| && k < n
      ensures Backward(items[k], n) == Reversed(items[..k + 1])
      decreases k
    {
      LastFirst(items[..k + 1]);
      if k > 0 {
        BackwardFrom(k - 1, n - 1);
        assert items[..k + 1][..k] == items[..k];
      } else {
        Linked(0);
        assert items[..1][..0] == [];
        assert Backward(items[0], n) == [items[0]] + Backward(null, n - 1);
      }
    }

    /** The walk along the list is the sequence of its items, and the walk back is its
        reverse. */
    lemma Walks(n: nat)
      requires Valid() && n >= |items|
      ensures Forward(First(), n) == items
      ensures Backward(Last(), n) == Reversed(items)
    {
      if items != [] {
        ForwardFrom(0, n);
        BackwardFrom(|items| - 1, n);
        assert items[..|items|] == items;
      }
    }

    // ------------------------------------------------------------ changing

    /** A node that is on no list. */
    ghost predicate Free(node: Node)
      reads this, node
    {
      node != head && node.next == null && node.prev == null
    }

    method Append(node: Node)
      requires Valid() && Free(node)
      modifies this, Nodes(), node
      ensures Valid() && items == old(items) + [node]
    {
      NotAmong(node);
      Linked(|items|);
      node.prev := head.prev;
      node.next := head;
      node.next.prev := node;
      node.prev.next := node;
      items := items + [node];
      forall i: nat | i <= |items| ensures At(i).next == At(i + 1) && At(i + 1).prev == At(i) {
        if i < |items| - 1 {
          assert old(At(i).next == At(i + 1) && At(i + 1).prev == At(i));
        }
      }
    }

    method Prepend(node: Node)
      requires Valid() && Free(node)
      modifies this, Nodes(), node
      ensures Valid() && items == [node] + old(items)
    {
      NotAmong(node);
      Linked(0);
      node.next := head.next;
      node.prev := head;
      node.next.prev := node;
      node.prev.next := node;
      items := [node] + items;
      forall i: nat | i <= |items| ensures At(i).next == At(i + 1) && At(i + 1).prev == At(i) {
        if i > 1 {
          assert old(At(i - 1).next == At(i) && At(i).prev == At(i - 1));
        }
      }
    }

    method InsertBefore(node: Node, before: Node, ghost k: nat)
      requires Valid() && Free(node) && k < |items| && items[k] == before
      modifies this, Nodes(), node
      ensures Valid() && items == old(items[..k] + [node] + items[k..])
    {
      NotAmong(node);
      Linked(k);
      node.next := before;
      node.prev := before.prev;
      node.next.prev := node;
      node.prev.next := node;
      items := items[..k] + [node] + items[k..];
      forall i: nat | i <= |items| ensures At(i).next == At(i + 1) && At(i + 1).prev == At(i) {
        if i < k {
          assert old(At(i).next == At(i + 1) && At(i + 1).prev == At(i));
        } else if i > k + 1 {
          assert old(At(i - 1).next == At(i) && At(i).prev == At(i - 1));
        }
      }
    }

    method InsertAfter(node: Node, after: Node, ghost k: nat)
      requires Valid() && Free(node) && k < |items| && items[k] == after
      modifies this, Nodes(), node
      ensures Valid() && items == old(items[..k + 1] + [node] + items[k + 1..])
    {
      NotAmong(node);
      Linked(k + 1);
      node.prev := after;
      node.next := after.next;
      node.next.prev := node;
      node.prev.next := node;
      items := items[..k + 1] + [node] + items[k + 1..];
      forall i: nat | i <= |items| ensures At(i).next == At(i + 1) && At(i + 1).prev == At(i) {
        if i < k + 1 {
          assert old(At(i).next == At(i + 1) && At(i + 1).prev == At(i));
        } else if i > k + 2 {
          assert old(At(i - 1).next == At(i) && At(i).prev == At(i - 1));
        }
      }
    }

    /** An item of the list is linked, so a free node is none. */
    lemma NotAmong(node: Node)
      requires Valid() && Free(node)
      ensures node !in items
    {
      if node in items {
        var k :| 0 <= k < |items| && items[k] == node;
        Linked(k + 1);
      }
    }

    method Remove(node: Node, ghost k: nat)
      requires Valid() && k < |items| && items[k] == node
      modifies this, Nodes()
      ensures Valid() && Free(node) && items == old(items[..k] + items[k + 1..])
    {
      Linked(k);
      Linked(k + 1);
      node.prev.next := node.next;
      node.next.prev := node.prev;
      node.next := null;
      node.prev := null;
      items := items[..k] + items[k + 1..];
      forall i: nat | i <= |items| ensures At(i).next == At(i + 1) && At(i + 1).prev == At(i) {
        if i < k {
          assert old(At(i).next == At(i + 1) && At(i + 1).prev == At(i));
        } else if i > k {
          assert old(At(i + 1).next == At(i + 2) && At(i + 2).prev == At(i + 1));
        }
      }
    }

    /** Unlink a node from its list; a node that is on none stays as it is. */
    method NodeRemove(node: Node, ghost k: nat)
      requires Valid() && (Free(node) || (k < |items| && items[k] == node))
      modifies this, Nodes()
      ensures Valid() && Free(node)
      ensures items == if old(Free(node)) then old(items) else old(items[..k] + items[k + 1..])
    {
      if node.next != null {
        Remove(node, k);
      } else {
        if !Free(node) {
          Linked(k + 1);
        }
      }
    }

    /** The safe walk, removing each item that it visits: it visits all of them, in order,
        and leaves the list empty. */
    method RemoveEach() returns (visited: seq<Node>)
      requires Valid()
      modifies this, Nodes()
      ensures Valid() && items == [] && visited == old(items)
      ensures forall n | n in visited :: Free(n)
    {
      visited := [];
      ghost var all := items;
      var it := First();
      var tmp := Next(it);
      while it != null
        invariant Valid() && |visited| <= |all| && visited == all[..|visited|] && items == all[|visited|..]
        invariant it == (if items == [] then null else items[0]) && tmp == (if |items| < 2 then null else items[1])
        invariant forall n | n in visited :: n != head && n.next == null && n.prev == null
        decreases |items|
      {
        it, tmp, visited := RemoveVisited(it, tmp, visited);
      }
    }

    /** One turn of the safe walk. */
    method RemoveVisited(it: Node, tmp: Node?, visited: seq<Node>)
      returns (it': Node?, tmp': Node?, visited': seq<Node>)
      requires Valid() && items != [] && it == items[0] && tmp == (if |items| < 2 then null else items[1])
      requires forall n | n in visited :: n != head && n.next == null && n.prev == null
      modifies this, Nodes()
      ensures Valid() && items == old(items[1..]) && visited' == visited + [it]
      ensures it' == (if items == [] then null else items[0]) && tmp' == (if |items| < 2 then null else items[1])
      ensures forall n | n in visited' :: n != head && n.next == null && n.prev == null
    {
      forall n | n in visited ensures n !in items {
        if n in items { NotAmong(n); }
      }
      Remove(it, 0);
      assert items == old(items[1..]);
      it', visited' := tmp, visited + [it];
      tmp' := Next(it');
    }
  }

  lemma {:induction false} LastFirst<T>(s: seq<T>)
    requires s != []
    ensures Reversed(s) == [s[|s| - 1]] + Reversed(s[..|s| - 1])
  {
    if |s| == 1 {
      assert s[1..] == [] && s[..0] == [];
    } else {
      LastFirst(s[1..]);
      assert s[1..][..|s| - 2] == s[..|s| - 1][1..];
    }
  }
}
