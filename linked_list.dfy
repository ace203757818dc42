/**
 * The intrusive doubly-linked list of Sources/Utility/LinkedList.swift.
 *
 * Nodes are heap objects whose `previous`/`next` links are rewired in place.
 * The list holds `firstNode` and `lastNode`; the ghost field `nodes` is the
 * order in which the nodes are reached by following `next` from `firstNode`.
 */
module LinkedLists {
  import opened Wrappers

  class Node<T> {
    const value: T
    var previous: Node?<T>
    var next: Node?<T>

    constructor (value: T)
      ensures this.value == value && previous == null && next == null
    {
      this.value := value;
      previous := null;
      next := null;
    }

    /** Makes the neighbours of this node point past it, in both directions. */
    method Bypass()
      requires previous != this && next != this
      requires previous == null || previous != next
      modifies previous, next
      ensures previous == old(previous) && next == old(next)
      ensures previous != null ==> previous.next == next && previous.previous == old(previous.previous)
      ensures next != null ==> next.previous == previous && next.next == old(next.next)
    {
      if previous != null {
        previous.next := next;
      }
      if next != null {
        next.previous := previous;
      }
    }

    /** Clears both sibling links. */
    method Unlink()
      modifies this
      ensures Detached()
    {
      next := null;
      previous := null;
    }

    /** Both sibling links are cleared, as `remove` leaves a node. */
    predicate Detached()
      reads this
    {
      previous == null && next == null
    }
  }

  /** The values held by `ns`, in order. */
  ghost function ValuesOf<T>(ns: seq<Node<T>>): (vs: seq<T>)
    ensures |vs| == |ns|
  {
    seq(|ns|, k requires 0 <= k < |ns| => ns[k].value)
  }

  lemma ValuesOfDelete<T>(ns: seq<Node<T>>, i: nat)
    requires i < |ns|
    ensures ValuesOf(Delete(ns, i)) == ValuesOf(ns)[..i] + ValuesOf(ns)[i + 1..]
  {
    var rest, vs := Delete(ns, i), ValuesOf(ns);
    assert |ValuesOf(rest)| == |vs[..i] + vs[i + 1..]|;
    forall k | 0 <= k < |rest|
      ensures ValuesOf(rest)[k] == (vs[..i] + vs[i + 1..])[k]
    {
      if k < i {
        assert rest[k] == ns[k];
      } else {
        assert rest[k] == ns[k + 1];
      }
    }
  }

  /** `s` without its element at `i`. */
  function Delete<X>(s: seq<X>, i: nat): (r: seq<X>)
    requires i < |s|
    ensures |r| == |s| - 1
  {
    s[..i] + s[i + 1..]
  }

  /** The position of `n` in `ns`. */
  ghost function IndexOf<T>(ns: seq<T>, n: T): (i: nat)
    requires n in ns
    ensures i < |ns| && ns[i] == n
  {
    if ns[0] == n then 0 else 1 + IndexOf(ns[1..], n)
  }

  /** In a sequence without repeats, an element's position is where it was put. */
  lemma IndexOfDistinct<T>(ns: seq<T>, j: nat)
    requires Distinct(ns) && j < |ns|
    ensures IndexOf(ns, ns[j]) == j
  {
    var i := IndexOf(ns, ns[j]);
    if i != j {
      DistinctAt(ns, i, j);
    }
  }

  /** The node that must precede `ns[i]`: none for the first. */
  function Before<T>(ns: seq<Node<T>>, i: nat): Node?<T>
    requires i < |ns|
  {
    if i == 0 then null else ns[i - 1]
  }

  /** The node that must follow `ns[i]`: none for the last. */
  function After<T>(ns: seq<Node<T>>, i: nat): Node?<T>
    requires i < |ns|
  {
    if i == |ns| - 1 then null else ns[i + 1]
  }

  /** `ns[i]` and `ns[j]` are different; only mentioning it brings the fact into a proof. */
  ghost predicate Apart<T>(ns: seq<T>, i: nat, j: nat)
    requires i < |ns| && j < |ns|
  {
    ns[i] != ns[j]
  }

  /** No element occurs twice in `ns`. */
  ghost predicate Distinct<T>(ns: seq<T>) {
    forall i, j {:trigger Apart(ns, i, j)} :: 0 <= i < j < |ns| ==> Apart(ns, i, j)
  }

  lemma DistinctAt<T>(ns: seq<T>, a: nat, b: nat)
    requires Distinct(ns) && a < |ns| && b < |ns| && a != b
    ensures ns[a] != ns[b]
  {
    if a < b {
      assert Apart(ns, a, b);
    } else {
      assert Apart(ns, b, a);
    }
  }

  /** Away from position `i`, no element of `ns` is `ns[i]` or one of its neighbours. */
  lemma OthersApart<T>(ns: seq<T>, i: nat)
    requires i < |ns| && Distinct(ns)
    ensures forall k {:trigger ns[k]} :: 0 <= k < |ns| && k != i - 1 && k != i && k != i + 1 ==>
      ns[k] != ns[i] && (0 < i ==> ns[k] != ns[i - 1]) && (i + 1 < |ns| ==> ns[k] != ns[i + 1])
  {
    forall k | 0 <= k < |ns| && k != i - 1 && k != i && k != i + 1
      ensures ns[k] != ns[i] && (0 < i ==> ns[k] != ns[i - 1]) && (i + 1 < |ns| ==> ns[k] != ns[i + 1])
    {
      DistinctAt(ns, k, i);
      if 0 < i {
        DistinctAt(ns, k, i - 1);
      }
      if i + 1 < |ns| {
        DistinctAt(ns, k, i + 1);
      }
    }
  }

  /** Every node of `ns` links back to its predecessor and on to its successor. */
  ghost predicate Linked<T>(ns: seq<Node<T>>)
    reads ns
  {
    (forall k {:trigger ns[k].previous} :: 0 <= k < |ns| ==> ns[k].previous == Before(ns, k)) &&
    (forall k {:trigger ns[k].next} :: 0 <= k < |ns| ==> ns[k].next == After(ns, k))
  }

  /** Deleting one element keeps the others distinct and names the new ends. */
  lemma DistinctAfterDelete<T>(ns: seq<Node<T>>, i: nat)
    requires i < |ns| && Distinct(ns)
    ensures Distinct(Delete(ns, i))
    ensures |ns| > 1 ==> (Delete(ns, i))[0] == (if i == 0 then ns[1] else ns[0])
    ensures |ns| > 1 ==> (Delete(ns, i))[|ns| - 2] == (if i == |ns| - 1 then ns[|ns| - 2] else ns[|ns| - 1])
  {
    var rest := Delete(ns, i);
    forall a, b | 0 <= a < b < |rest|
      ensures Apart(rest, a, b)
    {
      var a', b' := if a < i then a else a + 1, if b < i then b else b + 1;
      assert rest[a] == ns[a'] && rest[b] == ns[b'];
      DistinctAt(ns, a', b');
    }
  }

  /** Once the neighbours of `ns[i]` point past it, the rest of `ns` is linked. */
  lemma LinkedAfterDelete<T>(ns: seq<Node<T>>, i: nat)
    requires i < |ns|
    requires forall k {:trigger ns[k].previous} :: 0 <= k < |ns| && k != i - 1 && k != i && k != i + 1 ==>
      ns[k].previous == Before(ns, k)
    requires forall k {:trigger ns[k].next} :: 0 <= k < |ns| && k != i - 1 && k != i && k != i + 1 ==>
      ns[k].next == After(ns, k)
    requires 0 < i ==> ns[i - 1].previous == Before(ns, i - 1) && ns[i - 1].next == After(ns, i)
    requires i + 1 < |ns| ==> ns[i + 1].previous == Before(ns, i) && ns[i + 1].next == After(ns, i + 1)
    ensures Linked(Delete(ns, i))
  {
    var rest := Delete(ns, i);
    forall k | 0 <= k < |rest|
      ensures rest[k].previous == Before(rest, k)
      ensures rest[k].next == After(rest, k)
    {
      if k < i {
        assert rest[k] == ns[k];
      } else {
        assert rest[k] == ns[k + 1];
      }
    }
  }

  class LinkedList<T> {
    var firstNode: Node?<T>
    var lastNode: Node?<T>
    ghost var nodes: seq<Node<T>>

    /** The links of the nodes spell out `nodes`, with no node twice. */
    ghost predicate Valid()
      reads this, nodes
    {
      (|nodes| == 0 ==> firstNode == null && lastNode == null) &&
      (|nodes| > 0 ==> firstNode == nodes[0] && lastNode == nodes[|nodes| - 1]) &&
      Distinct(nodes) && Linked(nodes)
    }

    /** The values an iteration yields. */
    ghost function Values(): seq<T>
      reads this
    {
      ValuesOf(nodes)
    }

    constructor ()
      ensures Valid() && nodes == [] && Values() == []
    {
      firstNode := null;
      lastNode := null;
      nodes := [];
    }

    /** An empty list has neither a first nor a last node. */
    lemma EndsAgree()
      requires Valid()
      ensures firstNode == null <==> lastNode == null
      ensures firstNode == null <==> nodes == []
    {
    }

    method Append(value: T) returns (node: Node<T>)
      requires Valid()
      modifies this, lastNode
      ensures Valid()
      ensures fresh(node) && node.value == value
      ensures nodes == old(nodes) + [node]
      ensures Values() == old(Values()) + [value]
      ensures lastNode == node
      ensures node.previous == old(lastNode) && node.next == null
      ensures old(lastNode) != null ==> old(lastNode).next == node
      ensures firstNode == if old(firstNode) == null then node else old(firstNode)
    {
      ghost var ns := nodes;
      node := new Node(value);
      node.previous := lastNode;
      if lastNode != null {
        lastNode.next := node;
      }
      lastNode := node;
      if firstNode == null {
        firstNode := node;
      }
      nodes := nodes + [node];
      forall a, b | 0 <= a < b < |nodes|
        ensures Apart(nodes, a, b)
      {
        if b < |ns| {
          assert Apart(ns, a, b);
        }
      }
      forall k | 0 <= k < |nodes|
        ensures nodes[k].previous == Before(nodes, k)
        ensures nodes[k].next == After(nodes, k)
      {
        if k < |ns| {
          assert nodes[k] == ns[k];
          assert old(ns[k].previous) == Before(ns, k);
          assert old(ns[k].next) == After(ns, k);
        }
      }
    }

    /**
     * The list `remove` leaves behind: the nodes of `ns` other than `ns[i]`
     * and its neighbours kept their links, and the neighbours point past it.
     */
    twostate lemma RemovedIsValid(new ns: seq<Node<T>>, i: nat)
      requires old(Valid()) && old(nodes) == ns && i < |ns|
      requires forall k {:trigger ns[k].previous} {:trigger ns[k].next} ::
        0 <= k < |ns| && k != i - 1 && k != i && k != i + 1 ==>
        ns[k].previous == old(ns[k].previous) && ns[k].next == old(ns[k].next)
      requires 0 < i ==> ns[i - 1].next == After(ns, i) && ns[i - 1].previous == old(ns[i - 1].previous)
      requires i + 1 < |ns| ==> ns[i + 1].previous == Before(ns, i) && ns[i + 1].next == old(ns[i + 1].next)
      requires firstNode == if i == 0 then After(ns, i) else ns[0]
      requires lastNode == if i == |ns| - 1 then Before(ns, i) else ns[|ns| - 1]
      requires nodes == Delete(ns, i)
      ensures Valid()
      ensures Values() == Delete(old(Values()), i)
    {
      forall k | 0 <= k < |ns| && k != i - 1 && k != i && k != i + 1
        ensures ns[k].previous == Before(ns, k)
        ensures ns[k].next == After(ns, k)
      {
        assert old(ns[k].previous) == Before(ns, k);
        assert old(ns[k].next) == After(ns, k);
      }
      if 0 < i {
        assert old(ns[i - 1].previous) == Before(ns, i - 1);
      }
      if i + 1 < |ns| {
        assert old(ns[i + 1].next) == After(ns, i + 1);
      }
      LinkedAfterDelete(ns, i);
      DistinctAfterDelete(ns, i);
      ValuesOfDelete(ns, i);
    }

    /** An end of the list that is `node` moves to the node's neighbour. */
    method MoveEndsOff(node: Node<T>)
      modifies this
      ensures firstNode == if old(firstNode) == node then node.next else old(firstNode)
      ensures lastNode == if old(lastNode) == node then node.previous else old(lastNode)
      ensures nodes == old(nodes)
    {
      if firstNode == node {
        firstNode := node.next;
      }
      if lastNode == node {
        lastNode := node.previous;
      }
    }

    method Remove(node: Node<T>)
      requires Valid()
      requires node in nodes || node.Detached()
      modifies this, node, node.previous, node.next
      ensures Valid()
      ensures node.Detached()
      ensures old(node in nodes) ==> nodes == Delete(old(nodes), old(IndexOf(nodes, node)))
      ensures old(node in nodes) ==> Values() == Delete(old(Values()), old(IndexOf(nodes, node)))
      ensures old(node !in nodes) ==> nodes == old(nodes) && Values() == old(Values())
      ensures old(node.previous) != null ==> old(node.previous).next == old(node.next)
      ensures old(node.next) != null ==> old(node.next).previous == old(node.previous)
      ensures firstNode == if old(firstNode) == node then old(node.next) else old(firstNode)
      ensures lastNode == if old(lastNode) == node then old(node.previous) else old(lastNode)
    {
      ghost var ns := nodes;
      ghost var i := if node in nodes then IndexOf(nodes, node) else 0;
      if node in ns {
        if 0 < i {
          DistinctAt(ns, i - 1, i);
        }
        if i + 1 < |ns| {
          DistinctAt(ns, i, i + 1);
          if 0 < i {
            DistinctAt(ns, i - 1, i + 1);
          }
        }
        OthersApart(ns, i);
      }
      node.Bypass();
      MoveEndsOff(node);
      node.Unlink();
      if node in ns {
        nodes := Delete(ns, i);
        RemovedIsValid(ns, i);
      }
    }

    method MakeIterator() returns (it: ListIterator<T>)
      requires Valid()
      ensures fresh(it) && it.Valid() && it.list == this && it.index == 0
    {
      it := new ListIterator(this);
    }
  }

  /**
   * The `AnyIterator` of `makeIterator`: it captures `firstNode` and then
   * follows the `next` links live.
   */
  class ListIterator<T> {
    var node: Node?<T>
    ghost const list: LinkedList<T>
    ghost var index: nat

    ghost predicate Valid()
      reads this, list, list.nodes
    {
      list.Valid() && index <= |list.nodes| &&
      node == if index < |list.nodes| then list.nodes[index] else null
    }

    constructor (list: LinkedList<T>)
      requires list.Valid()
      ensures Valid() && this.list == list && index == 0
    {
      node := list.firstNode;
      this.list := list;
      index := 0;
    }

    /** Yields the value of the current node and moves to its successor. */
    method Next() returns (v: Option<T>)
      requires Valid()
      modifies this
      ensures Valid()
      ensures old(index) < |list.nodes| ==> v == Some(list.Values()[old(index)]) && index == old(index) + 1
      ensures old(index) == |list.nodes| ==> v == None && index == old(index)
    {
      if node == null {
        v := None;
      } else {
        v := Some(node.value);
        assert node == list.nodes[index];
        assert node.next == After(list.nodes, index);
        node := node.next;
        index := index + 1;
      }
    }
  }

  /** A `for value in list` loop: collects what the iterator yields until it returns nil. */
  method Elements<T>(list: LinkedList<T>) returns (vs: seq<T>)
    requires list.Valid()
    ensures vs == list.Values()
  {
    var it := list.MakeIterator();
    vs := [];
    while true
      invariant it.Valid() && it.list == list && fresh(it)
      invariant vs == list.Values()[..it.index]
      decreases |list.nodes| - it.index
    {
      var v := it.Next();
      if v.None? {
        break;
      }
      vs := vs + [v.value];
    }
  }
}
