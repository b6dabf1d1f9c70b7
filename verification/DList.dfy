/** The circular doubly linked list of third-party/STC/include/stc/dlist.h. */
module DList {

  class Node<T> {
    var value: T
    var next: Node?<T>
    var prev: Node?<T>

    constructor (value: T)
      ensures this.value == value
    {
      this.value := value;
      next, prev := null, null;
    }
  }

  function Succ(i: nat, n: nat): nat {
    if i + 1 == n then 0 else i + 1
  }

  function Pred(i: nat, n: nat): nat
    requires n > 0
  {
    if i == 0 then n - 1 else i - 1
  }

  /** The nodes are distinct, and each is linked to its neighbours around the circle. */
  ghost predicate Ring<T>(nodes: seq<Node<T>>)
    reads nodes`next, nodes`prev
  {
    && (forall i {:trigger nodes[i].next} :: 0 <= i < |nodes| ==> nodes[i].next == nodes[Succ(i, |nodes|)])
    && (forall i {:trigger nodes[i].prev} :: 0 <= i < |nodes| ==> nodes[i].prev == nodes[Pred(i, |nodes|)])
    && (forall i, j :: 0 <= i < j < |nodes| ==> nodes[i] != nodes[j])
  }

  function Without<T>(s: seq<T>, i: nat): seq<T>
    requires i < |s|
  {
    s[..i] + s[i + 1..]
  }

  /** Taking node `i` out of a circle whose neighbours have been joined. */
  lemma Closed<T>(was: seq<Node<T>>, nodes: seq<Node<T>>, i: nat)
    requires |was| > 1 && i < |was| && nodes == Without(was, i)
    requires forall k, j :: 0 <= k < j < |was| ==> was[k] != was[j]
    requires was[Pred(i, |was|)].next == was[Succ(i, |was|)] && was[Succ(i, |was|)].prev == was[Pred(i, |was|)]
    requires forall k {:trigger was[k].next} :: 0 <= k < |was| && k != i && k != Pred(i, |was|) ==>
      was[k].next == was[Succ(k, |was|)]
    requires forall k {:trigger was[k].prev} :: 0 <= k < |was| && k != i && k != Succ(i, |was|) ==>
      was[k].prev == was[Pred(k, |was|)]
    ensures Ring(nodes)
  {
    forall k | 0 <= k < |nodes|
      ensures nodes[k].next == nodes[Succ(k, |nodes|)] && nodes[k].prev == nodes[Pred(k, |nodes|)]
    {
      var o := if k < i then k else k + 1;
      var before, after := Pred(k, |nodes|), Succ(k, |nodes|);
      assert nodes[k] == was[o];
      assert nodes[before] == was[if before < i then before else before + 1];
      assert nodes[after] == was[if after < i then after else after + 1];
    }
  }

  lemma LeftOut<T>(was: seq<Node<T>>, values: seq<T>, i: nat)
    requires i < |was| && (forall k, j :: 0 <= k < j < |was| ==> was[k] != was[j]) && Holds(was, values)
    ensures was[i] !in Without(was, i) && |Without(was, i)| == |was| - 1
    ensures |was| > 1 ==> Without(was, i)[|was| - 2] == was[if i == |was| - 1 then |was| - 2 else |was| - 1]
    ensures Holds(Without(was, i), Without(values, i))
  {
  }

  ghost predicate Holds<T>(nodes: seq<Node<T>>, values: seq<T>)
    reads nodes`value
  {
    |values| == |nodes| && forall i :: 0 <= i < |nodes| ==> nodes[i].value == values[i]
  }

  lemma WithoutMembers<T>(s: seq<T>, i: nat)
    requires i < |s|
    ensures forall x :: x in Without(s, i) ==> x in s
  {
  }

  /** The two pointer writes that take node `i` out of a circle. */
  method Join<T>(ref: Node<T>, next: Node<T>, ghost nodes: seq<Node<T>>, ghost i: nat)
    requires Ring(nodes) && i < |nodes| && ref == nodes[Pred(i, |nodes|)] && next == nodes[Succ(i, |nodes|)]
    modifies ref`next, next`prev
    ensures |nodes| > 1 ==> Ring(Without(nodes, i))
  {
    ref.next := next;
    next.prev := ref;
    if |nodes| > 1 {
      Closed(nodes, Without(nodes, i), i);
    }
  }

  class List<T> {
    var last: Node?<T>
    ghost var nodes: seq<Node<T>>
    ghost var values: seq<T>

    ghost predicate Valid()
      reads this, nodes
    {
      && Ring(nodes) && Holds(nodes, values)
      && (last == null <==> nodes == [])
      && (nodes != [] ==> last == nodes[|nodes| - 1])
    }

    constructor ()
      ensures Valid() && nodes == [] && values == []
    {
      last, nodes, values := null, [], [];
    }

    /** `_push_back_node`: links a node that is in no list yet (or no longer) in at the end. */
    method PushBackNode(node: Node<T>)
      requires Valid() && node !in nodes
      modifies this, nodes`next, nodes`prev, node`next, node`prev
      ensures Valid() && nodes == old(nodes) + [node] && values == old(values) + [node.value]
    {
      if last != null {
        node.next := last.next;
        node.prev := last;
        last.next := node;
        node.next.prev := node;
      } else {
        node.next := node;
        node.prev := node;
      }
      last := node;
      nodes, values := nodes + [node], values + [node.value];
    }

    /** `_push_back`. */
    method PushBack(value: T) returns (node: Node<T>)
      requires Valid()
      modifies this, nodes`next, nodes`prev
      ensures Valid() && fresh(node) && nodes == old(nodes) + [node] && values == old(values) + [value]
    {
      node := new Node(value);
      PushBackNode(node);
    }

    /** A write through the pointer that `_push_back` and `_push_back_node` return. */
    method SetBack(node: Node<T>, value: T)
      requires Valid() && nodes != [] && node == nodes[|nodes| - 1]
      modifies this`values, node`value
      ensures Valid() && nodes == old(nodes) && values == old(values)[|nodes| - 1 := value]
    {
      node.value := value;
      values := values[|nodes| - 1 := value];
    }

    /** `_unlink_after_node`; `i` is the place of the node that goes. */
    method UnlinkAfterNode(ref: Node<T>, ghost i: nat) returns (node: Node<T>)
      requires Valid() && i < |nodes| && ref == nodes[Pred(i, |nodes|)]
      modifies this, nodes`next, nodes`prev
      ensures Valid() && node == old(nodes)[i] && nodes == Without(old(nodes), i) && node !in nodes
      ensures values == Without(old(values), i)
    {
      ghost var was := nodes;
      LeftOut(nodes, values, i);
      assert Ring<T>([]);
      assert ref.next == nodes[i];
      node := ref.next;
      assert node.next == nodes[Succ(i, |nodes|)];
      var next := node.next;
      nodes, values := Without(nodes, i), Without(values, i);
      hide Without, Holds, Ring;
      Join(ref, next, was, i);
      if node == next {
        last := null;
      } else if node == last {
        last := ref;
      }
    }

    /** `_unlink_node`. */
    method UnlinkNode(node: Node<T>, ghost i: nat)
      requires Valid() && i < |nodes| && node == nodes[i]
      modifies this, nodes`next, nodes`prev
      ensures Valid() && nodes == Without(old(nodes), i) && node !in nodes
      ensures values == Without(old(values), i)
    {
      var _ := UnlinkAfterNode(node.prev, i);
    }

    /** `_unlink_node` followed by `_push_back_node`. */
    method MoveToBack(node: Node<T>, ghost i: nat)
      requires Valid() && i < |nodes| && node == nodes[i]
      modifies this, nodes`next, nodes`prev
      ensures Valid() && nodes == Without(old(nodes), i) + [node]
      ensures values == Without(old(values), i) + [old(values)[i]]
    {
      assert node.value == values[i];
      hide Ring, Without;
      UnlinkNode(node, i);
      PushBackNode(node);
    }

    /** `_drop`: erases from the front until nothing is left. */
    method Drop()
      requires Valid()
      modifies this, nodes`next, nodes`prev
      ensures Valid() && nodes == [] && values == []
    {
      while last != null
        invariant Valid() && (forall k :: 0 <= k < |nodes| ==> nodes[k] in old(nodes))
        decreases |nodes|
      {
        var _ := UnlinkAfterNode(last, 0);
      }
    }

    /** `_begin`. */
    method First() returns (node: Node?<T>)
      requires Valid()
      ensures node == if nodes == [] then null else nodes[0]
      ensures node != null ==> node.value == values[0]
    {
      node := if last == null then null else last.next;
    }

    /** `_next`; `k` is the place of `node`. */
    method Following(node: Node<T>, ghost k: nat) returns (next: Node?<T>)
      requires Valid() && k < |nodes| && node == nodes[k]
      ensures next == if k + 1 < |nodes| then nodes[k + 1] else null
      ensures next != null ==> next.value == values[k + 1]
    {
      assert node.next == nodes[Succ(k, |nodes|)];
      next := if node == last then null else node.next;
    }

    /** `_count`: a walk around the circle. */
    method Count() returns (n: nat)
      requires Valid()
      ensures n == |nodes|
    {
      if last == null {
        return 0;
      }
      n := 1;
      var node := last.next;
      while node != last
        invariant 0 < n <= |nodes| && node == nodes[n - 1]
        decreases |nodes| - n
      {
        node := node.next;
        n := n + 1;
      }
    }
  }
}
