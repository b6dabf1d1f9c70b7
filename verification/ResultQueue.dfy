/** The result queue of src/async/async.c: a singly linked intrusive list with head and tail pointers. The
    mutex makes each of the two operations one step. */
module ResultQueue {

  /** `struct result`; a work item carries its own link. */
  class Node<T> {
    const result: T
    var next: Node?<T>

    constructor (result: T)
      ensures this.result == result && next == null
    {
      this.result := result;
      next := null;
    }
  }

  class Queue<T> {
    var head: Node?<T>
    var tail: Node?<T>
    ghost var nodes: seq<Node<T>>

    ghost predicate Valid()
      reads this, nodes
    {
      && (head == null <==> nodes == []) && (tail == null <==> nodes == [])
      && (nodes != [] ==> head == nodes[0] && tail == nodes[|nodes| - 1])
      && (forall i :: 0 <= i < |nodes| - 1 ==> nodes[i].next == nodes[i + 1])
      && (nodes != [] ==> nodes[|nodes| - 1].next == null)
      && (forall i, j :: 0 <= i < j < |nodes| ==> nodes[i] != nodes[j])
    }

    ghost function Contents(): seq<T>
      reads this, nodes
    {
      seq(|nodes|, i requires 0 <= i < |nodes| reads this => nodes[i].result)
    }

    constructor ()
      ensures Valid() && nodes == [] && Contents() == []
    {
      head, tail, nodes := null, null, [];
    }

    /** `result_queue_put`. */
    method Put(res: Node<T>)
      requires Valid() && res !in nodes && res.next == null
      modifies this, nodes
      ensures Valid() && nodes == old(nodes) + [res]
      ensures Contents() == old(Contents()) + [res.result]
    {
      if head == null {
        head := res;
        tail := res;
      } else {
        tail.next := res;
        tail := res;
      }
      nodes := nodes + [res];
    }

    /** `result_queue_get`: the node comes back unlinked, so it can be put again. */
    method Get() returns (res: Node?<T>)
      requires Valid()
      modifies this, nodes
      ensures Valid() && (res == null <==> old(nodes) == [])
      ensures res == null ==> nodes == []
      ensures res != null ==> res == old(nodes)[0] && nodes == old(nodes)[1..] && res !in nodes && res.next == null
      ensures res != null ==> [res.result] + Contents() == old(Contents())
    {
      res := head;
      if res != null {
        assert |nodes| > 1 ==> nodes[0].next == nodes[1];
        head := res.next;
        res.next := null;
        if tail == res {
          tail := null;
        }
        nodes := nodes[1..];
        assert forall i :: 0 <= i < |nodes| ==> nodes[i] == old(nodes)[i + 1];
      }
    }
  }
}
