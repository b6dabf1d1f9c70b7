/** A linked list with a map that finds the node of each key: src/pathlist.c and the in-memory part of
    src/history.c. */
module Indexed {
  import opened DList

  /** The map has each node under its key, and nothing else; so no two nodes share a key. */
  ghost predicate Agrees<V>(nodes: seq<Node<V>>, keys: seq<string>, index: map<string, Node<V>>) {
    && |keys| == |nodes|
    && (forall i :: 0 <= i < |keys| ==> keys[i] in index && index[keys[i]] == nodes[i])
    && (forall k :: k in index ==> k in keys)
  }

  lemma NoRepeats<V>(nodes: seq<Node<V>>, keys: seq<string>, index: map<string, Node<V>>)
    requires Agrees(nodes, keys, index) && Unrepeated(nodes)
    ensures Unrepeated(keys)
  {
  }

  /** A node and its key leave together. */
  lemma AgreesWithout<V>(nodes: seq<Node<V>>, keys: seq<string>, index: map<string, Node<V>>, i: nat)
    requires Agrees(nodes, keys, index) && Unrepeated(nodes) && i < |nodes|
    ensures Agrees(Without(nodes, i), Minus(keys, keys[i]), index - {keys[i]})
    ensures Minus(keys, keys[i]) == Without(keys, i)
  {
    NoRepeats(nodes, keys, index);
    MinusAt(keys, i);
    forall k | k in index - {keys[i]}
      ensures k in Without(keys, i)
    {
      var j := At(keys, k);
      assert keys[j] == Without(keys, i)[if j < i then j else j - 1];
    }
  }

  /** A node goes to the end. */
  lemma AgreesMoved<V>(nodes: seq<Node<V>>, keys: seq<string>, index: map<string, Node<V>>, i: nat)
    requires Agrees(nodes, keys, index) && i < |nodes|
    ensures Agrees(Without(nodes, i) + [nodes[i]], Without(keys, i) + [keys[i]], index)
  {
    var moved := Without(keys, i) + [keys[i]];
    forall k | k in index
      ensures k in moved
    {
      var j := At(keys, k);
      assert keys[j] == moved[if j < i then j else if j == i then |keys| - 1 else j - 1];
    }
  }

  /** A node under a new key joins at the end. */
  lemma AgreesWith<V>(nodes: seq<Node<V>>, keys: seq<string>, index: map<string, Node<V>>, node: Node<V>, key: string)
    requires Agrees(nodes, keys, index) && key !in index
    ensures Agrees(nodes + [node], keys + [key], index[key := node])
  {
  }

  /** Where the node of a key stands. */
  ghost function At<T>(s: seq<T>, x: T): (i: nat)
    requires x in s
    ensures i < |s| && s[i] == x
  {
    if s[0] == x then 0 else 1 + At(s[1..], x)
  }

  ghost predicate Unrepeated<T>(s: seq<T>) {
    forall i, j :: 0 <= i < j < |s| ==> s[i] != s[j]
  }

  function Minus<T(==)>(s: seq<T>, x: T): seq<T> {
    if s == [] then []
    else if s[0] == x then Minus(s[1..], x)
    else [s[0]] + Minus(s[1..], x)
  }

  lemma {:induction false} SizeOf(keys: seq<string>, all: set<string>)
    requires Unrepeated(keys) && forall k :: k in all <==> k in keys
    ensures |all| == |keys|
  {
    if keys == [] {
      assert all == {};
    } else {
      var n := |keys| - 1;
      assert forall k :: k in keys <==> k in keys[..n] || k == keys[n];
      assert keys[n] !in keys[..n];
      SizeOf(keys[..n], all - {keys[n]});
    }
  }

  lemma {:induction false} MinusAbsent<T>(s: seq<T>, x: T)
    requires x !in s
    ensures Minus(s, x) == s
  {
    if s != [] { MinusAbsent(s[1..], x); }
  }

  lemma {:induction false} MinusAt<T>(s: seq<T>, i: nat)
    requires i < |s| && Unrepeated(s)
    ensures Minus(s, s[i]) == Without(s, i)
  {
    if i == 0 {
      MinusAbsent(s[1..], s[0]);
    } else {
      MinusAt(s[1..], i - 1);
      assert s[0] != s[i];
      assert Without(s, i) == [s[0]] + Without(s[1..], i - 1);
    }
  }
}

module PathList {
  import opened DList
  import opened Indexed

  class PathList {
    const list: List<string>
    var index: map<string, Node<string>>

    ghost predicate Valid()
      reads this, list, list.nodes
    {
      list.Valid() && Agrees(list.nodes, Contents(), index)
    }

    /** The paths in insertion order. */
    ghost function Contents(): seq<string>
      reads list
    {
      list.values
    }

    constructor ()
      ensures Valid() && Contents() == [] && fresh(list) && list.nodes == []
    {
      list := new List();
      index := map[];
    }

    /** No path is listed twice. */
    lemma ListedOnce()
      requires Valid()
      ensures Unrepeated(Contents())
    {
      NoRepeats(list.nodes, Contents(), index);
    }

    /** `pathlist_contains`. */
    method Contains(path: string) returns (found: bool)
      requires Valid()
      ensures found == (path in Contents()) == (path in index)
    {
      found := path in index;
    }

    /** `pathlist_add`. */
    method Add(path: string) returns (added: bool)
      requires Valid()
      modifies this, list, list.nodes
      ensures Valid() && added == (path !in old(Contents()))
      ensures Contents() == if added then old(Contents()) + [path] else old(Contents())
      ensures forall k :: 0 <= k < |list.nodes| ==> list.nodes[k] in old(list.nodes) || fresh(list.nodes[k])
    {
      var found := Contains(path);
      added := !found;
      if added {
        var node := list.PushBack(path);
        AgreesWith(old(list.nodes), old(Contents()), index, node, path);
        index := index[path := node];
      }
    }

    method EraseAt(path: string, node: Node<string>, ghost i: nat)
      requires Valid() && i < |Contents()| && path == Contents()[i] && node == list.nodes[i]
      modifies this, list, list.nodes
      ensures Valid() && Contents() == Minus(old(Contents()), path)
      ensures forall k :: 0 <= k < |list.nodes| ==> list.nodes[k] in old(list.nodes)
    {
      AgreesWithout(list.nodes, Contents(), index, i);
      WithoutMembers(list.nodes, i);
      index := index - {path};
      hide Agrees, Minus, Holds, Without, Ring;
      list.UnlinkNode(node, i);
    }

    /** `pathlist_remove`. */
    method Remove(path: string) returns (removed: bool)
      requires Valid()
      modifies this, list, list.nodes
      ensures Valid() && removed == (path in old(Contents()))
      ensures Contents() == Minus(old(Contents()), path)
      ensures forall k :: 0 <= k < |list.nodes| ==> list.nodes[k] in old(list.nodes)
    {
      removed := Contains(path);
      if removed {
        EraseAt(path, index[path], At(Contents(), path));
      } else {
        MinusAbsent(Contents(), path);
      }
    }

    /** `pathlist_clear`. */
    method Clear()
      requires Valid()
      modifies this, list, list.nodes
      ensures Valid() && Contents() == [] && list.nodes == []
    {
      list.Drop();
      index := map[];
    }
  }
}
