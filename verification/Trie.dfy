/** What a trie means, on a snapshot of its nodes: src/trie.c. */
module TrieSpec {

  datatype Option<T> = None | Some(value: T)

  /** A node: its key and reference (0 for none), its children with their keys in sibling order, its parent and
      its depth. */
  datatype Cell<N> = Cell(key: nat, ref: int, keys: seq<nat>, kids: seq<N>, up: Option<N>, depth: nat)

  /** How many of the sorted siblings have a larger key: where the key is, or belongs. */
  function Place(keys: seq<nat>, key: nat): (i: nat)
    ensures i <= |keys| && (forall j :: 0 <= j < i ==> keys[j] > key) && (i < |keys| ==> keys[i] <= key)
  {
    if keys == [] || keys[0] <= key then 0 else 1 + Place(keys[1..], key)
  }

  function Kid<N>(c: Cell<N>, key: nat): Option<N> {
    var i := Place(c.keys, key);
    if i < |c.keys| && i < |c.kids| && c.keys[i] == key then Some(c.kids[i]) else None
  }

  ghost predicate Descending(keys: seq<nat>) {
    forall i, j :: 0 <= i < j < |keys| ==> keys[i] > keys[j]
  }

  predicate IsKid<N(==)>(c: Cell<N>, up: N, key: nat, depth: nat) {
    c.up == Some(up) && c.key == key && c.depth == depth
  }

  /** Siblings strictly descending, links closed, and every node below exactly one parent. */
  ghost predicate Tree<N>(g: map<N, Cell<N>>, root: N) {
    && root in g && g[root].up == None && g[root].depth == 0
    && (forall n :: n in g ==> Sorted(g[n]))
    && (forall n, i :: n in g && 0 <= i < |g[n].kids| && i < |g[n].keys| ==> Linked(g, n, i))
    && (forall n :: n in g && n != root ==> g[n].up.Some?)
  }

  ghost predicate Sorted<N>(c: Cell<N>) {
    Descending(c.keys) && |c.kids| == |c.keys|
  }

  /** Child `i` of a node knows its parent. */
  predicate Linked<N(==)>(g: map<N, Cell<N>>, n: N, i: nat)
    requires n in g && i < |g[n].kids| && i < |g[n].keys|
  {
    g[n].kids[i] in g && IsKid(g[g[n].kids[i]], n, g[n].keys[i], g[n].depth + 1)
  }

  function Walk<N>(g: map<N, Cell<N>>, n: N, q: seq<nat>): Option<N> {
    if n !in g then None
    else if q == [] then Some(n)
    else match Kid(g[n], q[0])
      case None => None
      case Some(m) => Walk(g, m, q[1..])
  }

  /** The reference a key sequence is mapped to, 0 if it is not. */
  function Ref<N>(g: map<N, Cell<N>>, n: N, q: seq<nat>): int {
    match Walk(g, n, q)
    case None => 0
    case Some(m) => if m in g then g[m].ref else 0
  }

  // ---------------------------------------------------------------- places and children

  lemma {:induction false} PlaceOf(keys: seq<nat>, i: nat)
    requires Descending(keys) && i < |keys|
    ensures Place(keys, keys[i]) == i
  {
    if i > 0 { PlaceOf(keys[1..], i - 1); }
  }

  lemma KidIs<N>(c: Cell<N>, key: nat, i: nat)
    requires Descending(c.keys) && |c.kids| == |c.keys| && i < |c.keys| && c.keys[i] == key
    ensures Kid(c, key) == Some(c.kids[i])
  {
    PlaceOf(c.keys, i);
  }

  lemma KidLinked<N>(g: map<N, Cell<N>>, root: N, n: N, key: nat)
    requires Tree(g, root) && n in g && Kid(g[n], key).Some?
    ensures var m := Kid(g[n], key).value; m in g && IsKid(g[m], n, key, g[n].depth + 1)
  {
    assert Sorted(g[n]) && Linked(g, n, Place(g[n].keys, key));
  }

  lemma {:induction false} WalkSnoc<N>(g: map<N, Cell<N>>, n: N, q: seq<nat>, key: nat)
    ensures Walk(g, n, q + [key]) ==
      match Walk(g, n, q)
      case None => None
      case Some(m) => if m in g && Kid(g[m], key).Some? && Kid(g[m], key).value in g then Kid(g[m], key) else None
  {
    if n in g {
      if q == [] {
        assert [] + [key] == [key] && [key][1..] == [];
      } else {
        assert (q + [key])[1..] == q[1..] + [key];
        match Kid(g[n], q[0])
        case None =>
        case Some(m) => WalkSnoc(g, m, q[1..], key);
      }
    }
  }

  lemma {:induction false} WalkSplit<N>(g: map<N, Cell<N>>, n: N, p: seq<nat>, q: seq<nat>)
    ensures Walk(g, n, p + q) == match Walk(g, n, p) case None => None case Some(m) => Walk(g, m, q)
  {
    if n in g {
      if p == [] {
        assert p + q == q;
      } else {
        assert (p + q)[1..] == p[1..] + q;
        match Kid(g[n], p[0])
        case None =>
        case Some(m) => WalkSplit(g, m, p[1..], q);
      }
    }
  }

  lemma {:induction false} WalkDepth<N>(g: map<N, Cell<N>>, root: N, n: N, q: seq<nat>)
    requires Tree(g, root) && n in g
    ensures Walk(g, n, q).Some? ==> Walk(g, n, q).value in g && g[Walk(g, n, q).value].depth == g[n].depth + |q|
  {
    if q != [] {
      match Kid(g[n], q[0])
      case None =>
      case Some(m) =>
        KidLinked(g, root, n, q[0]);
        WalkDepth(g, root, m, q[1..]);
    }
  }

  /** Only one key sequence leads to a node. */
  lemma {:induction false} WalkUnique<N>(g: map<N, Cell<N>>, root: N, n: N, p: seq<nat>, q: seq<nat>)
    requires Tree(g, root) && n in g && Walk(g, n, p).Some? && Walk(g, n, q) == Walk(g, n, p)
    ensures p == q
    decreases |p|
  {
    WalkDepth(g, root, n, p);
    WalkDepth(g, root, n, q);
    if p != [] {
      var i := |p| - 1;
      var p', q' := p[..i], q[..i];
      assert p == p' + [p[i]] && q == q' + [q[i]];
      WalkSnoc(g, n, p', p[i]);
      WalkSnoc(g, n, q', q[i]);
      var a, b := Walk(g, n, p').value, Walk(g, n, q').value;
      WalkDepth(g, root, n, p');
      WalkDepth(g, root, n, q');
      var x, y := Place(g[a].keys, p[i]), Place(g[b].keys, q[i]);
      assert Linked(g, a, x) && Linked(g, b, y) && Sorted(g[a]) && Sorted(g[b]);
      hide Walk, Tree, Sorted, Place;
      WalkUnique(g, root, n, p', q');
    }
  }

  // ---------------------------------------------------------------- changing a reference

  function SetRef<N>(g: map<N, Cell<N>>, n: N, ref: int): map<N, Cell<N>>
    requires n in g
  {
    g[n := g[n].(ref := ref)]
  }

  lemma {:induction false} SetRefWalk<N>(g: map<N, Cell<N>>, t: N, ref: int, n: N, q: seq<nat>)
    requires t in g
    ensures Walk(SetRef(g, t, ref), n, q) == Walk(g, n, q)
  {
    if n in g && q != [] {
      match Kid(g[n], q[0])
      case None =>
      case Some(m) => SetRefWalk(g, t, ref, m, q[1..]);
    }
  }

  lemma SetRefMeans<N>(g: map<N, Cell<N>>, root: N, t: N, ref: int, k: seq<nat>, q: seq<nat>)
    requires Tree(g, root) && Walk(g, root, k) == Some(t) && t in g
    ensures Ref(SetRef(g, t, ref), root, q) == if q == k then ref else Ref(g, root, q)
  {
    SetRefWalk(g, t, ref, root, q);
    if Walk(g, root, q) == Some(t) {
      WalkUnique(g, root, root, k, q);
    }
  }

  lemma SetRefTree<N>(g: map<N, Cell<N>>, root: N, t: N, ref: int)
    requires Tree(g, root) && t in g
    ensures Tree(SetRef(g, t, ref), root)
  {
    var g' := SetRef(g, t, ref);
    forall n, i | n in g' && 0 <= i < |g'[n].kids| && i < |g'[n].keys|
      ensures Linked(g', n, i)
    {
      assert Linked(g, n, i);
    }
  }

  lemma SetRefAll<N>(g: map<N, Cell<N>>, root: N, t: N, ref: int, k: seq<nat>)
    requires Tree(g, root) && Walk(g, root, k) == Some(t)
    ensures t in g && g[t].ref == Ref(g, root, k)
    ensures forall q :: Ref(SetRef(g, t, ref), root, q) == if q == k then ref else Ref(g, root, q)
    ensures PrunedBut(g, root, t) && (ref != 0 || g[t].kids != []) ==> PrunedBut(SetRef(g, t, ref), root, root)
  {
    WalkDepth(g, root, root, k);
    forall q
      ensures Ref(SetRef(g, t, ref), root, q) == if q == k then ref else Ref(g, root, q)
    {
      SetRefMeans(g, root, t, ref, k, q);
    }
  }

  // ---------------------------------------------------------------- a new child

  function InsertAt<T>(s: seq<T>, i: nat, x: T): seq<T>
    requires i <= |s|
  {
    s[..i] + [x] + s[i..]
  }

  function AddKid<N>(g: map<N, Cell<N>>, t: N, key: nat, m: N): map<N, Cell<N>>
    requires t in g && |g[t].kids| == |g[t].keys|
  {
    var c := g[t];
    var i := Place(c.keys, key);
    g[t := c.(keys := InsertAt(c.keys, i, key), kids := InsertAt(c.kids, i, m))][m := Cell(key, 0, [], [], Some(t),
      c.depth + 1)]
  }

  lemma {:induction false} InsertDescending(keys: seq<nat>, key: nat)
    requires Descending(keys) && key !in keys
    ensures Descending(InsertAt(keys, Place(keys, key), key))
  {
    assert forall j :: Place(keys, key) <= j < |keys| ==> keys[j] < key;
    hide Place;
  }

  lemma InsertFirst<T>(s: seq<T>, x: T)
    ensures var s' := InsertAt(s, 0, x); |s'| > 0 && s'[0] == x && s'[1..] == s
  {
  }

  lemma InsertLater<T>(s: seq<T>, i: nat, x: T)
    requires 0 < i <= |s|
    ensures var s' := InsertAt(s, i, x); |s'| > 0 && s'[0] == s[0] && s'[1..] == InsertAt(s[1..], i - 1, x)
  {
  }

  lemma {:induction false} PlaceInsert(keys: seq<nat>, key: nat, k: nat)
    requires Descending(keys) && key !in keys
    ensures Place(InsertAt(keys, Place(keys, key), key), k) == Place(keys, k) + if k < key then 1 else 0
  {
    var i := Place(keys, key);
    if i == 0 {
      InsertFirst(keys, key);
      hide InsertAt, Descending;
    } else {
      var tail := InsertAt(keys[1..], i - 1, key);
      InsertLater(keys, i, key);
      assert Descending(keys[1..]) && keys[0] > key;
      hide InsertAt, Descending;
      PlaceInsert(keys[1..], key, k);
    }
  }

  lemma {:induction false} PlaceIs(keys: seq<nat>, key: nat, i: nat)
    requires i <= |keys| && (forall j :: 0 <= j < i ==> keys[j] > key) && (i < |keys| ==> keys[i] <= key)
    ensures Place(keys, key) == i
  {
    if i > 0 { PlaceIs(keys[1..], key, i - 1); }
  }

  lemma AddKidTree<N>(g: map<N, Cell<N>>, root: N, t: N, key: nat, m: N)
    requires Tree(g, root) && t in g && m !in g && key !in g[t].keys
    ensures Tree(AddKid(g, t, key, m), root)
  {
    var g' := AddKid(g, t, key, m);
    var i := Place(g[t].keys, key);
    assert Sorted(g[t]);
    InsertDescending(g[t].keys, key);
    forall n, j | n in g' && 0 <= j < |g'[n].kids| && j < |g'[n].keys|
      ensures Linked(g', n, j)
    {
      AddKidLinked(g, root, t, key, m, n, j);
    }
    hide Place, InsertAt, Linked;
  }

  lemma AddKidLinked<N>(g: map<N, Cell<N>>, root: N, t: N, key: nat, m: N, n: N, j: nat)
    requires Tree(g, root) && t in g && m !in g && key !in g[t].keys
    requires var g' := AddKid(g, t, key, m); n in g' && j < |g'[n].kids| && j < |g'[n].keys|
    ensures Linked(AddKid(g, t, key, m), n, j)
  {
    var i := Place(g[t].keys, key);
    assert Sorted(g[n]) && Sorted(g[t]);
    if n != t {
      assert Linked(g, n, j);
      hide Tree, Place, InsertAt, Sorted;
    } else {
      InsertGet(g[t].keys, i, key, j);
      InsertGet(g[t].kids, i, m, j);
      if j != i {
        assert Linked(g, t, if j < i then j else j - 1);
      }
      hide Tree, Place, InsertAt, Sorted;
    }
  }

  lemma KidInsert<N>(c: Cell<N>, key: nat, m: N, k: nat)
    requires Sorted(c) && key !in c.keys
    ensures var i := Place(c.keys, key);
      Kid(c.(keys := InsertAt(c.keys, i, key), kids := InsertAt(c.kids, i, m)), k) ==
        if k == key then Some(m) else Kid(c, k)
  {
    var i, p := Place(c.keys, key), Place(c.keys, k);
    assert i < |c.keys| ==> c.keys[i] < key;
    PlaceInsert(c.keys, key, k);
    var p' := p + if k < key then 1 else 0;
    var keys, kids := InsertAt(c.keys, i, key), InsertAt(c.kids, i, m);
    InsertGet(c.keys, i, key, p');
    InsertGet(c.kids, i, m, p');
    assert |keys| == |c.keys| + 1 && |kids| == |keys|;
    if k < key { PlaceMonotone(c.keys, key, k); } else { PlaceMonotone(c.keys, k, key); }
    hide InsertAt, Place, Sorted, Descending;
  }

  lemma InsertGet<T>(s: seq<T>, i: nat, x: T, j: nat)
    requires i <= |s| && j <= |s| + 1
    ensures |InsertAt(s, i, x)| == |s| + 1
    ensures j <= |s| ==> InsertAt(s, i, x)[j] == if j < i then s[j] else if j == i then x else s[j - 1]
  {
  }

  lemma KidAfterAdd<N>(g: map<N, Cell<N>>, root: N, t: N, key: nat, m: N, k: nat)
    requires Tree(g, root) && t in g && m !in g && key !in g[t].keys
    ensures Kid(AddKid(g, t, key, m)[t], k) == if k == key then Some(m) else Kid(g[t], k)
  {
    assert Sorted(g[t]);
    KidInsert(g[t], key, m, k);
  }

  lemma {:induction false} PlaceMonotone(keys: seq<nat>, a: nat, b: nat)
    requires a >= b
    ensures Place(keys, a) <= Place(keys, b)
  {
    if keys != [] { PlaceMonotone(keys[1..], a, b); }
  }

  lemma KidInGrown<N>(g: map<N, Cell<N>>, root: N, t: N, key: nat, m: N, n: N, k: nat)
    requires Tree(g, root) && t in g && m !in g && key !in g[t].keys && n in g
    ensures var g' := AddKid(g, t, key, m);
      && m in g' && g'[m].keys == []
      && n in g' && Kid(g'[n], k) == if n == t && k == key then Some(m) else Kid(g[n], k)
  {
    KidAfterAdd(g, root, t, key, m, k);
    hide Kid, Tree;
  }

  lemma WalkLeaf<N>(g: map<N, Cell<N>>, n: N, q: seq<nat>)
    requires n in g && g[n].keys == []
    ensures Walk(g, n, q) == if q == [] then Some(n) else None
  {
  }

  lemma {:induction false} AddKidWalk<N>(g: map<N, Cell<N>>, root: N, t: N, key: nat, m: N, n: N, q: seq<nat>)
    requires Tree(g, root) && t in g && m !in g && key !in g[t].keys && n in g
    ensures Walk(AddKid(g, t, key, m), n, q) ==
      if q != [] && q[|q| - 1] == key && Walk(g, n, q[..|q| - 1]) == Some(t) then Some(m) else Walk(g, n, q)
  {
    var g' := AddKid(g, t, key, m);
    if q != [] {
      KidInGrown(g, root, t, key, m, n, q[0]);
      if |q| > 1 { assert q[1..][..|q| - 2] == q[..|q| - 1][1..]; }
      if n == t && q[0] == key {
        WalkLeaf(g', m, q[1..]);
        if |q| > 1 { WalkDead(g, n, q[..|q| - 1]); }
      } else {
        match Kid(g[n], q[0])
        case None =>
          if |q| > 1 { WalkDead(g, n, q[..|q| - 1]); }
        case Some(x) =>
          KidLinked(g, root, n, q[0]);
          hide AddKid, Kid, Tree;
          AddKidWalk(g, root, t, key, m, x, q[1..]);
      }
    }
  }

  lemma WalkDead<N>(g: map<N, Cell<N>>, n: N, q: seq<nat>)
    requires q != [] && n in g && Kid(g[n], q[0]) == None
    ensures Walk(g, n, q) == None
  {
  }

  lemma AddKidRefs<N>(g: map<N, Cell<N>>, root: N, t: N, key: nat, m: N)
    requires Tree(g, root) && t in g && m !in g && key !in g[t].keys
    ensures var g' := AddKid(g, t, key, m);
      && m in g' && g'[m].ref == 0 && Kid(g[t], key) == None
      && forall n :: n in g ==> n in g' && g'[n].ref == g[n].ref
  {
  }

  /** Linking in an empty node changes no mapping. */
  lemma AddKidMeans<N>(g: map<N, Cell<N>>, root: N, t: N, key: nat, m: N, q: seq<nat>)
    requires Tree(g, root) && t in g && m !in g && key !in g[t].keys
    ensures Ref(AddKid(g, t, key, m), root, q) == Ref(g, root, q)
  {
    var g' := AddKid(g, t, key, m);
    assert root in g;
    AddKidRefs(g, root, t, key, m);
    hide AddKid, Kid, Tree, Ref, Walk;
    AddKidWalk(g, root, t, key, m, root, q);
    if q != [] && q[|q| - 1] == key && Walk(g, root, q[..|q| - 1]) == Some(t) {
      var front := q[..|q| - 1];
      assert q == front + [key];
      WalkSnoc(g, root, front, key);
      hide *;
      RefIs(g, root, q);
      RefIs(g', root, q);
    } else {
      assert Walk(g', root, q) == Walk(g, root, q);
      WalkDepth(g, root, root, q);
      SameRef(g, g', root, q);
    }
  }

  lemma SameRef<N>(g: map<N, Cell<N>>, g': map<N, Cell<N>>, n: N, q: seq<nat>)
    requires Walk(g', n, q) == Walk(g, n, q) && (Walk(g, n, q).Some? ==> Walk(g, n, q).value in g)
    requires forall x :: x in g ==> x in g' && g'[x].ref == g[x].ref
    ensures Ref(g', n, q) == Ref(g, n, q)
  {
  }

  lemma AddKidAll<N>(g: map<N, Cell<N>>, root: N, t: N, key: nat, m: N, k: seq<nat>)
    requires Tree(g, root) && t in g && m !in g && key !in g[t].keys && Walk(g, root, k) == Some(t)
    ensures forall q :: Ref(AddKid(g, t, key, m), root, q) == Ref(g, root, q)
    ensures Walk(AddKid(g, t, key, m), root, k + [key]) == Some(m)
    ensures PrunedBut(g, root, t) ==> PrunedBut(AddKid(g, t, key, m), root, m)
  {
    assert (k + [key])[..|k|] == k;
    AddKidWalk(g, root, t, key, m, root, k + [key]);
    assert Sorted(g[t]);
    forall q
      ensures Ref(AddKid(g, t, key, m), root, q) == Ref(g, root, q)
    {
      AddKidMeans(g, root, t, key, m, q);
    }
  }

  lemma RefIs<N>(g: map<N, Cell<N>>, n: N, q: seq<nat>)
    ensures Walk(g, n, q) == None ==> Ref(g, n, q) == 0
    ensures Walk(g, n, q).Some? && Walk(g, n, q).value in g ==> Ref(g, n, q) == g[Walk(g, n, q).value].ref
  {
  }

  // ---------------------------------------------------------------- an empty child leaves

  predicate EmptyKid<N(==)>(g: map<N, Cell<N>>, t: N, i: nat)
    requires t in g && i < |g[t].kids|
  {
    g[t].kids[i] in g && g[g[t].kids[i]].(key := 0, up := None, depth := 0) == Cell(0, 0, [], [], None, 0)
  }

  function RemoveAt<T>(s: seq<T>, i: nat): seq<T>
    requires i < |s|
  {
    s[..i] + s[i + 1..]
  }

  function DropKid<N>(g: map<N, Cell<N>>, t: N, i: nat): map<N, Cell<N>>
    requires t in g && |g[t].kids| == |g[t].keys| && i < |g[t].keys|
  {
    var c := g[t];
    g[t := c.(keys := RemoveAt(c.keys, i), kids := RemoveAt(c.kids, i))] - {c.kids[i]}
  }

  lemma RemoveDescending(keys: seq<nat>, i: nat)
    requires Descending(keys) && i < |keys|
    ensures Descending(RemoveAt(keys, i))
  {
  }

  lemma {:induction false} PlaceRemove(keys: seq<nat>, i: nat, k: nat)
    requires Descending(keys) && i < |keys|
    ensures Place(RemoveAt(keys, i), k) == Place(keys, k) - if k < keys[i] then 1 else 0
  {
    if i == 0 {
      assert RemoveAt(keys, 0) == keys[1..];
      assert |keys| > 1 ==> keys[1] < keys[0];
    } else {
      var tail := RemoveAt(keys[1..], i - 1);
      assert RemoveAt(keys, i) == [keys[0]] + tail && ([keys[0]] + tail)[1..] == tail;
      assert keys[0] > keys[i] && keys[1..][i - 1] == keys[i];
      PlaceRemove(keys[1..], i - 1, k);
      hide RemoveAt, Descending;
    }
  }

  lemma DropKidTree<N>(g: map<N, Cell<N>>, root: N, t: N, i: nat)
    requires Tree(g, root) && t in g && i < |g[t].keys| && i < |g[t].kids| && EmptyKid(g, t, i)
    ensures Tree(DropKid(g, t, i), root)
  {
    var m := g[t].kids[i];
    var g' := DropKid(g, t, i);
    assert Sorted(g[t]) && Linked(g, t, i);
    RemoveDescending(g[t].keys, i);
    forall n, j | n in g' && 0 <= j < |g'[n].kids| && j < |g'[n].keys|
      ensures Linked(g', n, j)
    {
      DropKidLinked(g, root, t, i, n, j);
    }
    hide Place, RemoveAt, Linked;
  }

  lemma DropKidLinked<N>(g: map<N, Cell<N>>, root: N, t: N, i: nat, n: N, j: nat)
    requires Tree(g, root) && t in g && i < |g[t].keys| && i < |g[t].kids| && EmptyKid(g, t, i)
    requires var g' := DropKid(g, t, i); n in g' && j < |g'[n].kids| && j < |g'[n].keys|
    ensures Linked(DropKid(g, t, i), n, j)
  {
    var m := g[t].kids[i];
    var g' := DropKid(g, t, i);
    var o := if n == t && j >= i then j + 1 else j;
    assert Sorted(g[n]) && Sorted(g[t]);
    assert g'[n].kids[j] == g[n].kids[o] && g'[n].keys[j] == g[n].keys[o];
    assert Linked(g, n, o) && Linked(g, t, i);
    hide Tree, RemoveAt;
    assert g[n].kids[o] == m ==> n == t && o == i;
  }

  lemma RemovedAt<T>(s: seq<T>, i: nat, j: nat)
    requires i < |s|
    ensures |RemoveAt(s, i)| == |s| - 1
    ensures j < |s| - 1 ==> RemoveAt(s, i)[j] == if j < i then s[j] else s[j + 1]
  {
  }

  lemma KidAfterDrop<N>(g: map<N, Cell<N>>, t: N, i: nat, k: nat)
    requires t in g && Sorted(g[t]) && i < |g[t].keys| && t != g[t].kids[i]
    ensures Kid(DropKid(g, t, i)[t], k) == if k == g[t].keys[i] then None else Kid(g[t], k)
  {
    var c := g[t];
    PlaceRemove(c.keys, i, k);
    PlaceOf(c.keys, i);
    if k < c.keys[i] { PlaceMonotone(c.keys, c.keys[i], k); } else { PlaceMonotone(c.keys, k, c.keys[i]); }
    var j := Place(c.keys, k) - if k < c.keys[i] then 1 else 0;
    RemovedAt(c.keys, i, j);
    RemovedAt(c.kids, i, j);
    assert DropKid(g, t, i)[t] == c.(keys := RemoveAt(c.keys, i), kids := RemoveAt(c.kids, i));
    hide Place, RemoveAt, Descending, DropKid;
  }

  /** Unlinking a node without reference and children changes no mapping. */
  lemma {:induction false} DropKidMeans<N>(g: map<N, Cell<N>>, root: N, t: N, i: nat, n: N, q: seq<nat>)
    requires Tree(g, root) && t in g && i < |g[t].keys| && i < |g[t].kids|
    requires EmptyKid(g, t, i)
    requires n in g && n != g[t].kids[i]
    ensures Ref(DropKid(g, t, i), n, q) == Ref(g, n, q)
  {
    var m := g[t].kids[i];
    var g' := DropKid(g, t, i);
    assert Sorted(g[t]) && Linked(g, t, i);
    if q != [] {
      KidAfterDrop(g, t, i, q[0]);
      if n == t && q[0] == g[t].keys[i] {
        KidIs(g[t], q[0], i);
        assert Walk(g, m, q[1..]) == if |q| == 1 then Some(m) else None;
      } else {
        match Kid(g[n], q[0])
        case None =>
        case Some(x) =>
          KidLinked(g, root, n, q[0]);
          DropKidMeans(g, root, t, i, x, q[1..]);
      }
    }
  }

  /** Ways that do not end at the unlinked node stay. */
  lemma {:induction false} DropKidWalk<N>(g: map<N, Cell<N>>, root: N, t: N, i: nat, n: N, q: seq<nat>)
    requires Tree(g, root) && t in g && i < |g[t].keys| && i < |g[t].kids|
    requires EmptyKid(g, t, i) && n in g && n != g[t].kids[i]
    requires Walk(g, n, q).Some? && Walk(g, n, q) != Some(g[t].kids[i])
    ensures Walk(DropKid(g, t, i), n, q) == Walk(g, n, q)
  {
    var m := g[t].kids[i];
    assert Sorted(g[t]) && Linked(g, t, i);
    if q != [] {
      KidLinked(g, root, n, q[0]);
      var x := Kid(g[n], q[0]).value;
      if n == t { KidIs(g[t], g[t].keys[i], i); }
      KidAfterDrop(g, t, i, q[0]);
      LeafWalk(g, m, q[1..]);
      hide Kid, Tree, Sorted, EmptyKid, IsKid, Linked;
      if x != m {
        DropKidWalk(g, root, t, i, x, q[1..]);
      }
    }
  }

  lemma LeafWalk<N>(g: map<N, Cell<N>>, n: N, q: seq<nat>)
    requires n in g && g[n].keys == []
    ensures Walk(g, n, q) == if q == [] then Some(n) else None
  {
  }

  lemma DropKidAll<N>(g: map<N, Cell<N>>, root: N, t: N, i: nat, k: seq<nat>)
    requires Tree(g, root) && t in g && i < |g[t].keys| && i < |g[t].kids| && EmptyKid(g, t, i) &&
      Walk(g, root, k) == Some(t)
    ensures forall q :: Ref(DropKid(g, t, i), root, q) == Ref(g, root, q)
    ensures Walk(DropKid(g, t, i), root, k) == Some(t)
    ensures PrunedBut(g, root, g[t].kids[i]) ==> PrunedBut(DropKid(g, t, i), root, t)
  {
    assert Sorted(g[t]) && Linked(g, t, i);
    DropKidWalk(g, root, t, i, root, k);
    forall q
      ensures Ref(DropKid(g, t, i), root, q) == Ref(g, root, q)
    {
      DropKidMeans(g, root, t, i, root, q);
    }
  }

  // ---------------------------------------------------------------- no dead ends

  /** Every node but the root and `t` carries a reference or has a child. */
  ghost predicate PrunedBut<N>(g: map<N, Cell<N>>, root: N, t: N) {
    forall n :: n in g && n != root && n != t ==> g[n].ref != 0 || g[n].kids != []
  }

  lemma {:induction false} DepthBound<N>(g: map<N, Cell<N>>) returns (bound: nat)
    ensures forall n :: n in g ==> g[n].depth <= bound
    decreases |g|
  {
    if g == map[] {
      bound := 0;
    } else {
      var n :| n in g;
      bound := DepthBound(g - {n});
      assert forall m :: m in g ==> m == n || m in g - {n};
      bound := if g[n].depth > bound then g[n].depth else bound;
    }
  }

  lemma {:induction false} MappedBelow<N>(g: map<N, Cell<N>>, root: N, n: N, bound: nat) returns (p: seq<nat>)
    requires Tree(g, root) && PrunedBut(g, root, root) && n in g && n != root
    requires forall m :: m in g ==> g[m].depth <= bound
    ensures Ref(g, n, p) != 0
    decreases bound - g[n].depth
  {
    if g[n].ref != 0 {
      p := [];
    } else {
      assert Sorted(g[n]) && Linked(g, n, 0);
      var m, key := g[n].kids[0], g[n].keys[0];
      var p' := MappedBelow(g, root, m, bound);
      p := [key] + p';
      KidIs(g[n], key, 0);
      assert p[1..] == p';
    }
  }

  /** A key sequence leads to a node exactly if it can be continued to a mapped one. */
  lemma NodeIffMapped<N>(g: map<N, Cell<N>>, root: N, q: seq<nat>)
    requires Tree(g, root) && PrunedBut(g, root, root) && q != []
    ensures Walk(g, root, q).Some? <==> exists p :: Ref(g, root, q + p) != 0
  {
    if Walk(g, root, q).Some? {
      var n := Walk(g, root, q).value;
      WalkDepth(g, root, root, q);
      var bound := DepthBound(g);
      var p := MappedBelow(g, root, n, bound);
      WalkSplit(g, root, q, p);
      assert Ref(g, root, q + p) != 0;
    } else {
      forall p
        ensures Ref(g, root, q + p) == 0
      {
        WalkSplit(g, root, q, p);
      }
    }
  }
}

/** The nodes and pointers of src/trie.c. */
module Trie {
  import opened TrieSpec

  class Node {
    const key: nat
    var ref: int
    var child: Node?
    var next: Node?

    /** `create_node`. */
    constructor (key: nat, next: Node?)
      ensures this.key == key && this.next == next && ref == 0 && child == null
    {
      this.key, this.next, ref, child := key, next, 0, null;
    }
  }

  type Graph = map<Node, Cell<Node>>

  /** The pointers below a node are as its cell says. */
  ghost predicate Stored(n: Node, c: Cell<Node>)
    reads n, c.kids
  {
    && n.key == c.key && n.ref == c.ref
    && n.child == (if c.kids == [] then null else c.kids[0])
    && (forall i :: 0 <= i < |c.kids| - 1 ==> c.kids[i].next == c.kids[i + 1])
    && (c.kids != [] ==> c.kids[|c.kids| - 1].next == null)
  }

  ghost predicate AllStored(g: Graph)
    reads g.Keys
  {
    forall n :: n in g ==> (forall m :: m in g[n].kids ==> m in g) && Stored(n, g[n])
  }

  /** A trie: its root, and a snapshot of all its nodes. */
  class Trie {
    const root: Node
    ghost var g: Graph

    ghost predicate Valid()
      reads this, g.Keys
    {
      Tree(g, root) && AllStored(g)
    }

    /** Every node leads to a mapping. */
    ghost predicate Pruned()
      reads this
    {
      PrunedBut(g, root, root)
    }

    /** What a key sequence is mapped to. */
    ghost function Mapped(q: seq<nat>): int
      reads this
    {
      Ref(g, root, q)
    }

    /** `trie_create`. */
    constructor ()
      ensures Valid() && Pruned() && fresh(root) && g.Keys == {root}
      ensures forall q :: Mapped(q) == 0
    {
      root := new Node(0, null);
      new;
      g := map[root := Cell(0, 0, [], [], None, 0)];
    }

    /** `find_child_impl`: the child, if any, and the sibling behind which the key is or belongs (none: it
        is or belongs first). */
    method FindChild(t: Node, key: nat) returns (res: Node?, pred: Node?)
      requires Valid() && t in g
      ensures res == match Kid(g[t], key) case Some(m) => m case None => null
      ensures var i := Place(g[t].keys, key); i <= |g[t].kids| && pred == if i == 0 then null else g[t].kids[i - 1]
    {
      assert Stored(t, g[t]) && Sorted(g[t]);
      res, pred := null, null;
      var n := t.child;
      ghost var i := 0;
      while n != null && n.key > key
        invariant i <= |g[t].kids| && n == (if i < |g[t].kids| then g[t].kids[i] else null)
        invariant pred == if i == 0 then null else g[t].kids[i - 1]
        invariant forall j :: 0 <= j < i ==> g[t].keys[j] > key
        decreases |g[t].kids| - i
      {
        assert Linked(g, t, i) && Stored(n, g[n]);
        pred := n;
        n := n.next;
        i := i + 1;
      }
      if n != null {
        assert Linked(g, t, i) && Stored(n, g[n]);
        if n.key == key {
          res := n;
        }
      }
      PlaceIs(g[t].keys, key, i);
    }

    /** A new node is linked in behind `pred`. */
    method AddChild(t: Node, pred: Node?, key: nat) returns (m: Node)
      requires Valid() && t in g && Kid(g[t], key) == None
      requires var i := Place(g[t].keys, key); i <= |g[t].kids| && pred == if i == 0 then null else g[t].kids[i - 1]
      modifies this, g.Keys
      ensures Valid() && fresh(m) && key !in old(g)[t].keys && m !in old(g) && g == AddKid(old(g), t, key, m)
    {
      assert Sorted(g[t]);
      NoKid(g[t], key);
      m := CreateBehind(g, root, t, pred, key, Place(g[t].keys, key));
      AddKidTree(g, root, t, key, m);
      hide Tree, Kid, Sorted, AllStored, Place;
      g := AddKid(g, t, key, m);
    }

    /** The reference of the node that `k` leads to is replaced. */
    method Assign(t: Node, ref: int, ghost k: seq<nat>) returns (oldRef: int)
      requires Valid() && Walk(g, root, k) == Some(t)
      modifies this, g.Keys
      ensures Valid() && t in old(g) && g == SetRef(old(g), t, ref) && oldRef == old(Mapped(k))
      ensures Remapped(old(g), g, root, k, ref)
      ensures old(PrunedBut(g, root, t)) && (ref != 0 || old(g)[t].kids != []) ==> Pruned()
    {
      SetRefAll(g, root, t, ref, k);
      SetRefTree(g, root, t, ref);
      assert Stored(t, g[t]) && Remapped(g, SetRef(g, t, ref), root, k, ref);
      hide Tree, Remapped, Walk, Ref, PrunedBut;
      ghost var was := g;
      oldRef := t.ref;
      g := SetRef(g, t, ref);
      Write(was, t, ref);
    }

    /** `trie_insert`. */
    method Insert(keys: seq<nat>, ref: int) returns (oldRef: int)
      requires Valid()
      modifies this, g.Keys
      ensures Valid() && oldRef == old(Mapped(keys))
      ensures forall q :: Mapped(q) == if q == keys then ref else old(Mapped(q))
      ensures old(Pruned()) && ref != 0 ==> Pruned()
      ensures forall n :: n in g && n !in old(g) ==> fresh(n)
    {
      var t := Reach(keys);
      SetRefKeys(g, t, ref);
      oldRef := Assign(t, ref, keys);
    }

    /** `trie_remove` of a whole key sequence. */
    method Remove(keys: seq<nat>) returns (ref: int)
      requires Valid()
      modifies this, g.Keys
      ensures Valid() && ref == old(Mapped(keys))
      ensures forall q :: Mapped(q) == if q == keys then 0 else old(Mapped(q))
      ensures old(Pruned()) ==> Pruned()
      ensures g.Keys <= old(g).Keys
    {
      assert [] + keys == keys && Walk(g, root, []) == Some(root);
      ref := RemoveBelow(root, keys, []);
    }

    /** `trie_remove` from the node that `k` leads to. A child that is left without reference and children is
        unlinked on the way back. */
    method RemoveBelow(t: Node, keys: seq<nat>, ghost k: seq<nat>) returns (ref: int)
      requires Valid() && Walk(g, root, k) == Some(t)
      modifies this, g.Keys
      ensures Valid() && ref == old(Mapped(k + keys)) && Remapped(old(g), g, root, k + keys, 0)
      ensures Walk(g, root, k) == Some(t) && t in old(g) && HighUnchanged(old(g), g, t) && g.Keys <= old(g).Keys
      ensures old(PrunedBut(g, root, root)) ==> PrunedBut(g, root, t)
      decreases |keys|, 1
    {
      WalkDepth(g, root, root, k);
      if keys == [] {
        assert k + keys == k;
        AssignKeeps(g, root, t, 0, k);
        ref := Assign(t, 0, k);
      } else {
        ref := RemoveChild(t, keys, k);
      }
    }

    method RemoveChild(t: Node, keys: seq<nat>, ghost k: seq<nat>) returns (ref: int)
      requires Valid() && Walk(g, root, k) == Some(t) && keys != []
      modifies this, g.Keys
      ensures Valid() && ref == old(Mapped(k + keys)) && Remapped(old(g), g, root, k + keys, 0)
      ensures Walk(g, root, k) == Some(t) && t in old(g) && HighUnchanged(old(g), g, t) && g.Keys <= old(g).Keys
      ensures old(PrunedBut(g, root, root)) ==> PrunedBut(g, root, t)
      decreases |keys|, 0
    {
      WalkDepth(g, root, root, k);
      var key := keys[0];
      var n, pred := FindChild(t, key);
      ghost var k' := k + [key];
      assert k + keys == k' + keys[1..];
      WalkSnoc(g, root, k, key);
      if n == null {
        NotMapped(g, root, k, keys);
        return 0;
      }
      KidLinked(g, root, t, key);
      hide Ref, Remapped, HighUnchanged, PrunedBut, AllStored, Tree, Walk;
      ref := RemoveFrom(t, n, pred, key, keys[1..], k);
    }

    method RemoveFrom(t: Node, n: Node, pred: Node?, key: nat, rest: seq<nat>, ghost k: seq<nat>) returns (ref: int)
      requires Valid() && Walk(g, root, k) == Some(t) && Walk(g, root, k + [key]) == Some(n) && t in g && n in g
      requires Kid(g[t], key) == Some(n) && g[n].depth == g[t].depth + 1
      requires var i := Place(g[t].keys, key); i <= |g[t].kids| && pred == if i == 0 then null else g[t].kids[i - 1]
      modifies this, g.Keys
      ensures Valid() && ref == old(Mapped(k + [key] + rest)) && Remapped(old(g), g, root, k + [key] + rest, 0)
      ensures Walk(g, root, k) == Some(t) && t in old(g) && HighUnchanged(old(g), g, t) && g.Keys <= old(g).Keys
      ensures old(PrunedBut(g, root, root)) ==> PrunedBut(g, root, t)
      decreases |rest|, 2
    {
      hide Tree, AllStored, Walk, Ref, PrunedBut, Remapped, SameMappings, HighUnchanged, Place;
      ghost var was, i := g, Place(g[t].keys, key);
      ref := RemoveBelow(n, rest, k + [key]);
      BelowReturned(was, g, root, t, n, key, k);
      Trim(t, pred, n, i, k, was, k + [key] + rest);
    }

    /** After the removal below `n`: the node is unlinked if nothing is left of it. */
    method Trim(t: Node, pred: Node?, n: Node, ghost i: nat, ghost k: seq<nat>, ghost was: Graph, ghost keys: seq<nat>)
      requires Valid() && t in g && n in g && i < |g[t].kids| && g[t].kids[i] == n && Walk(g, root, k) == Some(t)
      requires pred == if i == 0 then null else g[t].kids[i - 1]
      requires t in was && n in was && g[t] == was[t] && was[n].depth == was[t].depth + 1 && HighUnchanged(was, g, t)
      requires Remapped(was, g, root, keys, 0)
      modifies this, g.Keys
      ensures Valid() && Remapped(was, g, root, keys, 0) && Walk(g, root, k) == Some(t)
      ensures HighUnchanged(was, g, t) && g.Keys <= old(g).Keys
      ensures old(PrunedBut(g, root, n)) ==> PrunedBut(g, root, t)
    {
      hide Tree, AllStored, Walk, Ref, PrunedBut, Remapped, SameMappings, HighUnchanged;
      ghost var mid := g;
      UnlinkIfEmpty(t, pred, n, i, k);
      RemapThenSame(was, mid, g, root, keys, 0);
      DropHigh(was, mid, g, t, i);
    }

    /** The last part of `trie_remove`. */
    method UnlinkIfEmpty(t: Node, pred: Node?, n: Node, ghost i: nat, ghost k: seq<nat>)
      requires Valid() && t in g && n in g && i < |g[t].kids| && g[t].kids[i] == n && Walk(g, root, k) == Some(t)
      requires pred == if i == 0 then null else g[t].kids[i - 1]
      modifies this, g.Keys
      ensures Valid() && SameMappings(old(g), g, root) && Walk(g, root, k) == Some(t)
      ensures |old(g)[t].kids| == |old(g)[t].keys| && (g == old(g) || g == DropKid(old(g), t, i))
      ensures old(PrunedBut(g, root, n)) ==> PrunedBut(g, root, t)
    {
      Emptied(g, root, t, n, i);
      if n.child == null && n.ref == 0 {
        Unlink(t, pred, n, i, k);
      }
    }

    /** The child that `*pre` points to is unlinked. */
    method Unlink(t: Node, pred: Node?, n: Node, ghost i: nat, ghost k: seq<nat>)
      requires Valid() && t in g && i < |g[t].kids| && i < |g[t].keys| && g[t].kids[i] == n && EmptyKid(g, t, i)
      requires pred == if i == 0 then null else g[t].kids[i - 1]
      requires Walk(g, root, k) == Some(t)
      modifies this, g.Keys
      ensures Valid() && g == DropKid(old(g), t, i)
      ensures SameMappings(old(g), g, root) && Walk(g, root, k) == Some(t)
      ensures old(PrunedBut(g, root, n)) ==> PrunedBut(g, root, t)
    {
      DropKidTree(g, root, t, i);
      DropKidAll(g, root, t, i, k);
      ghost var was := g;
      g := DropKid(g, t, i);
      Skip(was, root, t, pred, i);
    }

    /** `trie_collect_leaves_impl`: the mapped nodes below `t`, with the key sequences that lead to them; if
        pruning, only those that no shorter mapping shadows. */
    method Collect(t: Node, prune: bool, ghost bound: nat) returns (vec: seq<Node>, ghost paths: seq<seq<nat>>)
      requires Valid() && t in g && forall n :: n in g ==> g[n].depth <= bound
      ensures Lists(g, t, vec, paths)
      ensures forall q :: q in paths <==> Reported(g, t, q, prune)
      ensures forall n :: n in vec <==> n in g && exists q :: Walk(g, t, q) == Some(n) && Reported(g, t, q, prune)
      decreases bound - g[t].depth
    {
      vec, paths := [], [];
      assert Stored(t, g[t]) && Sorted(g[t]);
      if t.ref != 0 {
        vec, paths := [t], [[]];
        if prune {
          OnlyItself(g, t);
          Listed(g, root, t, vec, paths, prune);
          return;
        }
      }
      NoneBefore(g, t, prune);
      var n := t.child;
      ghost var i := 0;
      while n != null
        invariant i <= |g[t].kids| && n == (if i < |g[t].kids| then g[t].kids[i] else null)
        invariant Lists(g, t, vec, paths) && AllBefore(g, t, paths, prune, i)
        decreases |g[t].kids| - i
      {
        assert Linked(g, t, i) && Stored(n, g[n]);
        var sub, subpaths := Collect(n, prune, bound);
        CollectStep(g, root, t, i, prune, vec, paths, sub, subpaths);
        vec, paths := vec + sub, paths + Prefixed(g[t].keys[i], subpaths);
        n := n.next;
        i := i + 1;
      }
      CollectDone(g, root, t, prune, paths);
      Listed(g, root, t, vec, paths, prune);
    }

    /** The loop of `trie_insert`: the node for the keys, created with what is missing on the way. */
    method Reach(keys: seq<nat>) returns (t: Node)
      requires Valid()
      modifies this, g.Keys
      ensures Valid() && OnTheWay(old(g), g, root, t, keys)
      ensures forall n :: n in g && n !in old(g) ==> fresh(n)
    {
      t := root;
      Setout(g, root, keys);
      hide *;
      var i: nat := 0;
      while i < |keys|
        invariant i <= |keys| && Valid() && OnTheWay(old(g), g, root, t, Front(keys, i))
        invariant forall n :: n in g && n !in old(g) ==> fresh(n)
      {
        t := Descend(t, keys, i, old(g));
        i := i + 1;
      }
      FrontAll(keys);
    }

    /** One round of `trie_insert`: the child for the key, which is created if missing. */
    method Descend(t: Node, keys: seq<nat>, i: nat, ghost start: Graph) returns (n: Node)
      requires Valid() && i < |keys| && OnTheWay(start, g, root, t, Front(keys, i))
      modifies this, g.Keys
      ensures Valid() && OnTheWay(start, g, root, n, Front(keys, i + 1))
      ensures forall n :: n in g && n !in old(g) ==> fresh(n)
    {
      var key := keys[i];
      ghost var k := Front(keys, i);
      assert Front(keys, i + 1) == k + [key];
      hide Front;
      WalkDepth(g, root, root, k);
      WalkSnoc(g, root, k, key);
      var res, pred := FindChild(t, key);
      if res == null {
        ghost var was := g;
        n := AddChild(t, pred, key);
        AddKidAll(was, root, t, key, n, k);
      } else {
        KidLinked(g, root, t, key);
        n := res;
      }
    }
  }

  function Front(keys: seq<nat>, i: nat): seq<nat>
    requires i <= |keys|
  {
    keys[..i]
  }

  lemma FrontAll(keys: seq<nat>)
    ensures Front(keys, |keys|) == keys
  {
  }

  ghost predicate SameMappings(a: Graph, b: Graph, root: Node) {
    forall q :: Ref(a, root, q) == Ref(b, root, q)
  }

  ghost predicate Remapped(a: Graph, b: Graph, root: Node, k: seq<nat>, ref: int) {
    forall q :: Ref(b, root, q) == if q == k then ref else Ref(a, root, q)
  }

  /** While `trie_insert` descends: at the node for the keys so far, with no mapping changed, and with no other
      node left without mapping. */
  ghost predicate OnTheWay(was: Graph, g: Graph, root: Node, t: Node, k: seq<nat>) {
    && Walk(g, root, k) == Some(t) && SameMappings(was, g, root)
    && (PrunedBut(was, root, root) ==> PrunedBut(g, root, t))
  }

  lemma Setout(g: Graph, root: Node, keys: seq<nat>)
    requires root in g
    ensures OnTheWay(g, g, root, root, Front(keys, 0))
  {
  }

  /** Nodes as high as `t`, but not `t`, are as they were. */
  ghost predicate HighUnchanged(a: Graph, b: Graph, t: Node)
    requires t in a
  {
    forall n :: n in a && n != t && a[n].depth <= a[t].depth ==> n in b && b[n] == a[n]
  }

  lemma SetRefKeys(g: Graph, t: Node, ref: int)
    ensures t in g ==> SetRef(g, t, ref).Keys == g.Keys
  {
  }

  /** The trie with the reference of `t` replaced. */
  lemma AllStoredRef(g: Graph, t: Node, ref: int)
    requires t in g && (forall n :: n in g && n != t ==> Stored(n, g[n])) && Stored(t, g[t].(ref := ref))
    requires forall n, x :: n in g && x in g[n].kids ==> x in g
    ensures AllStored(SetRef(g, t, ref))
  {
  }

  lemma AssignKeeps(g: Graph, root: Node, t: Node, ref: int, k: seq<nat>)
    requires t in g && Walk(g, root, k) == Some(t)
    ensures Walk(SetRef(g, t, ref), root, k) == Some(t) && HighUnchanged(g, SetRef(g, t, ref), t)
    ensures PrunedBut(g, root, root) ==> PrunedBut(SetRef(g, t, ref), root, t)
  {
    SetRefWalk(g, t, ref, root, k);
  }

  lemma NotMapped(g: Graph, root: Node, k: seq<nat>, keys: seq<nat>)
    requires keys != [] && Walk(g, root, k + [keys[0]]) == None
    ensures Ref(g, root, k + keys) == 0 && Remapped(g, g, root, k + keys, 0)
  {
    WalkSplit(g, root, k + [keys[0]], keys[1..]);
    assert k + keys == k + [keys[0]] + keys[1..];
  }

  /** After the recursive call the parent and its children's order are as before. */
  lemma BelowReturned(was: Graph, g: Graph, root: Node, t: Node, n: Node, key: nat, k: seq<nat>)
    requires Tree(was, root) && t in was && n in was && was[n].depth == was[t].depth + 1 && HighUnchanged(was, g, n)
    requires Tree(g, root) && Walk(g, root, k + [key]) == Some(n) && Kid(was[t], key) == Some(n)
    ensures t in g && g[t] == was[t] && n in g && Walk(g, root, k) == Some(t) && HighUnchanged(was, g, t)
  {
    WalkSnoc(g, root, k, key);
    assert g[t] == was[t];
    WalkDepth(g, root, root, k);
    KidLinked(g, root, t, key);
    KidLinked(g, root, Walk(g, root, k).value, key);
  }

  /** `*pre = (*pre)->next`: the pointer write that unlinks child `i`. */
  method Skip(ghost g: Graph, ghost root: Node, t: Node, pred: Node?, ghost i: nat)
    requires Tree(g, root) && AllStored(g) && t in g && i < |g[t].kids| && i < |g[t].keys|
    requires pred == if i == 0 then null else g[t].kids[i - 1]
    modifies t`child, (if pred != null then {pred} else {})`next
    ensures AllStored(DropKid(g, t, i))
  {
    assert Sorted(g[t]);
    KidsApart(g, root, t);
    NotSharedAny(g, root, t, i);
    if pred == null {
      SkipFirst(g, t);
    } else {
      NotSharedAny(g, root, t, i - 1);
      SkipBehind(g, t, pred, i);
    }
  }

  method SkipFirst(ghost g: Graph, t: Node)
    requires AllStored(g) && t in g && 0 < |g[t].kids| == |g[t].keys|
    requires forall j, k :: 0 <= j < k < |g[t].kids| ==> g[t].kids[j] != g[t].kids[k]
    requires forall n :: n in g && n != t ==> g[t].kids[0] !in g[n].kids
    modifies t`child
    ensures AllStored(DropKid(g, t, 0))
  {
    assert Stored(t, g[t]);
    t.child := t.child.next;
    StoredRemove(t, g[t], 0, RemoveAt(g[t].keys, 0));
    AllStoredDrop(g, t, 0);
  }

  method SkipBehind(ghost g: Graph, t: Node, pred: Node, ghost i: nat)
    requires AllStored(g) && t in g && 0 < i < |g[t].kids| == |g[t].keys| && pred == g[t].kids[i - 1]
    requires forall j, k :: 0 <= j < k < |g[t].kids| ==> g[t].kids[j] != g[t].kids[k]
    requires forall n :: n in g && n != t ==> g[t].kids[i] !in g[n].kids && pred !in g[n].kids
    modifies pred`next
    ensures AllStored(DropKid(g, t, i))
  {
    assert Stored(t, g[t]);
    assert pred.next == g[t].kids[i] && pred.next.next == if i + 1 < |g[t].kids| then g[t].kids[i + 1] else null;
    pred.next := pred.next.next;
    StoredRemove(t, g[t], i, RemoveAt(g[t].keys, i));
    AllStoredDrop(g, t, i);
  }

  lemma StoredRemove(t: Node, c: Cell<Node>, i: nat, keys: seq<nat>)
    requires i < |c.kids| && t.key == c.key && t.ref == c.ref
    requires t.child == if i > 0 then c.kids[0] else if |c.kids| > 1 then c.kids[1] else null
    requires i > 0 ==> c.kids[i - 1].next == if i + 1 < |c.kids| then c.kids[i + 1] else null
    requires forall j :: 0 <= j < |c.kids| - 1 && j != i - 1 && j != i ==> c.kids[j].next == c.kids[j + 1]
    requires i < |c.kids| - 1 ==> c.kids[|c.kids| - 1].next == null
    ensures Stored(t, c.(keys := keys, kids := RemoveAt(c.kids, i)))
  {
    var kids := RemoveAt(c.kids, i);
    forall j | 0 <= j < |kids| - 1
      ensures kids[j].next == kids[j + 1]
    {
      assert kids[j] == c.kids[if j < i then j else j + 1];
      assert kids[j + 1] == c.kids[if j + 1 < i then j + 1 else j + 2];
    }
  }

  lemma AllStoredDrop(was: Graph, t: Node, i: nat)
    requires t in was && i < |was[t].kids| && |was[t].kids| == |was[t].keys|
    requires forall n, x :: n in was && x in was[n].kids ==> x in was
    requires forall n :: n in was && n != t ==> Stored(n, was[n]) && was[t].kids[i] !in was[n].kids
    requires forall j, k :: 0 <= j < k < |was[t].kids| ==> was[t].kids[j] != was[t].kids[k]
    requires Stored(t, was[t].(keys := RemoveAt(was[t].keys, i), kids := RemoveAt(was[t].kids, i)))
    ensures AllStored(DropKid(was, t, i))
  {
  }

  lemma RemapThenSame(a: Graph, b: Graph, c: Graph, root: Node, k: seq<nat>, ref: int)
    requires Remapped(a, b, root, k, ref) && SameMappings(b, c, root)
    ensures Remapped(a, c, root, k, ref)
  {
  }

  lemma DropHigh(was: Graph, mid: Graph, g: Graph, t: Node, i: nat)
    requires t in was && HighUnchanged(was, mid, t) && t in mid && mid[t] == was[t]
    requires |mid[t].kids| == |mid[t].keys| && i < |mid[t].keys| && (g == mid || g == DropKid(mid, t, i))
    requires mid[t].kids[i] in was && was[mid[t].kids[i]].depth == was[t].depth + 1
    ensures HighUnchanged(was, g, t) && g.Keys <= mid.Keys
  {
  }

  lemma Emptied(g: Graph, root: Node, t: Node, n: Node, i: nat)
    requires Tree(g, root) && AllStored(g) && t in g && n in g && i < |g[t].kids| && g[t].kids[i] == n
    ensures |g[t].kids| == |g[t].keys| && (n.child == null && n.ref == 0 ==> EmptyKid(g, t, i))
    ensures (n.child != null || n.ref != 0) && PrunedBut(g, root, n) ==> PrunedBut(g, root, t)
  {
    assert Stored(n, g[n]) && Sorted(g[n]) && Sorted(g[t]);
  }

  /** Mapped, and not behind a shorter mapping if pruning. */
  ghost predicate Reported(g: Graph, t: Node, q: seq<nat>, prune: bool) {
    Ref(g, t, q) != 0 && (prune ==> forall p :: p < q ==> Ref(g, t, p) == 0)
  }

  /** Each node is listed once, with the key sequence that leads to it. */
  ghost predicate Lists(g: Graph, t: Node, vec: seq<Node>, paths: seq<seq<nat>>) {
    && |paths| == |vec|
    && (forall i :: 0 <= i < |vec| ==> Walk(g, t, paths[i]) == Some(vec[i]))
    && (forall i, j :: 0 <= i < j < |paths| ==> paths[i] != paths[j])
  }

  /** Reported of `t` itself or one of its first `i` children. */
  ghost predicate ReportedBefore(g: Graph, t: Node, q: seq<nat>, prune: bool, i: nat)
    requires t in g && i <= |g[t].keys| && |g[t].kids| == |g[t].keys|
  {
    if q == [] then g[t].ref != 0
    else Place(g[t].keys, q[0]) < i && Kid(g[t], q[0]).Some? && Reported(g, Kid(g[t], q[0]).value, q[1..], prune)
  }

  ghost predicate AllBefore(g: Graph, t: Node, paths: seq<seq<nat>>, prune: bool, i: nat)
    requires t in g && i <= |g[t].keys| && |g[t].kids| == |g[t].keys|
  {
    forall q :: q in paths <==> ReportedBefore(g, t, q, prune, i)
  }

  function Prefixed(key: nat, ps: seq<seq<nat>>): (r: seq<seq<nat>>)
    ensures |r| == |ps| && forall i :: 0 <= i < |ps| ==> r[i] == [key] + ps[i]
  {
    seq(|ps|, i requires 0 <= i < |ps| => [key] + ps[i])
  }

  lemma InPrefixed(key: nat, ps: seq<seq<nat>>, q: seq<nat>)
    ensures q in Prefixed(key, ps) <==> q != [] && q[0] == key && q[1..] in ps
  {
    if q != [] && q[0] == key && q[1..] in ps {
      var i :| 0 <= i < |ps| && ps[i] == q[1..];
      assert Prefixed(key, ps)[i] == q;
    }
    if q in Prefixed(key, ps) {
      var i :| 0 <= i < |ps| && Prefixed(key, ps)[i] == q;
      assert q[1..] == ps[i];
    }
  }

  lemma OnlyItself(g: Graph, t: Node)
    requires t in g && g[t].ref != 0
    ensures Lists(g, t, [t], [[]])
    ensures forall q :: q in [[]] <==> Reported(g, t, q, true)
  {
    assert Ref(g, t, []) == g[t].ref;
    forall q
      ensures q in [[]] <==> Reported(g, t, q, true)
    {
      if q != [] {
        var e: seq<nat> := [];
        assert e < q;
      }
    }
  }

  /** The listed nodes are those that a reported key sequence leads to. */
  lemma Listed(g: Graph, root: Node, t: Node, vec: seq<Node>, paths: seq<seq<nat>>, prune: bool)
    requires Tree(g, root) && t in g && Lists(g, t, vec, paths) && forall q :: q in paths <==> Reported(g, t, q, prune)
    ensures forall n :: n in vec <==> n in g && exists q :: Walk(g, t, q) == Some(n) && Reported(g, t, q, prune)
  {
    forall i | 0 <= i < |vec|
      ensures vec[i] in g && Walk(g, t, paths[i]) == Some(vec[i]) && Reported(g, t, paths[i], prune)
    {
      WalkDepth(g, root, t, paths[i]);
      assert paths[i] in paths;
    }
    forall n, q | n in g && Walk(g, t, q) == Some(n) && Reported(g, t, q, prune)
      ensures n in vec
    {
      assert q in paths;
      var i :| 0 <= i < |paths| && paths[i] == q;
      assert vec[i] == n;
    }
  }

  lemma NoneBefore(g: Graph, t: Node, prune: bool)
    requires t in g && |g[t].kids| == |g[t].keys|
    ensures Lists(g, t, [], []) && Lists(g, t, [t], [[]])
    ensures AllBefore(g, t, if g[t].ref != 0 then [[]] else [], prune, 0)
  {
  }

  lemma CollectStep(g: Graph, root: Node, t: Node, i: nat, prune: bool,
                    vec: seq<Node>, paths: seq<seq<nat>>, sub: seq<Node>, subpaths: seq<seq<nat>>)
    requires Tree(g, root) && t in g && Sorted(g[t]) && i < |g[t].kids|
    requires Lists(g, t, vec, paths) && AllBefore(g, t, paths, prune, i)
    requires Lists(g, g[t].kids[i], sub, subpaths)
    requires forall q :: q in subpaths <==> Reported(g, g[t].kids[i], q, prune)
    ensures Lists(g, t, vec + sub, paths + Prefixed(g[t].keys[i], subpaths))
    ensures AllBefore(g, t, paths + Prefixed(g[t].keys[i], subpaths), prune, i + 1)
  {
    var key := g[t].keys[i];
    var more := Prefixed(key, subpaths);
    assert Linked(g, t, i);
    PlaceOf(g[t].keys, i);
    KidIs(g[t], key, i);
    forall q
      ensures q in paths + more <==> ReportedBefore(g, t, q, prune, i + 1)
    {
      StepOne(g, t, i, prune, q);
      InPrefixed(key, subpaths, q);
    }
    forall j | 0 <= j < |sub|
      ensures Walk(g, t, more[j]) == Some(sub[j]) && more[j] !in paths
    {
      assert more[j][1..] == subpaths[j];
    }
    hide AllBefore, Reported, ReportedBefore, Tree, Linked, Walk, Sorted, Kid, Place;
    ListsMore(g, t, key, vec, paths, sub, subpaths);
  }

  lemma StepOne(g: Graph, t: Node, i: nat, prune: bool, q: seq<nat>)
    requires t in g && Sorted(g[t]) && i < |g[t].kids|
    ensures ReportedBefore(g, t, q, prune, i + 1) <==>
      ReportedBefore(g, t, q, prune, i) || (q != [] && q[0] == g[t].keys[i] && Reported(g, g[t].kids[i], q[1..], prune))
  {
    PlaceOf(g[t].keys, i);
    hide Reported;
  }

  lemma ListsMore(g: Graph, t: Node, key: nat, vec: seq<Node>, paths: seq<seq<nat>>, sub: seq<Node>,
    subpaths: seq<seq<nat>>)
    requires Lists(g, t, vec, paths) && |sub| == |subpaths|
    requires forall i, j :: 0 <= i < j < |subpaths| ==> subpaths[i] != subpaths[j]
    requires forall j :: 0 <= j < |sub| ==>
      Walk(g, t, Prefixed(key, subpaths)[j]) == Some(sub[j]) && Prefixed(key, subpaths)[j] !in paths
    ensures Lists(g, t, vec + sub, paths + Prefixed(key, subpaths))
  {
    var more := Prefixed(key, subpaths);
    forall i, j | 0 <= i < j < |more|
      ensures more[i] != more[j]
    {
      assert more[i][1..] == subpaths[i] && more[j][1..] == subpaths[j];
    }
  }

  lemma CollectDone(g: Graph, root: Node, t: Node, prune: bool, paths: seq<seq<nat>>)
    requires Tree(g, root) && t in g && Sorted(g[t]) && AllBefore(g, t, paths, prune, |g[t].kids|)
    requires g[t].ref == 0 || !prune
    ensures forall q :: q in paths <==> Reported(g, t, q, prune)
  {
    forall q
      ensures ReportedBefore(g, t, q, prune, |g[t].kids|) <==> Reported(g, t, q, prune)
    {
      ReportedOf(g, t, prune, q);
    }
  }

  lemma ReportedOf(g: Graph, t: Node, prune: bool, q: seq<nat>)
    requires t in g && Sorted(g[t]) && (g[t].ref == 0 || !prune)
    ensures ReportedBefore(g, t, q, prune, |g[t].kids|) <==> Reported(g, t, q, prune)
  {
    if q == [] {
      assert Ref(g, t, []) == g[t].ref;
    } else if Kid(g[t], q[0]).Some? {
      var m := Kid(g[t], q[0]).value;
      assert Ref(g, t, q) == Ref(g, m, q[1..]);
      if prune && Reported(g, t, q, prune) {
        forall p | p < q[1..]
          ensures Ref(g, m, p) == 0
        {
          assert [q[0]] + p < q && ([q[0]] + p)[1..] == p;
          assert Ref(g, t, [q[0]] + p) == Ref(g, m, p);
        }
      }
      if prune && Reported(g, m, q[1..], prune) {
        forall p | p < q
          ensures Ref(g, t, p) == 0
        {
          if p != [] {
            assert p[1..] < q[1..] && p[0] == q[0];
            assert Ref(g, t, p) == Ref(g, m, p[1..]);
          } else {
            assert Ref(g, t, p) == g[t].ref;
          }
        }
      }
    }
  }

  method Write(ghost g: Graph, t: Node, ref: int)
    requires AllStored(g) && t in g
    modifies t`ref
    ensures AllStored(SetRef(g, t, ref))
  {
    assert Stored(t, g[t]);
    t.ref := ref;
    AllStoredRef(g, t, ref);
  }

  lemma NextKid(g: Graph, t: Node, pred: Node?, i: nat)
    requires AllStored(g) && t in g && i <= |g[t].kids| && pred == if i == 0 then null else g[t].kids[i - 1]
    ensures (if pred == null then t.child else pred.next) == if i < |g[t].kids| then g[t].kids[i] else null
  {
    assert Stored(t, g[t]);
  }

  method CreateBehind(ghost g: Graph, ghost root: Node, t: Node, pred: Node?, key: nat, ghost i: nat) returns (m: Node)
    requires Tree(g, root) && AllStored(g) && t in g && key !in g[t].keys
    requires i == Place(g[t].keys, key) && i <= |g[t].kids| == |g[t].keys|
    requires pred == (if i == 0 then null else g[t].kids[i - 1])
    modifies t`child, (if pred != null then {pred} else {})`next
    ensures fresh(m) && m !in g && AllStored(AddKid(g, t, key, m))
  {
    NextKid(g, t, pred, i);
    m := new Node(key, if pred == null then t.child else pred.next);
    Link(g, root, t, pred, m, key, i);
  }

  /** `*pre = n`: the pointer write that links `m` in behind `pred`. */
  method Link(ghost g: Graph, ghost root: Node, t: Node, pred: Node?, m: Node, ghost key: nat, ghost i: nat)
    requires Tree(g, root) && AllStored(g) && t in g && m !in g && key !in g[t].keys
    requires i == Place(g[t].keys, key) && i <= |g[t].kids| == |g[t].keys|
    requires pred == (if i == 0 then null else g[t].kids[i - 1]) &&
      m.next == (if i < |g[t].kids| then g[t].kids[i] else null)
    requires m.key == key && m.ref == 0 && m.child == null
    modifies t`child, (if pred != null then {pred} else {})`next
    ensures AllStored(AddKid(g, t, key, m))
  {
    if pred == null {
      LinkFirst(g, t, m, key);
    } else {
      assert Sorted(g[t]);
      KidsApart(g, root, t);
      NotSharedAny(g, root, t, i - 1);
      LinkBehind(g, t, pred, m, key, i);
    }
  }

  method LinkFirst(ghost g: Graph, t: Node, m: Node, ghost key: nat)
    requires AllStored(g) && t in g && m !in g && Place(g[t].keys, key) == 0 && |g[t].kids| == |g[t].keys|
    requires m.next == (if 0 < |g[t].kids| then g[t].kids[0] else null)
    requires m.key == key && m.ref == 0 && m.child == null
    modifies t`child
    ensures AllStored(AddKid(g, t, key, m))
  {
    assert Stored(t, g[t]);
    t.child := m;
    StoredInsert(t, g[t], 0, InsertAt(g[t].keys, 0, key), m);
    AllStoredAdd(g, t, key, m);
  }

  method LinkBehind(ghost g: Graph, t: Node, pred: Node, m: Node, ghost key: nat, ghost i: nat)
    requires AllStored(g) && t in g && m !in g && |g[t].kids| == |g[t].keys|
    requires i == Place(g[t].keys, key) && 0 < i <= |g[t].kids| && pred == g[t].kids[i - 1]
    requires forall j, k :: 0 <= j < k < |g[t].kids| ==> g[t].kids[j] != g[t].kids[k]
    requires forall n :: n in g && n != t ==> pred !in g[n].kids
    requires m.next == (if i < |g[t].kids| then g[t].kids[i] else null)
    requires m.key == key && m.ref == 0 && m.child == null
    modifies pred`next
    ensures AllStored(AddKid(g, t, key, m))
  {
    assert Stored(t, g[t]);
    pred.next := m;
    hide Place;
    StoredInsert(t, g[t], i, InsertAt(g[t].keys, i, key), m);
    AllStoredAdd(g, t, key, m);
  }

  lemma NotSharedAny(g: Graph, root: Node, t: Node, i: nat)
    requires Tree(g, root) && t in g && Sorted(g[t]) && i < |g[t].kids|
    ensures forall n :: n in g && n != t ==> g[t].kids[i] !in g[n].kids
  {
    forall n | n in g && n != t
      ensures g[t].kids[i] !in g[n].kids
    {
      assert Sorted(g[n]);
      NotShared(g, root, n, t, i);
    }
  }

  lemma KidsApart(g: Graph, root: Node, t: Node)
    requires Tree(g, root) && t in g && Sorted(g[t])
    ensures forall i, j :: 0 <= i < j < |g[t].kids| ==> g[t].kids[i] != g[t].kids[j]
  {
    forall i, j | 0 <= i < j < |g[t].kids|
      ensures g[t].kids[i] != g[t].kids[j]
    {
      assert Linked(g, t, i) && Linked(g, t, j);
    }
  }

  lemma AllStoredAdd(was: Graph, t: Node, key: nat, m: Node)
    requires t in was && |was[t].kids| == |was[t].keys| && m !in was
    requires forall n, x :: n in was && x in was[n].kids ==> x in was
    requires forall n :: n in was && n != t ==> Stored(n, was[n])
    requires Stored(t, AddKid(was, t, key, m)[t]) && Stored(m, AddKid(was, t, key, m)[m])
    ensures AllStored(AddKid(was, t, key, m))
  {
  }

  lemma NoKid<N>(c: Cell<N>, key: nat)
    requires Sorted(c) && Kid(c, key) == None
    ensures key !in c.keys
  {
    if key in c.keys {
      var j :| 0 <= j < |c.keys| && c.keys[j] == key;
      KidIs(c, key, j);
    }
  }

  /** No node is a child of two others. */
  lemma NotShared(g: Graph, root: Node, n: Node, t: Node, i: nat)
    requires Tree(g, root) && n in g && t in g && n != t && Sorted(g[n]) && Sorted(g[t]) && i < |g[t].kids|
    ensures g[t].kids[i] !in g[n].kids
  {
    assert Linked(g, t, i);
    forall j | 0 <= j < |g[n].kids|
      ensures g[n].kids[j] != g[t].kids[i]
    {
      assert Linked(g, n, j);
    }
  }

  /** The pointers of a parent after `m` has been linked in as child `i`. */
  lemma StoredInsert(t: Node, c: Cell<Node>, i: nat, keys: seq<nat>, m: Node)
    requires i <= |c.kids| && m !in c.kids && t.key == c.key && t.ref == c.ref
    requires t.child == if i == 0 then m else c.kids[0]
    requires m.next == if i < |c.kids| then c.kids[i] else null
    requires i > 0 ==> c.kids[i - 1].next == m
    requires forall j :: 0 <= j < |c.kids| - 1 && j != i - 1 ==> c.kids[j].next == c.kids[j + 1]
    requires i < |c.kids| ==> c.kids[|c.kids| - 1].next == null
    ensures Stored(t, c.(keys := keys, kids := InsertAt(c.kids, i, m)))
  {
    var kids := InsertAt(c.kids, i, m);
    forall j | 0 <= j < |kids| - 1
      ensures kids[j].next == kids[j + 1]
    {
      InsertGet(c.kids, i, m, j);
      InsertGet(c.kids, i, m, j + 1);
    }
    InsertGet(c.kids, i, m, |c.kids|);
  }
}
