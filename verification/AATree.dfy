/** The AA-tree behind the sorted map and set (third-party/STC/include/stc/smap.h).

    `AAShape` gives the tree transformations on values: every node carries the index of the array slot
    it lives in. `AATree` is the array-backed tree, whose methods are proved to perform exactly
    those transformations in place. Keys are integers, standing for ranks under `i_cmp`. */
module AAShape {

  datatype Tree<V> = Nil | Node(id: nat, level: nat, left: Tree, key: int, val: V, right: Tree)

  function Level<V>(t: Tree<V>): nat {
    if t.Nil? then 0 else t.level
  }

  function RightLevel<V>(t: Tree<V>): nat {
    if t.Nil? then 0 else Level(t.right)
  }

  // ---------------------------------------------------------------- the transformations

  /** `_skew_`: rotate right when the left child is at the node's own level. */
  function Skew<V>(t: Tree<V>): Tree<V> {
    if t.Node? && t.left.Node? && t.left.level == t.level then
      t.left.(right := t.(left := t.left.right))
    else t
  }

  /** `_split_`: rotate left, raising the new top, when two right links stay on the node's level.
      (On a tree that obeys the level rules the test already implies that both links lead to nodes.) */
  function Split<V>(t: Tree<V>): Tree<V> {
    if t.Node? && t.right.Node? && Level(t.right.right) == t.level then
      t.right.(left := t.(right := t.right.left), level := t.right.level + 1)
    else t
  }

  function Rebalance<V>(t: Tree<V>): Tree<V> {
    Split(Skew(t))
  }

  /** `_insert_entry_i_` of a key that is not in the tree, into slot `id`. */
  function Insert<V>(t: Tree<V>, k: int, v: V, id: nat): Tree<V> {
    if t.Nil? then Node(id, 1, Nil, k, v, Nil)
    else if k < t.key then Rebalance(t.(left := Insert(t.left, k, v, id)))
    else Rebalance(t.(right := Insert(t.right, k, v, id)))
  }

  /** The last part of `_erase_r_`: if a child has sunk two levels below, lower the node, then three
      skews and two splits. */
  function Fix<V>(t: Tree<V>): Tree<V> {
    if NeedsFix(t) then Resplit(Reskew(Lower(t))) else t
  }

  predicate NeedsFix<V>(t: Tree<V>) {
    t.Node? && (Level(t.left) + 1 < t.level || Level(t.right) + 1 < t.level)
  }

  function Lower<V>(t: Tree<V>): Tree<V>
    requires t.Node? && t.level > 0
  {
    var l := t.level - 1;
    t.(level := l, right := if Level(t.right) > l then t.right.(level := l) else t.right)
  }

  function Reskew<V>(t: Tree<V>): Tree<V> {
    var t := Skew(t);
    if t.Nil? then t else
      var r := Skew(t.right);
      t.(right := if r.Nil? then r else r.(right := Skew(r.right)))
  }

  function Resplit<V>(t: Tree<V>): Tree<V> {
    var t := Split(t);
    if t.Nil? then t else t.(right := Split(t.right))
  }

  function Max<V>(t: Tree<V>): (m: Tree<V>)
    requires t.Node?
    ensures m.Node?
  {
    if t.right.Nil? then t else Max(t.right)
  }

  /** `_erase_r_`: a node with two children takes over its predecessor, which is erased in its stead. */
  function Erase<V>(t: Tree<V>, k: int): Tree<V> {
    if t.Nil? then t
    else if k < t.key then Fix(t.(left := Erase(t.left, k)))
    else if k > t.key then Fix(t.(right := Erase(t.right, k)))
    else if t.left.Node? && t.right.Node? then
      var m := Max(t.left);
      Fix(t.(key := m.key, val := m.val, left := Erase(t.left, m.key)))
    else if t.left.Nil? then t.right
    else t.left
  }

  // ---------------------------------------------------------------- level rules

  /** The level rules: a left child is one level down, a right child at most one, a right grandchild
      strictly below. */
  ghost predicate AA<V>(t: Tree<V>) {
    t.Node? ==>
      && t.level == Level(t.left) + 1
      && Level(t.right) <= t.level <= Level(t.right) + 1
      && RightLevel(t.right) < t.level
      && AA(t.left) && AA(t.right)
  }

  /** A node whose subtrees obey the rules, and one of which may have sunk by one level. */
  ghost predicate Sunk<V>(t: Tree<V>) {
    t.Node? ==>
      && AA(t.left) && AA(t.right) && t.level > 0
      && Level(t.left) <= t.level - 1 && Level(t.right) <= t.level && RightLevel(t.right) < t.level
      && t.level <= Level(t.left) + 2 && t.level <= Level(t.right) + 2
      && (t.level == Level(t.left) + 1 || t.level <= Level(t.right) + 1)
  }

  /** What an insertion does to the level: unchanged, or one up with no horizontal link left at the top. */
  ghost predicate Grown<V>(t: Tree<V>, t': Tree<V>)
    requires t'.Node?
  {
    || Level(t') == Level(t)
    || (Level(t') == Level(t) + 1 && Level(t'.right) == Level(t) && (t.Node? ==> Level(t.right) == t.level))
  }

  lemma {:induction false} InsertKeeps<V>(t: Tree<V>, k: int, v: V, id: nat)
    requires AA(t)
    ensures Insert(t, k, v, id).Node? && AA(Insert(t, k, v, id)) && Grown(t, Insert(t, k, v, id))
  {
    if t.Node? {
      if k < t.key {
        InsertKeeps(t.left, k, v, id);
        GrownLeft(t, Insert(t.left, k, v, id));
      } else {
        InsertKeeps(t.right, k, v, id);
        GrownRight(t, Insert(t.right, k, v, id));
      }
    }
  }

  lemma GrownLeft<V>(t: Tree<V>, l: Tree<V>)
    requires t.Node? && AA(t) && l.Node? && AA(l) && Grown(t.left, l)
    ensures Rebalance(t.(left := l)).Node? && AA(Rebalance(t.(left := l))) && Grown(t, Rebalance(t.(left := l)))
  {
  }

  lemma GrownRight<V>(t: Tree<V>, r: Tree<V>)
    requires t.Node? && AA(t) && r.Node? && AA(r) && Grown(t.right, r)
    ensures Rebalance(t.(right := r)).Node? && AA(Rebalance(t.(right := r))) && Grown(t, Rebalance(t.(right := r)))
  {
  }

  /** What erasing leaves for the parent: at most one level lower, and no new horizontal link. */
  ghost predicate Settled<V>(t: Tree<V>, t': Tree<V>) {
    && AA(t') && Level(t') <= Level(t) <= Level(t') + 1
    && (Level(t') == Level(t) && RightLevel(t) < Level(t) ==> RightLevel(t') < Level(t'))
  }

  /** The links that the skews and splits of `_erase_r_` follow, starting from a lowered node. */
  ghost predicate LinksLeadToNodes<V>(u: Tree<V>)
    requires u.Node?
  {
    var a := Skew(u);
    var r := Skew(a.right);
    var b := Reskew(u);
    var c := Split(b);
    && u.level > 0 && a.right.Node? && a.right.level > 0
    && r.Node? && (r.right.Node? ==> r.right.level > 0)
    && b.Node? && b.level > 0 && c.right.Node? && c.right.level > 0
  }

  /** No left rotation is possible in a tree that obeys the rules. */
  lemma SkewIdle<V>(t: Tree<V>)
    requires AA(t)
    ensures Skew(t) == t && Split(t) == t && RightLevel(t) <= Level(t)
    ensures t.Node? ==> t.level > 0 && AA(t.left) && AA(t.right)
  {
  }

  /** The left child sank, and the right child is one level down: it becomes the right link, or the new top. */
  lemma FixLeftLow<V>(t: Tree<V>)
    requires Sunk(t) && t.Node? && Level(t.left) + 2 == t.level == Level(t.right) + 1
    ensures Settled(t, Fix(t)) && LinksLeadToNodes(Lower(t))
  {
    var r, u := t.right, Lower(t);
    SkewIdle(r);
    SkewIdle(r.left);
    SkewIdle(r.right);
    assert Reskew(u) == u;
    if Level(r.right) == u.level {
      assert AA(u.(right := r.left));
      assert Fix(t) == r.(level := t.level, left := u.(right := r.left));
    } else {
      assert Fix(t) == u;
    }
  }

  /** The second split of `_erase_r_`: a right child brought down one level, with a new left subtree `q`
      that may now be on its own level. */
  lemma DeepRight<V>(r: Tree<V>, q: Tree<V>)
    requires AA(r) && r.Node? && r.level >= 2 && AA(q) && Level(r.right) == r.level - 1
    requires r.level - 2 <= Level(q) <= r.level - 1 && RightLevel(q) < r.level - 1
    ensures var s := Split(Skew(r.(level := r.level - 1, left := q)));
      AA(s) && r.level - 1 <= Level(s) <= r.level && (Level(s) == r.level ==> RightLevel(s) < r.level)
  {
    var r' := r.(level := r.level - 1, left := q);
    SkewIdle(r.right);
    SkewIdle(r.right.left);
    SkewIdle(r.right.right);
    SkewIdle(q);
    if Level(q) == r'.level {
      assert Split(Skew(r')) == r.(left := q);
    } else if Level(r.right.right) == r'.level {
      assert AA(r'.(right := r.right.left));
    }
  }

  /** The left child sank, and the right child is on the node's level: both come down, and the right
      child's left subtree provides the new top. */
  lemma FixLeftDeep<V>(t: Tree<V>)
    requires Sunk(t) && t.Node? && Level(t.left) + 2 == t.level == Level(t.right)
    ensures Settled(t, Fix(t)) && LinksLeadToNodes(Lower(t))
  {
    var r, u := t.right, Lower(t);
    var m := r.left;
    SkewIdle(r);
    SkewIdle(m);
    SkewIdle(m.left);
    DeepRight(r, m.right);
    var r'' := Skew(r.(level := u.level, left := m.right));
    assert Skew(u) == u;
    assert Reskew(u) == u.(right := m.(right := r''));
    var left := u.(right := m.left);
    assert AA(left);
    assert Fix(t) == m.(level := t.level, left := left, right := Split(r''));
  }

  /** The right child sank: the left spine supplies the new top. */
  lemma FixRightLow<V>(t: Tree<V>)
    requires Sunk(t) && t.Node? && Level(t.left) + 1 == t.level == Level(t.right) + 2
    ensures Settled(t, Fix(t)) && LinksLeadToNodes(Lower(t))
  {
    var l := t.left;
    SkewIdle(l);
    SkewIdle(l.left);
    SkewIdle(l.right);
    SkewIdle(t.right);
    if Level(l.right) + 1 == t.level { FixRightInner(t); } else { FixRightOuter(t); }
  }

  lemma FixRightOuter<V>(t: Tree<V>)
    requires Sunk(t) && t.Node? && Level(t.left) + 1 == t.level == Level(t.right) + 2 == Level(t.left.right) + 2
    requires Skew(t.left.right) == t.left.right && Skew(t.right) == t.right
    ensures Settled(t, Fix(t)) && LinksLeadToNodes(Lower(t))
  {
    var l, u := t.left, Lower(t);
    var u' := u.(left := l.right);
    assert Skew(u) == l.(right := u') && AA(u');
    assert Fix(t) == l.(right := u');
  }

  lemma FixRightInner<V>(t: Tree<V>)
    requires Sunk(t) && t.Node? && Level(t.left) + 1 == t.level == Level(t.right) + 2 == Level(t.left.right) + 1
    requires Skew(t.right) == t.right
    ensures Settled(t, Fix(t)) && LinksLeadToNodes(Lower(t))
  {
    var l, m, u := t.left, t.left.right, Lower(t);
    assert AA(l) && AA(m);
    SkewIdle(m.left);
    SkewIdle(m.right);
    assert Skew(u) == l.(right := u.(left := m));
    assert AA(u.(left := m.right));
    assert AA(l.(right := m.left));
    assert Reskew(u) == l.(right := m.(right := Skew(u.(left := m.right))));
    assert Fix(t) == m.(level := t.level, left := l.(right := m.left), right := u.(left := m.right));
  }

  lemma FixSettles<V>(t: Tree<V>)
    requires Sunk(t)
    ensures Settled(t, Fix(t))
  {
    if NeedsFix(t) {
      if Level(t.left) + 1 < t.level {
        if Level(t.right) == t.level { FixLeftDeep(t); } else { FixLeftLow(t); }
      } else {
        FixRightLow(t);
      }
    }
  }

  /** The rebalancing after an erase never skews or splits its way onto the null node: every link it
      follows leads to a node. In particular both calls of `_split_` get a node. */
  lemma FixNeverSplitsNull<V>(t: Tree<V>)
    requires Sunk(t) && NeedsFix(t)
    ensures t.level > 1 && LinksLeadToNodes(Lower(t))
  {
    if Level(t.left) + 1 < t.level {
      if Level(t.right) == t.level { FixLeftDeep(t); } else { FixLeftLow(t); }
    } else {
      FixRightLow(t);
    }
  }

  lemma {:induction false} EraseKeeps<V>(t: Tree<V>, k: int)
    requires AA(t)
    ensures Settled(t, Erase(t, k))
  {
    if t.Node? {
      if k < t.key {
        EraseKeeps(t.left, k);
        FixSettles(t.(left := Erase(t.left, k)));
      } else if k > t.key {
        EraseKeeps(t.right, k);
        FixSettles(t.(right := Erase(t.right, k)));
      } else if t.left.Node? && t.right.Node? {
        var m := Max(t.left);
        EraseKeeps(t.left, m.key);
        FixSettles(t.(key := m.key, val := m.val, left := Erase(t.left, m.key)));
      }
    }
  }

  // ---------------------------------------------------------------- order and slots

  datatype Entry<V> = Entry(key: int, val: V)

  /** The entries in symmetric order, and the array slots that hold them. Rotations change neither. */
  ghost function Entries<V>(t: Tree<V>): seq<Entry<V>> {
    if t.Nil? then [] else Entries(t.left) + [Entry(t.key, t.val)] + Entries(t.right)
  }

  ghost function Slots<V>(t: Tree<V>): seq<nat> {
    if t.Nil? then [] else Slots(t.left) + [t.id] + Slots(t.right)
  }

  ghost predicate Sorted<V>(s: seq<Entry<V>>) {
    forall i, j :: 0 <= i < j < |s| ==> s[i].key < s[j].key
  }

  ghost predicate NoDup(s: seq<nat>) {
    forall i, j :: 0 <= i < j < |s| ==> s[i] != s[j]
  }

  ghost function InsertAt<T>(s: seq<T>, i: nat, x: T): seq<T>
    requires i <= |s|
  {
    s[..i] + [x] + s[i..]
  }

  ghost function RemoveAt<T>(s: seq<T>, i: nat): seq<T>
    requires i < |s|
  {
    s[..i] + s[i + 1..]
  }

  lemma SeqLeft<T>(l: seq<T>, x: T, r: seq<T>, i: nat, e: T)
    ensures i <= |l| ==> InsertAt(l, i, e) + [x] + r == InsertAt(l + [x] + r, i, e)
    ensures i < |l| ==> RemoveAt(l, i) + [x] + r == RemoveAt(l + [x] + r, i)
  {
  }

  lemma SeqMiddle<T>(l: seq<T>, x: T, r: seq<T>)
    ensures RemoveAt(l + [x] + r, |l|) == l + r
    ensures l == [] ==> l + r == r
    ensures r == [] ==> l + r == l
  {
  }

  lemma SeqRight<T>(l: seq<T>, x: T, r: seq<T>, i: nat, e: T)
    ensures i <= |r| ==> l + [x] + InsertAt(r, i, e) == InsertAt(l + [x] + r, |l| + 1 + i, e)
    ensures i < |r| ==> l + [x] + RemoveAt(r, i) == RemoveAt(l + [x] + r, |l| + 1 + i)
  {
  }

  lemma {:induction false} SameSize<V>(t: Tree<V>)
    ensures |Entries(t)| == |Slots(t)|
  {
    if t.Node? { SameSize(t.left); SameSize(t.right); }
  }

  lemma SkewContent<V>(t: Tree<V>)
    ensures Entries(Skew(t)) == Entries(t) && Slots(Skew(t)) == Slots(t)
  {
  }

  lemma SplitContent<V>(t: Tree<V>)
    ensures Entries(Split(t)) == Entries(t) && Slots(Split(t)) == Slots(t)
  {
  }

  lemma FixContent<V>(t: Tree<V>)
    ensures Entries(Fix(t)) == Entries(t) && Slots(Fix(t)) == Slots(t)
  {
    if NeedsFix(t) {
      var u := Lower(t);
      assert Entries(u.right) == Entries(t.right) && Slots(u.right) == Slots(t.right);
      SkewContent(u);
      var a := Skew(u);
      SkewContent(a.right);
      var r := Skew(a.right);
      if r.Node? {
        SkewContent(r.right);
      }
      SplitContent(Reskew(u));
      SplitContent(Split(Reskew(u)).right);
    }
  }

  /** How many entries the search for `k` leaves on its left. */
  ghost function Rank<V>(t: Tree<V>, k: int): (r: nat)
    ensures r <= |Entries(t)|
  {
    if t.Nil? then 0
    else if k <= t.key then Rank(t.left, k)
    else |Entries(t.left)| + 1 + Rank(t.right, k)
  }

  /** In a sorted tree the rank is the position of the key. */
  lemma {:induction false} RankSplits<V>(t: Tree<V>, k: int)
    requires Sorted(Entries(t))
    ensures forall i :: 0 <= i < Rank(t, k) ==> Entries(t)[i].key < k
    ensures forall i :: Rank(t, k) <= i < |Entries(t)| ==> Entries(t)[i].key >= k
    ensures Rank(t, k) < |Entries(t)| ==> Entries(t)[Rank(t, k)].key >= k
  {
    if t.Node? {
      SubtreesSorted(t);
      if k <= t.key { RankSplits(t.left, k); } else { RankSplits(t.right, k); }
    }
  }

  lemma SubtreesSorted<V>(t: Tree<V>)
    requires t.Node? && Sorted(Entries(t))
    ensures Sorted(Entries(t.left)) && Sorted(Entries(t.right))
    ensures forall i :: 0 <= i < |Entries(t.left)| ==> Entries(t.left)[i].key < t.key
    ensures forall i :: 0 <= i < |Entries(t.right)| ==> t.key < Entries(t.right)[i].key
  {
    PartsSorted(Entries(t.left), Entry(t.key, t.val), Entries(t.right));
  }

  lemma PartsSorted<V>(l: seq<Entry<V>>, e: Entry<V>, r: seq<Entry<V>>)
    requires Sorted(l + [e] + r)
    ensures Sorted(l) && Sorted(r)
    ensures forall i :: 0 <= i < |l| ==> l[i].key < e.key
    ensures forall i :: 0 <= i < |r| ==> e.key < r[i].key
  {
    var s := l + [e] + r;
    assert s[|l|] == e;
    assert forall i :: 0 <= i < |l| ==> s[i] == l[i];
    assert forall i :: 0 <= i < |r| ==> s[|l| + 1 + i] == r[i];
  }

  ghost predicate HasKey<V>(s: seq<Entry<V>>, k: int) {
    exists i :: 0 <= i < |s| && s[i].key == k
  }

  lemma {:induction false} MaxContent<V>(t: Tree<V>)
    requires t.Node?
    ensures |Entries(t)| > 0 && Entries(t)[|Entries(t)| - 1] == Entry(Max(t).key, Max(t).val)
    ensures HasKey(Entries(t), Max(t).key)
  {
    if t.right.Node? {
      MaxContent(t.right);
    }
  }

  /** The position, in slot order, of the node `_erase_r_` unlinks: the erased key's own, or its
      predecessor's when that moves up. */
  ghost function FreedRank<V>(t: Tree<V>, k: int): nat {
    if t.Nil? then 0
    else if k < t.key then FreedRank(t.left, k)
    else if k > t.key then |Slots(t.left)| + 1 + FreedRank(t.right, k)
    else if t.left.Node? && t.right.Node? then FreedRank(t.left, Max(t.left).key)
    else |Slots(t.left)|
  }

  /** Where a key of the tree is, relative to the root. */
  lemma KeyBelow<V>(t: Tree<V>, k: int)
    requires t.Node? && Sorted(Entries(t))
    ensures HasKey(Entries(t), k) <==>
      (if k < t.key then HasKey(Entries(t.left), k) else if k > t.key then HasKey(Entries(t.right), k) else true)
  {
    SubtreesSorted(t);
    KeyInParts(Entries(t.left), Entry(t.key, t.val), Entries(t.right), k);
    assert Entries(t) == Entries(t.left) + [Entry(t.key, t.val)] + Entries(t.right);
    hide Entries, Sorted;
  }

  lemma KeyInParts<V>(l: seq<Entry<V>>, e: Entry<V>, r: seq<Entry<V>>, k: int)
    ensures HasKey(l + [e] + r, k) <==> HasKey(l, k) || e.key == k || HasKey(r, k)
  {
    var s := l + [e] + r;
    if i :| 0 <= i < |l| && l[i].key == k {
      assert s[i].key == k;
    }
    if i :| 0 <= i < |r| && r[i].key == k {
      assert s[|l| + 1 + i].key == k;
    }
    assert s[|l|] == e;
  }

  lemma InsertOnLeft<V>(t: Tree<V>, l: Tree<V>, i: nat, e: Entry<V>, id: nat)
    requires t.Node? && i <= |Entries(t.left)| && Entries(l) == InsertAt(Entries(t.left), i, e)
    requires i <= |Slots(t.left)| && Slots(l) == InsertAt(Slots(t.left), i, id)
    ensures i <= |Entries(t)| && Entries(t.(left := l)) == InsertAt(Entries(t), i, e)
    ensures i <= |Slots(t)| && Slots(t.(left := l)) == InsertAt(Slots(t), i, id)
  {
    hide InsertAt;
    SeqLeft(Entries(t.left), Entry(t.key, t.val), Entries(t.right), i, e);
    SeqLeft(Slots(t.left), t.id, Slots(t.right), i, id);
  }

  lemma InsertOnRight<V>(t: Tree<V>, r: Tree<V>, i: nat, e: Entry<V>, id: nat)
    requires t.Node? && i <= |Entries(t.right)| && Entries(r) == InsertAt(Entries(t.right), i, e)
    requires i <= |Slots(t.right)| && Slots(r) == InsertAt(Slots(t.right), i, id) &&
      |Slots(t.left)| == |Entries(t.left)|
    ensures var j := |Entries(t.left)| + 1 + i;
      && j <= |Entries(t)| && Entries(t.(right := r)) == InsertAt(Entries(t), j, e)
      && j <= |Slots(t)| && Slots(t.(right := r)) == InsertAt(Slots(t), j, id)
  {
    hide InsertAt;
    SeqRight(Entries(t.left), Entry(t.key, t.val), Entries(t.right), i, e);
    SeqRight(Slots(t.left), t.id, Slots(t.right), i, id);
  }

  lemma RemoveOnLeft<V>(t: Tree<V>, l: Tree<V>, i: nat, j: nat)
    requires t.Node? && i < |Entries(t.left)| && Entries(l) == RemoveAt(Entries(t.left), i)
    requires j < |Slots(t.left)| && Slots(l) == RemoveAt(Slots(t.left), j)
    ensures i < |Entries(t)| && Entries(t.(left := l)) == RemoveAt(Entries(t), i)
    ensures j < |Slots(t)| && Slots(t.(left := l)) == RemoveAt(Slots(t), j)
  {
    hide RemoveAt;
    SeqLeft(Entries(t.left), Entry(t.key, t.val), Entries(t.right), i, Entry(t.key, t.val));
    SeqLeft(Slots(t.left), t.id, Slots(t.right), j, 0);
  }

  lemma RemoveOnRight<V>(t: Tree<V>, r: Tree<V>, i: nat, j: nat)
    requires t.Node? && i < |Entries(t.right)| && Entries(r) == RemoveAt(Entries(t.right), i)
    requires j < |Slots(t.right)| && Slots(r) == RemoveAt(Slots(t.right), j)
    ensures |Entries(t.left)| + 1 + i < |Entries(t)| && |Slots(t.left)| + 1 + j < |Slots(t)|
    ensures Entries(t.(right := r)) == RemoveAt(Entries(t), |Entries(t.left)| + 1 + i)
    ensures Slots(t.(right := r)) == RemoveAt(Slots(t), |Slots(t.left)| + 1 + j)
  {
    hide RemoveAt;
    SeqRight(Entries(t.left), Entry(t.key, t.val), Entries(t.right), i, Entry(t.key, t.val));
    SeqRight(Slots(t.left), t.id, Slots(t.right), j, 0);
  }

  /** What inserting does to the two sequences. */
  ghost predicate Inserts<V>(t: Tree<V>, k: int, v: V, id: nat) {
    && Rank(t, k) <= |Slots(t)| == |Entries(t)|
    && Entries(Insert(t, k, v, id)) == InsertAt(Entries(t), Rank(t, k), Entry(k, v))
    && Slots(Insert(t, k, v, id)) == InsertAt(Slots(t), Rank(t, k), id)
  }

  lemma InsertLeftContent<V>(t: Tree<V>, k: int, v: V, id: nat)
    requires t.Node? && k < t.key && Inserts(t.left, k, v, id)
    ensures Inserts(t, k, v, id)
  {
    hide Skew, Split, InsertAt, Entries, Slots;
    var u := t.(left := Insert(t.left, k, v, id));
    assert Insert(t, k, v, id) == Split(Skew(u)) && Rank(t, k) == Rank(t.left, k);
    hide Insert, Rank;
    SameSize(t);
    InsertOnLeft(t, u.left, Rank(t.left, k), Entry(k, v), id);
    SkewContent(u);
    SplitContent(Skew(u));
  }

  lemma InsertRightContent<V>(t: Tree<V>, k: int, v: V, id: nat)
    requires t.Node? && k > t.key && Inserts(t.right, k, v, id)
    ensures Inserts(t, k, v, id)
  {
    hide Skew, Split, InsertAt, Entries, Slots;
    var u := t.(right := Insert(t.right, k, v, id));
    assert Insert(t, k, v, id) == Split(Skew(u)) && Rank(t, k) == |Entries(t.left)| + 1 + Rank(t.right, k);
    hide Insert, Rank;
    SameSize(t);
    SameSize(t.left);
    InsertOnRight(t, u.right, Rank(t.right, k), Entry(k, v), id);
    SkewContent(u);
    SplitContent(Skew(u));
  }

  lemma {:induction false} InsertContent<V>(t: Tree<V>, k: int, v: V, id: nat)
    requires Sorted(Entries(t)) && !HasKey(Entries(t), k)
    ensures Inserts(t, k, v, id)
  {
    if t.Node? {
      SubtreesSorted(t);
      KeyBelow(t, k);
      hide Sorted, HasKey, InsertAt, Entries, Slots, Insert, Rank, Inserts;
      if k < t.key {
        InsertContent(t.left, k, v, id);
        InsertLeftContent(t, k, v, id);
      } else {
        InsertContent(t.right, k, v, id);
        InsertRightContent(t, k, v, id);
      }
    }
  }

  /** The predecessor `m` moving up into `t`, with `l` what remains of the left subtree. */
  lemma MoveUp<V>(t: Tree<V>, l: Tree<V>, m: Tree<V>, j: nat)
    requires t.Node? && m.Node? && |Entries(t.left)| > 0
    requires Entries(t.left)[|Entries(t.left)| - 1] == Entry(m.key, m.val)
    requires Entries(l) == RemoveAt(Entries(t.left), |Entries(t.left)| - 1)
    requires j < |Slots(t.left)| && Slots(l) == RemoveAt(Slots(t.left), j)
    ensures |Entries(t.left)| < |Entries(t)| && j < |Slots(t)|
    ensures Entries(t.(key := m.key, val := m.val, left := l)) == RemoveAt(Entries(t), |Entries(t.left)|)
    ensures Slots(t.(key := m.key, val := m.val, left := l)) == RemoveAt(Slots(t), j)
  {
    SeqLeft(Slots(t.left), t.id, Slots(t.right), j, 0);
    assert Entries(t.left) == Entries(l) + [Entry(m.key, m.val)];
  }

  /** What erasing does to the two sequences. */
  ghost predicate Removes<V>(t: Tree<V>, k: int) {
    && Rank(t, k) < |Entries(t)| && Entries(Erase(t, k)) == RemoveAt(Entries(t), Rank(t, k))
    && FreedRank(t, k) < |Slots(t)| && Slots(Erase(t, k)) == RemoveAt(Slots(t), FreedRank(t, k))
  }

  /** The erased key is the root's. */
  lemma EraseRootContent<V>(t: Tree<V>)
    requires t.Node? && Sorted(Entries(t))
    requires t.left.Node? && t.right.Node? ==> Removes(t.left, Max(t.left).key)
    ensures Removes(t, t.key)
  {
    hide Sorted, Entries, Slots, FreedRank, Erase, RemoveAt;
    SubtreesSorted(t);
    RankAtEnd(t.left, t.key);
    assert Rank(t, t.key) == |Entries(t.left)|;
    if t.left.Node? && t.right.Node? {
      EraseTwoChildren(t);
    } else {
      EraseOneChild(t);
    }
  }

  lemma EraseOneChild<V>(t: Tree<V>)
    requires t.Node? && (t.left.Nil? || t.right.Nil?) && Rank(t, t.key) == |Entries(t.left)|
    ensures Removes(t, t.key)
  {
    assert Erase(t, t.key) == if t.left.Nil? then t.right else t.left;
    assert FreedRank(t, t.key) == |Slots(t.left)|;
    hide RemoveAt, Rank, FreedRank, Erase;
    SeqMiddle(Entries(t.left), Entry(t.key, t.val), Entries(t.right));
    SeqMiddle(Slots(t.left), t.id, Slots(t.right));
  }

  lemma EraseTwoChildren<V>(t: Tree<V>)
    requires t.Node? && Sorted(Entries(t.left)) && t.left.Node? && t.right.Node? && Removes(t.left, Max(t.left).key)
    ensures |Entries(t.left)| < |Entries(t)| && Entries(Erase(t, t.key)) == RemoveAt(Entries(t), |Entries(t.left)|)
    ensures FreedRank(t, t.key) < |Slots(t)| && Slots(Erase(t, t.key)) == RemoveAt(Slots(t), FreedRank(t, t.key))
  {
    hide Sorted, RemoveAt, Fix, Max, Rank;
    var m := Max(t.left);
    var u := t.(key := m.key, val := m.val, left := Erase(t.left, m.key));
    assert Erase(t, t.key) == Fix(u);
    assert FreedRank(t, t.key) == FreedRank(t.left, m.key);
    FixContent(u);
    hide *;
    MoveUpMax(t, m);
  }

  lemma MoveUpMax<V>(t: Tree<V>, m: Tree<V>)
    requires t.Node? && t.left.Node? && m == Max(t.left) && Sorted(Entries(t.left)) && Removes(t.left, m.key)
    ensures |Entries(t.left)| < |Entries(t)| && FreedRank(t.left, m.key) < |Slots(t)|
    ensures Entries(t.(key := m.key, val := m.val, left := Erase(t.left, m.key)))
      == RemoveAt(Entries(t), |Entries(t.left)|)
    ensures Slots(t.(key := m.key, val := m.val, left := Erase(t.left, m.key)))
      == RemoveAt(Slots(t), FreedRank(t.left, m.key))
  {
    hide Entries, Slots, HasKey, RemoveAt, Erase, FreedRank, Max, Rank, Sorted;
    MaxContent(t.left);
    RankOfMax(t.left);
    MoveUp(t, Erase(t.left, m.key), m, FreedRank(t.left, m.key));
  }

  lemma {:induction false} EraseContent<V>(t: Tree<V>, k: int)
    requires Sorted(Entries(t)) && HasKey(Entries(t), k)
    ensures Removes(t, k)
  {
    KeyBelow(t, k);
    SubtreesSorted(t);
    hide Sorted, Removes, Erase, Rank, FreedRank;
    if k < t.key {
      EraseContent(t.left, k);
      EraseLeftContent(t, k);
    } else if k > t.key {
      EraseContent(t.right, k);
      EraseRightContent(t, k);
    } else {
      if t.left.Node? && t.right.Node? {
        MaxContent(t.left);
        EraseContent(t.left, Max(t.left).key);
      }
      EraseRootContent(t);
    }
  }

  lemma EraseGoesLeft<V>(t: Tree<V>, k: int)
    requires t.Node? && k < t.key
    ensures Erase(t, k) == Fix(t.(left := Erase(t.left, k)))
    ensures Rank(t, k) == Rank(t.left, k) && FreedRank(t, k) == FreedRank(t.left, k)
  {
    hide Fix;
  }

  lemma EraseGoesRight<V>(t: Tree<V>, k: int)
    requires t.Node? && k > t.key
    ensures Erase(t, k) == Fix(t.(right := Erase(t.right, k)))
    ensures Rank(t, k) == |Entries(t.left)| + 1 + Rank(t.right, k)
    ensures FreedRank(t, k) == |Slots(t.left)| + 1 + FreedRank(t.right, k)
  {
    hide Fix;
  }

  lemma EraseLeftContent<V>(t: Tree<V>, k: int)
    requires t.Node? && k < t.key && Removes(t.left, k)
    ensures Removes(t, k)
  {
    hide RemoveAt, Fix, Erase, Rank, FreedRank, Entries, Slots;
    var u := t.(left := Erase(t.left, k));
    EraseGoesLeft(t, k);
    FixContent(u);
    RemoveOnLeft(t, u.left, Rank(t.left, k), FreedRank(t.left, k));
  }

  lemma EraseRightContent<V>(t: Tree<V>, k: int)
    requires t.Node? && k > t.key && Removes(t.right, k)
    ensures Removes(t, k)
  {
    hide RemoveAt, Fix, Erase, Rank, FreedRank, Entries, Slots;
    var u := t.(right := Erase(t.right, k));
    EraseGoesRight(t, k);
    FixContent(u);
    RemoveOnRight(t, u.right, Rank(t.right, k), FreedRank(t.right, k));
  }

  lemma RankAtEnd<V>(t: Tree<V>, k: int)
    requires Sorted(Entries(t)) && forall i :: 0 <= i < |Entries(t)| ==> Entries(t)[i].key < k
    ensures Rank(t, k) == |Entries(t)|
  {
    RankSplits(t, k);
  }

  lemma RankOfMax<V>(t: Tree<V>)
    requires Sorted(Entries(t)) && t.Node?
    ensures Rank(t, Max(t).key) == |Entries(t)| - 1
  {
    MaxContent(t);
    RankSplits(t, Max(t).key);
  }

  /** Erasing a key that is not there changes nothing. */
  lemma {:induction false} EraseMissing<V>(t: Tree<V>, k: int)
    requires AA(t) && Sorted(Entries(t)) && !HasKey(Entries(t), k)
    ensures Erase(t, k) == t
  {
    if t.Node? {
      SubtreesSorted(t);
      KeyBelow(t, k);
      if k < t.key { EraseMissing(t.left, k); } else { EraseMissing(t.right, k); }
    }
  }

  // ---------------------------------------------------------------- depth

  ghost function Pow2(n: nat): nat {
    if n == 0 then 1 else 2 * Pow2(n - 1)
  }

  /** A tree whose root is at level k has at least 2^k - 1 nodes. */
  lemma {:induction false} LevelBound<V>(t: Tree<V>)
    requires AA(t)
    ensures Pow2(Level(t)) <= |Slots(t)| + 1
  {
    if t.Node? {
      LevelBound(t.left);
      LevelBound(t.right);
    }
  }

  /** The number of nodes on the longest downward path. */
  ghost function Depth<V>(t: Tree<V>): nat {
    if t.Nil? then 0
    else 1 + if Depth(t.left) > Depth(t.right) then Depth(t.left) else Depth(t.right)
  }

  lemma {:induction false} DepthBound<V>(t: Tree<V>)
    requires AA(t)
    ensures Depth(t) <= 2 * Level(t)
    ensures t.Node? && RightLevel(t) < t.level ==> Depth(t) < 2 * t.level
  {
    if t.Node? {
      DepthBound(t.left);
      DepthBound(t.right);
    }
  }

  lemma {:induction false} Pow2Monotone(a: nat, b: nat)
    requires a <= b
    ensures Pow2(a) <= Pow2(b)
  {
    if a < b { Pow2Monotone(a, b - 1); }
  }

  lemma PowersOfTwo()
    ensures Pow2(32) == 0x1_0000_0000
  {
    assert Pow2(6) == 64;
    assert Pow2(11) == 2048;
    assert Pow2(16) == 0x1_0000;
    assert Pow2(21) == 0x20_0000;
    assert Pow2(26) == 0x400_0000;
  }

  /** With 32-bit slot numbers no tree is higher than 31 levels or deeper than 62 nodes: the path fits
      `up[64]`, and a stack with at most one node per level fits `_st[36]`. */
  lemma StacksFit<V>(t: Tree<V>)
    requires AA(t) && |Slots(t)| < 0x8000_0000
    ensures Level(t) <= 31 && Depth(t) <= 62
  {
    LevelBound(t);
    DepthBound(t);
    if Level(t) > 31 {
      Pow2Monotone(32, Level(t));
      PowersOfTwo();
    }
  }
}

module AANodes {
  import opened AAShape

  /** One element of the `nodes` array. */
  datatype Slot<V> = Slot(link0: nat, link1: nat, level: nat, key: int, val: V) {
    /** `link[dir]`. */
    function Link(dir: bool): nat {
      if dir then link1 else link0
    }
  }

  /** The slots reached from `tn` are laid out as `t`; slot 0 is the null node. */
  ghost predicate Rep<V>(d: seq<Slot<V>>, tn: nat, t: Tree<V>)
    decreases t
  {
    match t
    case Nil => tn == 0
    case Node(id, level, left, key, val, right) =>
      && tn == id && 0 < id < |d| && d[id].level == level && d[id].key == key && d[id].val == val
      && Rep(d, d[id].link0, left) && Rep(d, d[id].link1, right)
  }

  ghost predicate NullNode<V>(d: seq<Slot<V>>) {
    |d| > 0 && d[0].link0 == 0 && d[0].link1 == 0 && d[0].level == 0
  }

  /** Outside the slots of `t`, `d'` is `d`. */
  ghost predicate Outside<V>(d: seq<Slot<V>>, d': seq<Slot<V>>, t: Tree<V>) {
    |d'| == |d| && forall i :: 0 <= i < |d| && i !in Slots(t) ==> d'[i] == d[i]
  }

  lemma RepLinks<V>(d: seq<Slot<V>>, tn: nat, t: Tree<V>)
    requires t.Node? && Rep(d, tn, t)
    ensures 0 < tn < |d| && Rep(d, d[tn].link0, t.left) && Rep(d, d[tn].link1, t.right)
    ensures (d[tn].link0 == 0 <==> t.left.Nil?) && (d[tn].link1 == 0 <==> t.right.Nil?)
  {
    assert Rep(d, d[tn].link0, t.left) && Rep(d, d[tn].link1, t.right);
  }

  lemma {:induction false} RepFrame<V>(d: seq<Slot<V>>, d': seq<Slot<V>>, tn: nat, t: Tree<V>)
    requires Rep(d, tn, t) && |d| <= |d'| && forall i :: i in Slots(t) && i < |d| ==> d'[i] == d[i]
    ensures Rep(d', tn, t)
    decreases t
  {
    if t.Node? {
      assert t.id in Slots(t);
      assert forall i :: i in Slots(t.left) || i in Slots(t.right) ==> i in Slots(t);
      RepFrame(d, d', d[t.id].link0, t.left);
      RepFrame(d, d', d[t.id].link1, t.right);
    }
  }

  /** What it means for a tree to use no slot twice. */
  lemma SlotsApart<V>(t: Tree<V>)
    requires t.Node? && NoDup(Slots(t))
    ensures NoDup(Slots(t.left)) && NoDup(Slots(t.right))
    ensures t.id !in Slots(t.left) && t.id !in Slots(t.right)
    ensures forall i :: i in Slots(t.left) ==> i !in Slots(t.right)
    ensures forall i :: i in Slots(t) <==> i == t.id || i in Slots(t.left) || i in Slots(t.right)
  {
    var l, r, s := Slots(t.left), Slots(t.right), Slots(t);
    assert forall i :: 0 <= i < |l| ==> s[i] == l[i];
    assert s[|l|] == t.id;
    assert forall i :: 0 <= i < |r| ==> s[|l| + 1 + i] == r[i];
  }

  lemma {:induction false} RepNull<V>(d: seq<Slot<V>>, tn: nat, t: Tree<V>)
    requires Rep(d, tn, t)
    ensures forall i :: i in Slots(t) ==> 0 < i < |d|
    decreases t
  {
    if t.Node? {
      RepNull(d, d[t.id].link0, t.left);
      RepNull(d, d[t.id].link1, t.right);
    }
  }

  /** Hanging a new tree `t'` on the right of the root, after work confined to the old right subtree. */
  lemma AttachRight<V>(d: seq<Slot<V>>, d': seq<Slot<V>>, tn: nat, t: Tree<V>, r: nat, t': Tree<V>)
    requires t.Node? && Rep(d, tn, t) && NoDup(Slots(t)) && |d| <= |d'|
    requires forall i :: 0 <= i < |d| && i in Slots(t) && i !in Slots(t.right) ==> d'[i] == d[i]
    requires Rep(d', r, t') && forall i :: i in Slots(t') ==> i in Slots(t.right) || i !in Slots(t)
    ensures Rep(d'[tn := d'[tn].(link1 := r)], tn, t.(right := t'))
  {
    SlotsApart(t);
    var e := d'[tn := d'[tn].(link1 := r)];
    RepFrame(d, e, d[tn].link0, t.left);
    RepFrame(d', e, r, t');
  }

  lemma AttachLeft<V>(d: seq<Slot<V>>, d': seq<Slot<V>>, tn: nat, t: Tree<V>, r: nat, t': Tree<V>)
    requires t.Node? && Rep(d, tn, t) && NoDup(Slots(t)) && |d| <= |d'|
    requires forall i :: 0 <= i < |d| && i in Slots(t) && i !in Slots(t.left) ==> d'[i] == d[i]
    requires Rep(d', r, t') && forall i :: i in Slots(t') ==> i in Slots(t.left) || i !in Slots(t)
    ensures Rep(d'[tn := d'[tn].(link0 := r)], tn, t.(left := t'))
  {
    SlotsApart(t);
    var e := d'[tn := d'[tn].(link0 := r)];
    RepFrame(d, e, d[tn].link1, t.right);
    RepFrame(d', e, r, t');
  }

  /** Overwriting the level, key and value of the root. */
  lemma Relabel<V>(d: seq<Slot<V>>, tn: nat, t: Tree<V>, level: nat, key: int, val: V)
    requires t.Node? && Rep(d, tn, t) && NoDup(Slots(t))
    ensures Rep(d[tn := d[tn].(level := level, key := key, val := val)], tn, t.(level := level, key := key, val := val))
  {
    SlotsApart(t);
    var e := d[tn := d[tn].(level := level, key := key, val := val)];
    RepFrame(d, e, d[tn].link0, t.left);
    RepFrame(d, e, d[tn].link1, t.right);
  }

  lemma RotateRight<V>(d: seq<Slot<V>>, tn: nat, t: Tree<V>)
    requires t.Node? && t.left.Node? && Rep(d, tn, t) && NoDup(Slots(t))
    ensures
      var b := d[tn].link0;
      && 0 < b < |d| && b != tn
      && Rep(d[tn := d[tn].(link0 := d[b].link1)][b := d[b].(link1 := tn)], b,
        t.left.(right := t.(left := t.left.right)))
  {
    SlotsApart(t);
    SlotsApart(t.left);
    var b := d[tn].link0;
    var e := d[tn := d[tn].(link0 := d[b].link1)][b := d[b].(link1 := tn)];
    RepFrame(d, e, d[b].link0, t.left.left);
    RepFrame(d, e, d[b].link1, t.left.right);
    RepFrame(d, e, d[tn].link1, t.right);
    assert Rep(e, tn, t.(left := t.left.right));
  }

  lemma RotateLeft<V>(d: seq<Slot<V>>, tn: nat, t: Tree<V>)
    requires t.Node? && t.right.Node? && Rep(d, tn, t) && NoDup(Slots(t))
    ensures
      var b := d[tn].link1;
      && 0 < b < |d| && b != tn
      && Rep(d[tn := d[tn].(link1 := d[b].link0)][b := d[b].(link0 := tn, level := d[b].level + 1)], b,
             t.right.(left := t.(right := t.right.left), level := t.right.level + 1))
  {
    SlotsApart(t);
    SlotsApart(t.right);
    var b := d[tn].link1;
    var e := d[tn := d[tn].(link1 := d[b].link0)][b := d[b].(link0 := tn, level := d[b].level + 1)];
    RepFrame(d, e, d[b].link0, t.right.left);
    RepFrame(d, e, d[b].link1, t.right.right);
    RepFrame(d, e, d[tn].link0, t.left);
    assert Rep(e, tn, t.(right := t.right.left));
  }

  // ---------------------------------------------------------------- rotations in place

  /** `_skew_`. */
  method SkewAt<V>(d: array<Slot<V>>, tn: nat, ghost t: Tree<V>) returns (r: nat)
    requires NullNode(d[..]) && Rep(d[..], tn, t) && NoDup(Slots(t)) && (t.Node? ==> t.level > 0)
    modifies d
    ensures Rep(d[..], r, Skew(t)) && Outside(old(d[..]), d[..], t) && NullNode(d[..])
  {
    r := tn;
    if tn != 0 && d[d[tn].link0].level == d[tn].level {
      RepNull(d[..], tn, t);
      RotateRight(d[..], tn, t);
      var tmp := d[tn].link0;
      d[tn] := d[tn].(link0 := d[tmp].link1);
      d[tmp] := d[tmp].(link1 := tn);
      r := tmp;
      assert tn in Slots(t) && tmp in Slots(t);
    }
  }

  /** `_split_`, which must not be called on the null node. */
  method SplitAt<V>(d: array<Slot<V>>, tn: nat, ghost t: Tree<V>) returns (r: nat)
    requires NullNode(d[..]) && Rep(d[..], tn, t) && NoDup(Slots(t)) && tn != 0 && t.level > 0
    modifies d
    ensures Rep(d[..], r, Split(t)) && Outside(old(d[..]), d[..], t) && NullNode(d[..]) && r != 0
  {
    r := tn;
    assert Rep(d[..], d[tn].link1, t.right);
    assert t.right.Node? ==> Rep(d[..], d[d[tn].link1].link1, t.right.right);
    if d[d[d[tn].link1].link1].level == d[tn].level {
      RepNull(d[..], tn, t);
      RotateLeft(d[..], tn, t);
      var tmp := d[tn].link1;
      d[tn] := d[tn].(link1 := d[tmp].link0);
      d[tmp] := d[tmp].(link0 := tn, level := d[tmp].level + 1);
      r := tmp;
      assert tn in Slots(t) && tmp in Slots(t);
    }
  }

  /** The end of `_erase_r_`. */
  method FixAt<V>(d: array<Slot<V>>, tn: nat, ghost t: Tree<V>) returns (r: nat)
    requires NullNode(d[..]) && Rep(d[..], tn, t) && NoDup(Slots(t)) && Sunk(t)
    modifies d
    ensures Rep(d[..], r, Fix(t)) && Outside(old(d[..]), d[..], t) && NullNode(d[..])
  {
    r := tn;
    RepNull(d[..], tn, t);
    if t.Node? { LinkLevels(d[..], tn, t); }
    if d[d[tn].link0].level + 1 < d[tn].level || d[d[tn].link1].level + 1 < d[tn].level {
      assert NeedsFix(t);
      FixNeverSplitsNull(t);
      LowerAt(d, tn, t);
      FixContent(t);
      LowerContent(t);
      r := RebuildAt(d, tn, Lower(t));
    }
  }

  lemma LowerContent<V>(t: Tree<V>)
    requires t.Node? && t.level > 0
    ensures Slots(Lower(t)) == Slots(t)
  {
  }

  /** Three skews and two splits. */
  method RebuildAt<V>(d: array<Slot<V>>, tn: nat, ghost u: Tree<V>) returns (r: nat)
    requires NullNode(d[..]) && Rep(d[..], tn, u) && NoDup(Slots(u)) && u.Node? && LinksLeadToNodes(u)
    modifies d
    ensures Rep(d[..], r, Resplit(Reskew(u))) && Outside(old(d[..]), d[..], u) && NullNode(d[..])
  {
    ghost var a := Skew(u);
    SkewContent(u);
    r := SkewAt(d, tn, u);
    SkewRightAt(d, r, a);
    ghost var a' := a.(right := Skew(a.right));
    SkewContent(a.right);
    SkewRightRightAt(d, r, a');
    assert Reskew(u) == a'.(right := a'.right.(right := Skew(a'.right.right)));
    SkewContent(a'.right.right);
    SplitContent(Reskew(u));
    r := SplitAt(d, r, Reskew(u));
    SplitRightAt(d, r, Split(Reskew(u)));
  }

  /** `d[tn].link[1] = _skew_(d, d[tn].link[1])`. */
  method SkewRightAt<V>(d: array<Slot<V>>, tn: nat, ghost t: Tree<V>)
    requires NullNode(d[..]) && Rep(d[..], tn, t) && NoDup(Slots(t)) && t.Node? && (t.right.Node? ==> t.right.level > 0)
    modifies d
    ensures Rep(d[..], tn, t.(right := Skew(t.right))) && Outside(old(d[..]), d[..], t) && NullNode(d[..])
  {
    ghost var d0 := d[..];
    SlotsApart(t);
    RepNull(d0, tn, t);
    SkewContent(t.right);
    var tx := SkewAt(d, d[tn].link1, t.right);
    AttachRight(d0, d[..], tn, t, tx, Skew(t.right));
    ghost var d1 := d[..];
    d[tn] := d[tn].(link1 := tx);
    assert d[..] == d1[tn := d1[tn].(link1 := tx)];
  }

  /** `d[tn].link[1] = _split_(d, d[tn].link[1])`. */
  method SplitRightAt<V>(d: array<Slot<V>>, tn: nat, ghost t: Tree<V>)
    requires NullNode(d[..]) && Rep(d[..], tn, t) && NoDup(Slots(t)) && t.Node? && t.right.Node? && t.right.level > 0
    modifies d
    ensures Rep(d[..], tn, t.(right := Split(t.right))) && Outside(old(d[..]), d[..], t) && NullNode(d[..])
  {
    ghost var d0 := d[..];
    SlotsApart(t);
    RepNull(d0, tn, t);
    SplitContent(t.right);
    var tx := SplitAt(d, d[tn].link1, t.right);
    AttachRight(d0, d[..], tn, t, tx, Split(t.right));
    ghost var d1 := d[..];
    d[tn] := d[tn].(link1 := tx);
    assert d[..] == d1[tn := d1[tn].(link1 := tx)];
  }

  /** `d[tx].link[1] = _skew_(d, d[tx].link[1])` where `tx` is the right child of `tn`. */
  method SkewRightRightAt<V>(d: array<Slot<V>>, tn: nat, ghost t: Tree<V>)
    requires NullNode(d[..]) && Rep(d[..], tn, t) && NoDup(Slots(t)) && t.Node? && t.right.Node?
    requires t.right.right.Node? ==> t.right.right.level > 0
    modifies d
    ensures Rep(d[..], tn, t.(right := t.right.(right := Skew(t.right.right))))
    ensures Outside(old(d[..]), d[..], t) && NullNode(d[..])
  {
    ghost var d0 := d[..];
    SlotsApart(t);
    SlotsApart(t.right);
    RepNull(d0, tn, t);
    var tx := d[tn].link1;
    SkewContent(t.right.right);
    SkewRightAt(d, tx, t.right);
    AttachRight(d0, d[..], tn, t, tx, t.right.(right := Skew(t.right.right)));
    assert d[..][tn := d[..][tn].(link1 := tx)] == d[..];
  }

  lemma LinkLevels<V>(d: seq<Slot<V>>, tn: nat, t: Tree<V>)
    requires NullNode(d) && t.Node? && Rep(d, tn, t)
    ensures d[tn].link0 < |d| && d[tn].link1 < |d| && d[d[tn].link0].level == Level(t.left) &&
      d[d[tn].link1].level == Level(t.right)
  {
  }

  method LowerAt<V>(d: array<Slot<V>>, tn: nat, ghost t: Tree<V>)
    requires NullNode(d[..]) && Rep(d[..], tn, t) && NoDup(Slots(t)) && t.Node? && t.level > 1
    modifies d
    ensures Rep(d[..], tn, Lower(t)) && Outside(old(d[..]), d[..], t) && NullNode(d[..])
  {
    ghost var d0 := d[..];
    SlotsApart(t);
    RepNull(d0, tn, t);
    LinkLevels(d0, tn, t);
    var tx := d[tn].link1;
    d[tn] := d[tn].(level := d[tn].level - 1);
    Relabel(d0, tn, t, t.level - 1, t.key, t.val);
    ghost var d1, t1 := d[..], t.(level := t.level - 1);
    assert d1 == d0[tn := d0[tn].(level := t.level - 1, key := t.key, val := t.val)];
    if d[tx].level > d[tn].level {
      Relabel(d1, tx, t.right, t.level - 1, t.right.key, t.right.val);
      d[tx] := d[tx].(level := d[tn].level);
      assert d[..] == d1[tx := d1[tx].(level := t.level - 1, key := t.right.key, val := t.right.val)];
      AttachRight(d1, d[..], tn, t1, tx, t.right.(level := t.level - 1));
      assert d[..][tn := d[..][tn].(link1 := tx)] == d[..];
    }
  }
}

module AATree {
  import opened AAShape
  import opened AANodes

  /** The children a search for `k` goes through. */
  ghost function Child<V>(t: Tree<V>, k: int): Tree<V>
    requires t.Node?
  {
    if t.key < k then t.right else t.left
  }

  ghost function WithChild<V>(t: Tree<V>, k: int, c: Tree<V>): Tree<V>
    requires t.Node?
  {
    if t.key < k then t.(right := c) else t.(left := c)
  }

  /** `up[0..top]` holds the nodes of the search path. */
  ghost predicate UpHolds<V>(up: seq<nat>, path: seq<Tree<V>>) {
    |path| <= |up| && forall i :: 0 <= i < |path| ==> path[i].Node? && up[i] == path[i].id
  }

  /** The tree whose path it is, with everything the search needs known about every subtree on the way. */
  ghost predicate Searchable<V>(d: seq<Slot<V>>, tn: nat, t: Tree<V>) {
    Rep(d, tn, t) && AA(t) && Sorted(Entries(t)) && NoDup(Slots(t))
  }

  /** Going on to a node on the way down. */
  lemma VisitMore<V>(d: seq<Slot<V>>, t: Tree<V>, k: int, path: seq<Tree<V>>, cur: Tree<V>, tx: nat, up: seq<nat>)
    requires Visited(d, t, k, path, cur) && UpHolds(up, path) && |path| < |up|
    requires tx != 0 && Searchable(d, tx, cur) && (HasKey(Entries(t), k) <==> HasKey(Entries(cur), k))
    ensures cur.Node? && tx < |d| && d[tx].key == cur.key && UpHolds(up[|path| := tx], path + [cur])
    ensures cur.key == k ==> HasKey(Entries(cur), k)
    ensures cur.key != k ==> Visited(d, t, k, path + [cur], Child(cur, k))
  {
    assert cur.Node? && cur.id == tx;
    KeyBelow(cur, k);
    hide Sorted, HasKey, Entries, NoDup, AA;
  }

  lemma StepDown<V>(d: seq<Slot<V>>, tn: nat, t: Tree<V>, k: int)
    requires t.Node? && Searchable(d, tn, t) && k != t.key
    ensures Searchable(d, if t.key < k then d[tn].link1 else d[tn].link0, Child(t, k))
    ensures HasKey(Entries(t), k) <==> HasKey(Entries(Child(t, k)), k)
    ensures Depth(Child(t, k)) < Depth(t)
    ensures t.id !in Slots(Child(t, k)) && forall i :: i in Slots(Child(t, k)) ==> i in Slots(t)
  {
    SubtreesSorted(t);
    KeyBelow(t, k);
    SlotsApart(t);
  }

  /** The way back up: hanging the grown child in its place. */
  lemma Rehang<V>(d: seq<Slot<V>>, d': seq<Slot<V>>, tn: nat, t: Tree<V>, k: int, r: nat, c: Tree<V>, id: nat)
    requires t.Node? && Rep(d, tn, t) && NoDup(Slots(t)) && |d| <= |d'| && id !in Slots(t)
    requires forall i :: 0 <= i < |d| && i in Slots(t) && i !in Slots(Child(t, k)) ==> d'[i] == d[i]
    requires Rep(d', r, c) && forall i :: i in Slots(c) ==> i in Slots(Child(t, k)) || i == id
    ensures 0 < tn < |d'|
    ensures Rep(d'[tn := if t.key < k then d'[tn].(link1 := r) else d'[tn].(link0 := r)], tn, WithChild(t, k, c))
  {
    if t.key < k {
      AttachRight(d, d', tn, t, r, c);
    } else {
      AttachLeft(d, d', tn, t, r, c);
    }
  }

  lemma InsertedSlots(s: seq<nat>, i: nat, x: nat)
    requires i <= |s| && NoDup(s) && x !in s
    ensures NoDup(InsertAt(s, i, x)) && forall y :: y in InsertAt(s, i, x) <==> y == x || y in s
  {
    var t := InsertAt(s, i, x);
    assert t[i] == x;
    assert forall j :: 0 <= j < i ==> t[j] == s[j];
    assert forall j :: i <= j < |s| ==> t[j + 1] == s[j];
  }

  lemma RemovedSlots(s: seq<nat>, i: nat)
    requires i < |s| && NoDup(s)
    ensures NoDup(RemoveAt(s, i)) && forall y :: y in RemoveAt(s, i) <==> y in s && y != s[i]
  {
    var t := RemoveAt(s, i);
    assert forall j :: 0 <= j < i ==> t[j] == s[j];
    assert forall j :: i < j < |s| ==> t[j - 1] == s[j];
  }

  /** The slots of a tree after an insertion, before and after the last rebalancing. */
  lemma GrownSlots<V>(t: Tree<V>, k: int, v: V, id: nat)
    requires Sorted(Entries(t)) && !HasKey(Entries(t), k) && NoDup(Slots(t)) && id !in Slots(t)
    ensures NoDup(Slots(Insert(t, k, v, id)))
    ensures forall i :: i in Slots(Insert(t, k, v, id)) <==> i == id || i in Slots(t)
    ensures t.Node? ==> Insert(t, k, v, id) == Rebalance(WithChild(t, k, Insert(Child(t, k), k, v, id)))
    ensures t.Node? ==> Slots(WithChild(t, k, Insert(Child(t, k), k, v, id))) == Slots(Insert(t, k, v, id))
  {
    InsertContent(t, k, v, id);
    InsertedSlots(Slots(t), Rank(t, k), id);
    if t.Node? {
      KeyBelow(t, k);
      var a := WithChild(t, k, Insert(Child(t, k), k, v, id));
      SkewContent(a);
      SplitContent(Skew(a));
    }
  }

  /** `_skew_` and `_split_` on the way up. */
  method RebalanceAt<V>(d: array<Slot<V>>, tn: nat, ghost a: Tree<V>) returns (r: nat)
    requires NullNode(d[..]) && Rep(d[..], tn, a) && NoDup(Slots(a)) && a.Node? && a.level > 0
    modifies d
    ensures Rep(d[..], r, Rebalance(a)) && Outside(old(d[..]), d[..], a) && NullNode(d[..])
  {
    r := SkewAt(d, tn, a);
    SkewContent(a);
    r := SplitAt(d, r, Skew(a));
  }

  /** The link by which a parent on the path reaches its child tells the direction. */
  lemma Direction<V>(d: seq<Slot<V>>, tn: nat, t: Tree<V>, k: int)
    requires t.Node? && Searchable(d, tn, t) && k != t.key && Child(t, k).Node?
    ensures 0 < tn < |d| && t.id in Slots(t) && ((d[tn].link1 == Child(t, k).id) <==> t.key < k)
  {
    SlotsApart(t);
    assert Rep(d, d[tn].link0, t.left) && Rep(d, d[tn].link1, t.right);
    assert Child(t, k).id in Slots(Child(t, k));
    assert t.right.Node? ==> t.right.id in Slots(t.right);
  }

  /** The state of the upward loop of `_insert_entry_i_` with `top` nodes of the path still to rebalance:
      the next one already carries the grown child, and nothing above it has changed. */
  ghost predicate Climbing<V>(d0: seq<Slot<V>>, d: seq<Slot<V>>, up: seq<nat>, path: seq<Tree<V>>, top: nat,
                              k: int, v: V, id: nat)
  {
    && 0 < top <= |path| && |d| == |d0| && NullNode(d) && UpHolds(up, path[..top])
    && Rep(d, up[top - 1], WithChild(path[top - 1], k, Insert(Child(path[top - 1], k), k, v, id)))
    && forall i :: 0 <= i < |d| && i != id && i !in Slots(path[top - 1]) ==> d[i] == d0[i]
  }

  /** What is fixed throughout: the path in the tree before the insertion. */
  ghost predicate PathOf<V>(d0: seq<Slot<V>>, t: Tree<V>, path: seq<Tree<V>>, k: int, id: nat) {
    && |path| > 0 && path[0] == t
    && (forall i :: 0 <= i < |path| ==> path[i].Node? && path[i].key != k && path[i].level > 0 && id !in Slots(path[i]))
    && (forall i :: 0 <= i < |path| ==> Searchable(d0, path[i].id, path[i]) && !HasKey(Entries(path[i]), k))
    && (forall i :: 0 < i < |path| ==> path[i] == Child(path[i - 1], k))
    && 0 < id < |d0|
  }

  /** One round of the upward loop. */
  method ClimbStep<V>(d: array<Slot<V>>, up: array<nat>, top: nat, ghost d0: seq<Slot<V>>, ghost t: Tree<V>,
                      ghost path: seq<Tree<V>>, ghost k: int, ghost v: V, ghost id: nat)
    requires PathOf(d0, t, path, k, id) && Climbing(d0, d[..], up[..], path, top, k, v, id)
    modifies d, up
    ensures top > 1 ==> Climbing(d0, d[..], up[..], path, top - 1, k, v, id)
    ensures top == 1 ==> up.Length > 0 && Rep(d[..], up[0], Insert(t, k, v, id)) && NullNode(d[..])
    ensures top == 1 ==> forall i :: 0 <= i < |d0| && i != id && i !in Slots(t) ==> d[i] == d0[i]
  {
    hide Sorted, HasKey, NoDup, AA, Insert, Entries, Slots, Rep;
    var j := top - 1;
    ghost var p := path[j];
    ghost var a := WithChild(p, k, Insert(Child(p, k), k, v, id));
    GrownSlots(p, k, v, id);
    var dir := false;
    if j != 0 {
      Direction(d0, up[j - 1], path[j - 1], k);
      StepDown(d0, up[j - 1], path[j - 1], k);
      assert path[..top][j - 1] == path[j - 1] && path[..top][j] == path[j];
      dir := d[up[j - 1]].link1 == up[j];
    }
    var r := RebalanceAt(d, up[j], a);
    up[j] := r;
    if j != 0 {
      Rehang(d0, d[..], up[j - 1], path[j - 1], k, r, Insert(p, k, v, id), id);
      ghost var d1 := d[..];
      if dir {
        d[up[j - 1]] := d[up[j - 1]].(link1 := r);
      } else {
        d[up[j - 1]] := d[up[j - 1]].(link0 := r);
      }
      assert d[..] ==
        d1[up[j - 1] := if path[j - 1].key < k then d1[up[j - 1]].(link1 := r) else d1[up[j - 1]].(link0 := r)];
    }
  }

  // ---------------------------------------------------------------- sorted sequences as maps

  ghost function MapOf<V>(s: seq<Entry<V>>): map<int, V>
    requires Sorted(s)
  {
    map i | 0 <= i < |s| :: s[i].key := s[i].val
  }

  lemma KeysOf<V>(s: seq<Entry<V>>, k: int)
    requires Sorted(s)
    ensures k in MapOf(s) <==> HasKey(s, k)
  {
  }

  /** An entry the sequence holds is an entry of the map, and the other way round. */
  lemma MapItem<V>(s: seq<Entry<V>>, e: Entry<V>)
    requires Sorted(s)
    ensures e in s <==> e.key in MapOf(s) && MapOf(s)[e.key] == e.val
  {
    if e.key in MapOf(s) {
      var i :| 0 <= i < |s| && s[i].key == e.key;
      assert MapOf(s)[s[i].key] == s[i].val;
    }
  }

  lemma MapsEqual<V>(s: seq<Entry<V>>, m: map<int, V>)
    requires Sorted(s) && forall k, v :: Entry(k, v) in s <==> k in m && m[k] == v
    ensures MapOf(s) == m
  {
    forall k | k in m
      ensures k in MapOf(s) && MapOf(s)[k] == m[k]
    {
      assert Entry(k, m[k]) in s;
      MapItem(s, Entry(k, m[k]));
    }
    forall k | k in MapOf(s)
      ensures k in m
    {
      MapItem(s, Entry(k, MapOf(s)[k]));
    }
  }

  lemma SortedInsert<V>(s: seq<Entry<V>>, i: nat, e: Entry<V>)
    requires Sorted(s) && i <= |s|
    requires forall j :: 0 <= j < i ==> s[j].key < e.key
    requires forall j :: i <= j < |s| ==> s[j].key > e.key
    ensures Sorted(InsertAt(s, i, e))
    ensures forall x :: x in InsertAt(s, i, e) <==> x == e || x in s
    ensures forall x :: x in s ==> x.key != e.key
  {
    var t := InsertAt(s, i, e);
    MembersInsert(s, i, e);
    forall a, b | 0 <= a < b < |t|
      ensures t[a].key < t[b].key
    {
      assert t[a] == if a < i then s[a] else if a == i then e else s[a - 1];
      assert t[b] == if b < i then s[b] else if b == i then e else s[b - 1];
    }
  }

  lemma MembersInsert<T>(s: seq<T>, i: nat, e: T)
    requires i <= |s|
    ensures forall x :: x in InsertAt(s, i, e) <==> x == e || x in s
  {
    assert s == s[..i] + s[i..];
  }

  lemma SortedRemove<V>(s: seq<Entry<V>>, i: nat)
    requires Sorted(s) && i < |s|
    ensures Sorted(RemoveAt(s, i))
    ensures forall x :: x in RemoveAt(s, i) <==> x in s && x.key != s[i].key
  {
    var t := RemoveAt(s, i);
    assert forall j :: i <= j < |t| ==> t[j] == s[j + 1];
    assert s == s[..i] + [s[i]] + s[i + 1..];
  }

  lemma MapInsert<V>(s: seq<Entry<V>>, i: nat, e: Entry<V>)
    requires Sorted(s) && i <= |s|
    requires forall j :: 0 <= j < i ==> s[j].key < e.key
    requires forall j :: i <= j < |s| ==> s[j].key > e.key
    ensures Sorted(InsertAt(s, i, e)) && MapOf(InsertAt(s, i, e)) == MapOf(s)[e.key := e.val]
  {
    SortedInsert(s, i, e);
    hide Sorted, InsertAt;
    var t := InsertAt(s, i, e);
    forall k, v
      ensures Entry(k, v) in t <==> k in MapOf(s)[e.key := e.val] && MapOf(s)[e.key := e.val][k] == v
    {
      MapItem(s, Entry(k, v));
    }
    MapsEqual(t, MapOf(s)[e.key := e.val]);
  }

  lemma MapRemove<V>(s: seq<Entry<V>>, i: nat)
    requires Sorted(s) && i < |s|
    ensures Sorted(RemoveAt(s, i)) && MapOf(RemoveAt(s, i)) == MapOf(s) - {s[i].key}
  {
    SortedRemove(s, i);
    hide Sorted, RemoveAt;
    var t := RemoveAt(s, i);
    forall k, v
      ensures Entry(k, v) in t <==> k in MapOf(s) - {s[i].key} && (MapOf(s) - {s[i].key})[k] == v
    {
      MapItem(s, Entry(k, v));
    }
    MapsEqual(t, MapOf(s) - {s[i].key});
  }

  // ---------------------------------------------------------------- the container

  const INT32_MAX := 0x7fff_ffff

  /** The disposal list that starts at `disp`, linked through `link1`. */
  ghost predicate FreeList<V>(d: seq<Slot<V>>, disp: nat, free: seq<nat>)
    decreases |free|
  {
    if free == [] then disp == 0
    else disp == free[0] && 0 < disp < |d| && FreeList(d, d[disp].link1, free[1..])
  }

  /** Tree and disposal list share out the slots 1..head between them. */
  ghost predicate Partition(used: seq<nat>, free: seq<nat>, head: nat) {
    && NoDup(used) && NoDup(free)
    && (forall i :: i in used ==> i !in free)
    && (forall i :: 1 <= i <= head <==> i in used || i in free)
  }

  /** The disposal list depends on its own slots only. */
  lemma {:induction false} FreeListFrame<V>(d: seq<Slot<V>>, d': seq<Slot<V>>, disp: nat, free: seq<nat>)
    requires FreeList(d, disp, free) && |d| <= |d'| && forall i :: 0 <= i < |d| && i in free ==> d'[i] == d[i]
    ensures FreeList(d', disp, free)
    decreases |free|
  {
    if free != [] {
      FreeListFrame(d, d', d[disp].link1, free[1..]);
    }
  }

  lemma AddSlot(s: seq<nat>, x: nat)
    requires NoDup(s) && x !in s
    ensures NoDup([x] + s) && forall i :: i in [x] + s <==> i == x || i in s
  {
  }

  lemma DropSlot(s: seq<nat>)
    requires NoDup(s) && s != []
    ensures NoDup(s[1..]) && s[0] in s && forall i :: i in s[1..] <==> i in s && i != s[0]
  {
    assert s == [s[0]] + s[1..];
    assert forall i :: 0 <= i < |s| - 1 ==> s[1..][i] == s[i + 1];
  }

  /** Taking the first slot off the disposal list. */
  lemma PopFree<V>(d: seq<Slot<V>>, disp: nat, used: seq<nat>, free: seq<nat>, head: nat, x: Slot<V>)
    requires FreeList(d, disp, free) && Partition(used, free, head) && disp != 0
    ensures free != [] && 0 < disp < |d| && disp !in used && FreeList(d[disp := x], d[disp].link1, free[1..])
    ensures Partition([disp] + used, free[1..], head)
  {
    hide NoDup;
    DropSlot(free);
    AddSlot(used, disp);
    FreeListFrame(d, d[disp := x], d[disp].link1, free[1..]);
  }

  /** Starting on the next unused slot. */
  lemma TakeHead<V>(d: seq<Slot<V>>, disp: nat, used: seq<nat>, free: seq<nat>, head: nat, x: Slot<V>)
    requires FreeList(d, disp, free) && Partition(used, free, head) && head + 1 < |d|
    ensures head + 1 !in used && FreeList(d[head + 1 := x], disp, free)
    ensures Partition([head + 1] + used, free, head + 1)
  {
    hide NoDup;
    assert 1 <= head + 1 <= head <==> head + 1 in used || head + 1 in free;
    AddSlot(used, head + 1);
    FreeListFrame(d, d[head + 1 := x], disp, free);
  }

  /** Work on used slots leaves the disposal list alone. */
  lemma FreeFrame<V>(d: seq<Slot<V>>, d': seq<Slot<V>>, disp: nat, used: seq<nat>, free: seq<nat>, head: nat)
    requires FreeList(d, disp, free) && Partition(used, free, head) && |d'| == |d|
    requires forall i :: 0 <= i < |d| && i !in used ==> d'[i] == d[i]
    ensures FreeList(d', disp, free)
  {
    FreeListFrame(d, d', disp, free);
  }

  /** Disposing of a slot that was in use. */
  lemma PushFree<V>(d: seq<Slot<V>>, disp: nat, used: seq<nat>, free: seq<nat>, head: nat, i: nat)
    requires Partition(used, free, head) && i < |used| && 0 < used[i] < |d|
    requires FreeList(d, disp, free) && d[used[i]].link1 == disp
    ensures FreeList(d, used[i], [used[i]] + free) && Partition(RemoveAt(used, i), [used[i]] + free, head)
  {
    hide NoDup, RemoveAt;
    assert used[i] in used;
    RemovedSlots(used, i);
    AddSlot(free, used[i]);
    assert ([used[i]] + free)[1..] == free;
  }

  class SMap<V(0)> {
    var nodes: array<Slot<V>>
    var root: nat
    var disp: nat
    var head: nat
    var size: nat
    var capacity: nat
    ghost var tree: Tree<V>
    ghost var free: seq<nat>

    /** The buffer, with its null node, and the bookkeeping of slots. */
    ghost predicate Buffer()
      reads this, nodes
    {
      && nodes.Length == capacity + 1 && NullNode(nodes[..]) && head <= capacity <= INT32_MAX
      && FreeList(nodes[..], disp, free)
    }

    ghost predicate Valid()
      reads this, nodes
    {
      && Buffer() && Searchable(nodes[..], root, tree)
      && Partition(Slots(tree), free, head) && size == |Slots(tree)|
    }

    ghost function Contents(): map<int, V>
      reads this, nodes
      requires Valid()
    {
      MapOf(Entries(tree))
    }

    /** An empty map. The C code starts without a buffer; here the null node is there from the start. */
    constructor ()
      ensures Valid() && Contents() == map[] && fresh(nodes)
    {
      nodes := new Slot<V>[1];
      root, disp, head, size, capacity := 0, 0, 0, 0, 0;
      tree, free := Nil, [];
      new;
      nodes[0] := nodes[0].(link0 := 0, link1 := 0, level := 0);
    }

    /** `_reserve`: a larger buffer with the same slots. */
    method Reserve(cap: nat)
      requires Buffer() && cap <= INT32_MAX
      modifies this`nodes, this`capacity, nodes
      ensures Buffer() && capacity == if cap <= old(capacity) then old(capacity) else cap
      ensures |old(nodes[..])| <= |nodes[..]| && nodes[..|old(nodes[..])|] == old(nodes[..])
      ensures nodes == old(nodes) || fresh(nodes)
    {
      if cap <= capacity {
        return;
      }
      ghost var before := nodes[..];
      var grown := new Slot<V>[cap + 1];
      forall i | 0 <= i < nodes.Length {
        grown[i] := nodes[i];
      }
      assert grown[..|before|] == before;
      assert forall i :: 0 <= i < |before| ==> grown[..][i] == before[i];
      FreeListFrame(before, grown[..], disp, free);
      nodes, capacity := grown, cap;
    }

    /** If there is no free slot, the size of the larger buffer can be computed in 32 bits. */
    predicate CanGrow()
      reads this
    {
      disp == 0 && head == capacity ==> head * 3 <= INT32_MAX
    }

    /** `_new_node_`: a slot from the disposal list, or the next unused one. */
    method NewNode(level: nat, key: int, val: V) returns (tn: nat)
      requires Buffer() && Partition(Slots(tree), free, head) && CanGrow()
      modifies this`nodes, this`capacity, this`disp, this`head, this`free, nodes
      ensures Buffer() && 0 < tn < nodes.Length && tn !in Slots(tree)
      ensures Partition([tn] + Slots(tree), free, head)
      ensures if old(disp) != 0 then tn == old(disp) && head == old(head) else tn == head == old(head) + 1
      ensures capacity ==
        if old(disp) == 0 && old(head) == old(capacity) then old(head) * 3 / 2 + 4 else old(capacity)
      ensures |old(nodes[..])| <= |nodes[..]| && nodes[tn] == Slot(0, 0, level, key, val)
      ensures forall i :: 0 <= i < |old(nodes[..])| && i != tn ==> nodes[i] == old(nodes[..])[i]
      ensures nodes == old(nodes) || fresh(nodes)
    {
      hide Partition, FreeList;
      ghost var before := nodes[..];
      if disp != 0 {
        tn := disp;
        PopFree(nodes[..], disp, Slots(tree), free, head, Slot(0, 0, level, key, val));
        disp := nodes[tn].link1;
        free := free[1..];
      } else {
        if head == capacity {
          Reserve(head * 3 / 2 + 4);
        }
        TakeHead(nodes[..], disp, Slots(tree), free, head, Slot(0, 0, level, key, val));
        head := head + 1;
        tn := head;
      }
      assert before == nodes[..|before|];
      ghost var d := nodes[..];
      nodes[tn] := Slot(0, 0, level, key, val);
      assert nodes[..] == d[tn := Slot(0, 0, level, key, val)];
    }

    /** `_insert`: an existing key keeps its value. (The value is stored when the slot is taken rather than
        after the rebalancing, which reads no values.) */
    method InsertKey(key: int, val: V) returns (inserted: bool)
      requires Valid() && (key in Contents() || CanGrow())
      modifies this, nodes
      ensures Valid() && inserted == (key !in old(Contents()))
      ensures Contents() == if inserted then old(Contents())[key := val] else old(Contents())
      ensures nodes == old(nodes) || fresh(nodes)
    {
      hide Partition, FreeList, MapOf, Sorted, NoDup;
      var up := new nat[64];
      var top, dir;
      ghost var path;
      KeysOf(Entries(tree), key);
      inserted, top, dir, path := SearchDown(key, up);
      if inserted {
        InsertMissing(key, val, up, top, dir, path);
      }
    }

    /** The rest of `_insert_entry_i_` for a key that is not there. */
    method InsertMissing(key: int, val: V, up: array<nat>, top: nat, dir: bool, ghost path: seq<Tree<V>>)
      requires Valid() && !HasKey(Entries(tree), key) && CanGrow()
      requires top == |path| && Visited(nodes[..], tree, key, path, Nil) && UpHolds(up[..], path)
      requires top > 0 ==> (dir <==> path[top - 1].key < key)
      modifies this, nodes, up
      ensures Valid() && Contents() == old(Contents())[key := val]
      ensures nodes == old(nodes) || fresh(nodes)
    {
      hide Partition, FreeList, MapOf, Sorted, NoDup, HasKey;
      ghost var before := nodes[..];
      var tx := NewNode(1, key, val);
      PathFrame(before, nodes[..], root, tree, path, key, tx);
      ghost var d0 := nodes[..];
      LinkLeaf(up, top, dir, tx, path, key, val);
      FreeFrame(d0, nodes[..], disp, [tx] + Slots(tree), free, head);
      AdoptGrown(key, val, tx);
    }

    /** The new leaf becomes the root or is linked to the last node of the path. */
    method LinkLeaf(up: array<nat>, top: nat, dir: bool, tx: nat, ghost path: seq<Tree<V>>, ghost key: int,
      ghost val: V)
      requires NullNode(nodes[..]) && 0 < tx < nodes.Length && nodes[tx] == Slot(0, 0, 1, key, val)
      requires top == |path| && (top == 0 ==> tree == Nil)
      requires top > 0 ==> path[0] == tree && PathOf(nodes[..], tree, path, key, tx) && UpHolds(up[..], path)
      requires top > 0 ==> Child(path[top - 1], key) == Nil && (dir <==> path[top - 1].key < key)
      modifies this`root, nodes, up
      ensures Rep(nodes[..], root, Insert(tree, key, val, tx)) && NullNode(nodes[..])
      ensures forall i :: 0 <= i < nodes.Length && i != tx && i !in Slots(tree) ==> nodes[i] == old(nodes[i])
    {
      if top == 0 {
        root := tx;
      } else {
        hide PathOf, UpHolds, Rep, Insert;
        LinkAndClimb(up, top, dir, tx, path, key, val);
        root := up[0];
      }
    }

    /** Book-keeping after the links are in place. */
    method AdoptGrown(key: int, val: V, ghost tx: nat)
      requires Buffer() && Rep(nodes[..], root, Insert(tree, key, val, tx))
      requires AA(tree) && Sorted(Entries(tree)) && !HasKey(Entries(tree), key) && NoDup(Slots(tree)) &&
        tx !in Slots(tree)
      requires Partition([tx] + Slots(tree), free, head) && size == |Slots(tree)|
      modifies this`tree, this`size
      ensures Valid() && Contents() == MapOf(old(Entries(tree)))[key := val]
    {
      InsertedTree(tree, key, val, tx, free, head);
      InsertKeeps(tree, key, val, tx);
      hide Partition, FreeList, MapOf, Sorted, NoDup, Insert, AA, Rep;
      tree := Insert(tree, key, val, tx);
      size := size + 1;
    }

    /** The first loop of `_insert_entry_i_`. */
    method SearchDown(key: int, up: array<nat>) returns (missing: bool, top: nat, dir: bool, ghost path: seq<Tree<V>>)
      requires Valid() && up.Length == 64
      modifies up
      ensures missing <==> !HasKey(Entries(tree), key)
      ensures missing ==> top == |path| && Visited(nodes[..], tree, key, path, Nil) && UpHolds(up[..], path)
      ensures missing && top > 0 ==> (dir <==> path[top - 1].key < key)
    {
      FewSlots(Slots(tree), free, head);
      StacksFit(tree);
      hide Partition, FreeList, Sorted, NoDup, HasKey, Entries, Rep, AA, Visited, UpHolds, Searchable;
      var tx: nat := root;
      ghost var cur := tree;
      top, dir, path := 0, false, [];
      while tx != 0
        invariant top == |path| && Visited(nodes[..], tree, key, path, cur) && UpHolds(up[..], path)
        invariant Searchable(nodes[..], tx, cur) && top + Depth(cur) <= 62
        invariant HasKey(Entries(tree), key) <==> HasKey(Entries(cur), key)
        invariant top > 0 ==> (dir <==> path[top - 1].key < key)
        decreases Depth(cur)
      {
        ghost var u: seq<nat> := up[..];
        up[top] := tx;
        assert up[..] == u[top := tx];
        top := top + 1;
        VisitMore(nodes[..], tree, key, path, cur, tx, u);
        if nodes[tx].key == key {
          missing := false;
          return;
        }
        StepDown(nodes[..], tx, cur, key);
        path := path + [cur];
        dir := nodes[tx].key < key;
        tx := if dir then nodes[tx].link1 else nodes[tx].link0;
        cur := Child(cur, key);
      }
      missing := true;
      NilHasNoKey(cur, key);
    }

    /** Linking the new leaf, then the second loop of `_insert_entry_i_`. */
    method LinkAndClimb(up: array<nat>, top0: nat, dir: bool, tx: nat, ghost path: seq<Tree<V>>, ghost key: int,
      ghost val: V)
      requires 0 < top0 == |path| && path[0] == tree && nodes.Length > 0
      requires PathOf(nodes[..], tree, path, key, tx) && UpHolds(up[..], path) && Child(path[top0 - 1], key) == Nil
      requires NullNode(nodes[..]) && nodes[tx] == Slot(0, 0, 1, key, val) && (dir <==> path[top0 - 1].key < key)
      modifies nodes, up
      ensures up.Length > 0 && Rep(nodes[..], up[0], Insert(tree, key, val, tx)) && NullNode(nodes[..])
      ensures forall i :: 0 <= i < nodes.Length && i != tx && i !in Slots(tree) ==> nodes[i] == old(nodes[i])
    {
      ghost var d0 := nodes[..];
      ghost var leaf := Insert(Nil, key, val, tx);
      assert Rep(d0, tx, leaf);
      Rehang(d0, d0, up[top0 - 1], path[top0 - 1], key, tx, leaf, tx);
      if dir {
        nodes[up[top0 - 1]] := nodes[up[top0 - 1]].(link1 := tx);
      } else {
        nodes[up[top0 - 1]] := nodes[up[top0 - 1]].(link0 := tx);
      }
      ghost var last := up[top0 - 1];
      assert nodes[..]
        == d0[last := if path[top0 - 1].key < key then d0[last].(link1 := tx) else d0[last].(link0 := tx)];
      assert path[..top0] == path;
      var top := top0;
      while top > 1
        invariant 0 < top <= top0 && Climbing(d0, nodes[..], up[..], path, top, key, val, tx)
      {
        ClimbStep(nodes, up, top, d0, tree, path, key, val, tx);
        top := top - 1;
      }
      ClimbStep(nodes, up, top, d0, tree, path, key, val, tx);
    }
    /** The predecessor search of `_erase_r_`: right links from the left child. */
    method FindMax(tn: nat, ghost t: Tree<V>) returns (tx: nat)
      requires NullNode(nodes[..]) && Rep(nodes[..], tn, t) && t.Node?
      ensures 0 < tx < nodes.Length && nodes[tx].key == Max(t).key && nodes[tx].val == Max(t).val
    {
      tx := tn;
      ghost var cur := t;
      while nodes[tx].link1 != 0
        invariant cur.Node? && Rep(nodes[..], tx, cur) && Max(cur) == Max(t)
        decreases cur
      {
        tx := nodes[tx].link1;
        cur := cur.right;
      }
    }

    /** What `_erase_r_` promises for the subtree `t` at `tn`. */
    twostate predicate ErasedFrom(tn: nat, t: Tree<V>, k: int, new r: nat, new erased: bool)
      reads this, nodes
    {
      && nodes == old(nodes) && NullNode(nodes[..]) && Outside(old(nodes[..]), nodes[..], t)
      && Rep(nodes[..], r, Erase(t, k)) && (erased <==> HasKey(Entries(t), k))
      && (!erased ==> disp == old(disp))
      && (erased ==>
        FreedRank(t, k) < |Slots(t)| && disp == Slots(t)[FreedRank(t, k)] && disp < nodes.Length &&
        nodes[disp].link1 == old(disp))
    }

    /** `_erase_r_`. */
    method EraseR(tn: nat, k: int, ghost t: Tree<V>) returns (r: nat, erased: bool)
      requires NullNode(nodes[..]) && Searchable(nodes[..], tn, t)
      modifies this`disp, nodes
      ensures ErasedFrom(tn, t, k, r, erased)
      decreases t, 2
    {
      if tn == 0 {
        return 0, false;
      }
      RepLinks(nodes[..], tn, t);
      if k != nodes[tn].key {
        r, erased := EraseBelow(tn, k, t);
      } else if nodes[tn].link0 != 0 && nodes[tn].link1 != 0 {
        r := EraseInner(tn, t);
        erased := true;
      } else {
        r := Unlink(tn, t);
        erased := true;
      }
    }

    /** The key is in a subtree, if anywhere. */
    method EraseBelow(tn: nat, k: int, ghost t: Tree<V>) returns (r: nat, erased: bool)
      requires NullNode(nodes[..]) && Searchable(nodes[..], tn, t) && t.Node? && k != t.key
      modifies this`disp, nodes
      ensures ErasedFrom(tn, t, k, r, erased)
      decreases t, 1
    {
      hide Sorted, HasKey, NoDup, AA, Fix, Sunk, Erase, Entries, Slots, FreedRank;
      StepDown(nodes[..], tn, t, k);
      EraseSide(t, k);
      erased := EraseChild(tn, k, t);
      r := FixAt(nodes, tn, WithChild(t, k, Erase(Child(t, k), k)));
    }

    /** `d[tn].link[c < 0] = _erase_r_(self, d[tn].link[c < 0], rkey, erased)`. */
    method EraseChild(tn: nat, k: int, ghost t: Tree<V>) returns (erased: bool)
      requires NullNode(nodes[..]) && Rep(nodes[..], tn, t) && NoDup(Slots(t)) && t.Node?
      requires AA(Child(t, k)) && Sorted(Entries(Child(t, k)))
      modifies this`disp, nodes
      ensures NullNode(nodes[..]) && Outside(old(nodes[..]), nodes[..], t)
      ensures Rep(nodes[..], tn, WithChild(t, k, Erase(Child(t, k), k)))
      ensures erased <==> HasKey(Entries(Child(t, k)), k)
      ensures !erased ==> disp == old(disp)
      ensures erased ==>
        FreedRank(Child(t, k), k) < |Slots(Child(t, k))| && disp == Slots(Child(t, k))[FreedRank(Child(t, k), k)]
      ensures erased ==> disp < nodes.Length && nodes[disp].link1 == old(disp)
      decreases Child(t, k), 3
    {
      hide Sorted, HasKey, NoDup, AA, Erase, Entries, FreedRank;
      ghost var d0 := nodes[..];
      SlotsApart(t);
      RepNull(d0, tn, t);
      RepLinks(d0, tn, t);
      ghost var c := Child(t, k);
      EraseSlots(c, k);
      var dir := nodes[tn].key < k;
      var down;
      down, erased := EraseR(nodes[tn].Link(dir), k, c);
      Rehang(d0, nodes[..], tn, t, k, down, Erase(c, k), 0);
      ghost var d1 := nodes[..];
      nodes[tn] := if dir then nodes[tn].(link1 := down) else nodes[tn].(link0 := down);
      assert nodes[..] == d1[tn := if t.key < k then d1[tn].(link1 := down) else d1[tn].(link0 := down)];
      assert erased ==> disp in Slots(c);
    }

    /** The node of the key has two children: its predecessor moves up and is erased below. */
    method EraseInner(tn: nat, ghost t: Tree<V>) returns (r: nat)
      requires NullNode(nodes[..]) && Searchable(nodes[..], tn, t) && t.Node? && t.left.Node? && t.right.Node?
      modifies this`disp, nodes
      ensures ErasedFrom(tn, t, t.key, r, true)
      decreases t, 1
    {
      hide Sorted, HasKey, NoDup, AA, Fix, Sunk;
      EraseInnerShape(t);
      SubtreesSorted(t);
      SkewIdle(t);
      ghost var m := Max(t.left);
      ghost var t1 := t.(key := m.key, val := m.val);
      TakeValue(tn, t);
      SlotsApart(t);
      RepNull(nodes[..], tn, t1);
      RepLinks(nodes[..], tn, t1);
      var erased := EraseChild(tn, nodes[tn].key, t1);
      r := FixAt(nodes, tn, t1.(left := Erase(t.left, m.key)));
    }

    /** `d[tn].value = d[tx].value` for the predecessor `tx`. */
    method TakeValue(tn: nat, ghost t: Tree<V>)
      requires NullNode(nodes[..]) && Rep(nodes[..], tn, t) && NoDup(Slots(t)) && t.Node? && t.left.Node?
      modifies nodes
      ensures NullNode(nodes[..]) && Rep(nodes[..], tn, t.(key := Max(t.left).key, val := Max(t.left).val))
      ensures Outside(old(nodes[..]), nodes[..], t)
    {
      ghost var d0 := nodes[..];
      RepLinks(d0, tn, t);
      var tx := FindMax(nodes[tn].link0, t.left);
      nodes[tn] := nodes[tn].(key := nodes[tx].key, val := nodes[tx].val);
      assert nodes[..] == d0[tn := d0[tn].(level := t.level, key := Max(t.left).key, val := Max(t.left).val)];
      Relabel(d0, tn, t, t.level, Max(t.left).key, Max(t.left).val);
    }

    /** The node of the key has at most one child: it is unlinked and put on the disposal list. */
    method Unlink(tn: nat, ghost t: Tree<V>) returns (r: nat)
      requires NullNode(nodes[..]) && Searchable(nodes[..], tn, t) && t.Node? && (t.left.Nil? || t.right.Nil?)
      modifies this`disp, nodes
      ensures ErasedFrom(tn, t, t.key, r, true)
    {
      ghost var d0 := nodes[..];
      ghost var rest := if t.left.Nil? then t.right else t.left;
      KeyBelow(t, t.key);
      SlotsApart(t);
      RepNull(d0, tn, t);
      RepLinks(d0, tn, t);
      r := nodes[tn].Link(nodes[tn].link0 == 0);
      nodes[tn] := nodes[tn].(link1 := disp);
      disp := tn;
      RepFrame(d0, nodes[..], r, rest);
      SkewIdle(rest);
      r := FixAt(nodes, r, rest);
    }
    /** `_erase`: 1 if the key was there. */
    method EraseKey(key: int) returns (n: nat)
      requires Valid()
      modifies this, nodes
      ensures Valid() && n == (if key in old(Contents()) then 1 else 0)
      ensures Contents() == old(Contents()) - {key} && nodes == old(nodes)
    {
      hide Partition, FreeList, MapOf, Sorted, NoDup, HasKey;
      ghost var d0 := nodes[..];
      RepNull(d0, root, tree);
      KeysOf(Entries(tree), key);
      var r, erased := EraseR(root, key, tree);
      if !erased {
        EraseMissing(tree, key);
        FreeFrame(d0, nodes[..], disp, Slots(tree), free, head);
        assert Rep(nodes[..], root, tree);
        return 0;
      }
      n := 1;
      root := r;
      assert disp in Slots(tree);
      AdoptErased(key, d0, old(disp));
    }

    /** Book-keeping after an erase. */
    method AdoptErased(key: int, ghost d0: seq<Slot<V>>, ghost disp0: nat)
      requires nodes.Length == capacity + 1 && NullNode(nodes[..]) && head <= capacity <= INT32_MAX
      requires Rep(nodes[..], root, Erase(tree, key)) && size == |Slots(tree)|
      requires AA(tree) && Sorted(Entries(tree)) && HasKey(Entries(tree), key) && NoDup(Slots(tree))
      requires Partition(Slots(tree), free, head) && Outside(d0, nodes[..], tree) && FreeList(d0, disp0, free)
      requires FreedRank(tree, key) < |Slots(tree)| && disp == Slots(tree)[FreedRank(tree, key)] &&
        0 < disp < nodes.Length
      requires nodes[disp].link1 == disp0
      modifies this`tree, this`size, this`free
      ensures Valid() && Contents() == MapOf(old(Entries(tree))) - {key}
    {
      hide Partition, FreeList, MapOf, Sorted, NoDup, HasKey, RemoveAt, Erase, AA, Rep, Entries, Slots, FreedRank;
      ErasedTree(tree, key);
      EraseKeeps(tree, key);
      FreeFrame(d0, nodes[..], disp0, Slots(tree), free, head);
      PushFree(nodes[..], disp0, Slots(tree), free, head, FreedRank(tree, key));
      free := [disp] + free;
      tree := Erase(tree, key);
      size := size - 1;
    }

    /** A `c_foreach` loop: `_begin`, then `_next` until the reference is NULL. */
    method Traverse() returns (out: seq<Entry<V>>)
      requires Valid()
      ensures out == Entries(tree)
      ensures forall i, j :: 0 <= i < j < |out| ==> out[i].key < out[j].key
      ensures forall k, v :: Entry(k, v) in out <==> k in Contents() && Contents()[k] == v
    {
      hide Partition, FreeList, NoDup, MapOf, AA, Rep;
      FewSlots(Slots(tree), free, head);
      StacksFit(tree);
      var it := new Iter(root);
      ghost var stk: seq<Tree<V>>, cur := [], tree;
      out := [];
      assert Rest(stk, cur) == Entries(tree);
      if it.tn != 0 {
        stk, cur := it.Next(nodes, stk, cur);
      } else {
        NoEntries(nodes[..], root, tree);
      }
      while it.ref != 0
        invariant fresh(it) && fresh(it.st) && it.Holds(nodes[..], stk, cur)
        invariant it.ref == 0 ==> out == Entries(tree)
        invariant it.ref != 0 ==> it.ref < nodes.Length
        invariant it.ref != 0 ==> out + [Entry(nodes[it.ref].key, nodes[it.ref].val)] + Rest(stk, cur) == Entries(tree)
        decreases it.ref != 0, |Rest(stk, cur)|
      {
        out := out + [Entry(nodes[it.ref].key, nodes[it.ref].val)];
        stk, cur := it.Next(nodes, stk, cur);
      }
      forall k, v
        ensures Entry(k, v) in out <==> k in Contents() && Contents()[k] == v
      {
        MapItem(out, Entry(k, v));
      }
    }

    /** `_lower_bound`: an iterator at the first key that is at least `key`; `_find_it` is its first half.
        Iterating from there yields exactly the entries from the rank of `key` on. */
    method LowerBound(key: int) returns (it: Iter, exact: bool, ghost stk: seq<Tree<V>>, ghost cur: Tree<V>)
      requires Valid()
      ensures fresh(it) && (exact <==> HasKey(Entries(tree), key))
      ensures it.ref == 0 <==> Rank(tree, key) == |Entries(tree)|
      ensures it.ref != 0 ==>
        && it.Holds(nodes[..], stk, cur) && it.ref < nodes.Length && Rank(tree, key) < |Entries(tree)|
        && [Entry(nodes[it.ref].key, nodes[it.ref].val)] + Rest(stk, cur) == Entries(tree)[Rank(tree, key)..]
      ensures exact ==> it.ref != 0 && nodes[it.ref].key == key
    {
      hide Partition, FreeList, NoDup, AA, Rep, Sorted, HasKey;
      FewSlots(Slots(tree), free, head);
      StacksFit(tree);
      it := new Iter(root);
      exact, stk, cur := it.FindIt(nodes, key, tree);
      if it.ref == 0 && it.top != 0 {
        cur := it.PopTop(nodes, stk);
        stk := stk[..|stk| - 1];
      }
    }
  }

  // ---------------------------------------------------------------- iteration

  /** What an iterator with the nodes `stk` stacked and the subtree `cur` pending has still to deliver. */
  ghost function Rest<V>(stk: seq<Tree<V>>, cur: Tree<V>): seq<Entry<V>> {
    Entries(cur) + Stacked(stk)
  }

  ghost function Stacked<V>(stk: seq<Tree<V>>): seq<Entry<V>> {
    if stk == [] then []
    else
      var t := stk[|stk| - 1];
      (if t.Node? then [Entry(t.key, t.val)] + Entries(t.right) else []) + Stacked(stk[..|stk| - 1])
  }

  /** The stacked nodes, where the descent went left: at most one per level, so 36 places are enough. */
  ghost predicate StackOk<V>(d: seq<Slot<V>>, st: seq<nat>, stk: seq<Tree<V>>) {
    && |st| == 36 && |stk| <= 36
    && forall i :: 0 <= i < |stk| ==>
      stk[i].Node? && st[i] == stk[i].id && Rep(d, st[i], stk[i]) && AA(stk[i]) && i + Level(stk[i]) <= 31
  }

  ghost predicate PendingOk<V>(d: seq<Slot<V>>, tn: nat, cur: Tree<V>, depth: nat) {
    Rep(d, tn, cur) && AA(cur) && depth + Level(cur) <= 31
  }

  lemma Push<V>(d: seq<Slot<V>>, st: seq<nat>, stk: seq<Tree<V>>, tn: nat, cur: Tree<V>)
    requires StackOk(d, st, stk) && PendingOk(d, tn, cur, |stk|) && cur.Node?
    ensures |stk| < 31 && 0 < tn < |d|
    ensures StackOk(d, st[|stk| := tn], stk + [cur]) && PendingOk(d, d[tn].link0, cur.left, |stk| + 1)
    ensures Rest(stk + [cur], cur.left) == Rest(stk, cur)
  {
    RepLinks(d, tn, cur);
    SkewIdle(cur);
    assert (stk + [cur])[..|stk|] == stk;
  }

  lemma Pop<V>(d: seq<Slot<V>>, st: seq<nat>, stk: seq<Tree<V>>)
    requires StackOk(d, st, stk) && stk != []
    ensures var n := |stk| - 1; var t := stk[n];
      && t.Node? && 0 < st[n] < |d| && StackOk(d, st, stk[..n]) && PendingOk(d, d[st[n]].link1, t.right, n)
      && [Entry(d[st[n]].key, d[st[n]].val)] + Rest(stk[..n], t.right) == Stacked(stk)
  {
    hide AA, Stacked, Rest;
    var n := |stk| - 1;
    RepLinks(d, st[n], stk[n]);
    SkewIdle(stk[n]);
    PopRest(stk);
  }

  lemma PopRest<V>(stk: seq<Tree<V>>)
    requires stk != [] && stk[|stk| - 1].Node?
    ensures var n := |stk| - 1; var t := stk[n];
      [Entry(t.key, t.val)] + Rest(stk[..n], t.right) == Stacked(stk)
  {
  }

  /** One step of the search: what is left of `all` to the right of the searched subtree, and the rank so far. */
  lemma FindStep<V>(all: seq<Entry<V>>, c: nat, stk: seq<Tree<V>>, t: Tree<V>, k: int)
    requires t.Node? && c <= |all| && all[c..] == Rest(stk, t) && Sorted(Entries(t))
    ensures var i := c + |Entries(t.left)|;
      && (k > t.key ==> i < |all| && all[i + 1..] == Rest(stk, t.right) && c + Rank(t, k) == i + 1 + Rank(t.right, k))
      && (k < t.key ==> Rank(t, k) == Rank(t.left, k))
      && (k == t.key ==> i < |all| && c + Rank(t, k) == i && all[i..] == [Entry(t.key, t.val)] + Rest(stk, t.right))
  {
    RankStep(t, k);
    hide Sorted, Stacked, Rank;
    SuffixAfter(all, c, Entries(t.left), Entry(t.key, t.val), Rest(stk, t.right));
    assert Rest(stk, t) == Entries(t.left) + [Entry(t.key, t.val)] + Rest(stk, t.right);
  }

  lemma RankStep<V>(t: Tree<V>, k: int)
    requires t.Node? && Sorted(Entries(t))
    ensures Rank(t, k) ==
      if k < t.key then Rank(t.left, k)
      else if k > t.key then |Entries(t.left)| + 1 + Rank(t.right, k)
      else |Entries(t.left)|
  {
    if k == t.key {
      SubtreesSorted(t);
      hide Entries, Sorted;
      RankAtEnd(t.left, k);
    }
  }

  lemma SuffixAfter<T>(all: seq<T>, c: nat, l: seq<T>, x: T, r: seq<T>)
    ensures c <= |all| && all[c..] == l + [x] + r ==>
      c + |l| < |all| && all[c + |l|..] == [x] + r && all[c + |l| + 1..] == r
  {
    if c <= |all| && all[c..] == l + [x] + r {
      assert all[c..][|l|..] == all[c + |l|..];
      assert all[c..][|l| + 1..] == all[c + |l| + 1..];
    }
  }

  lemma NoEntries<V>(d: seq<Slot<V>>, tn: nat, t: Tree<V>)
    requires Rep(d, tn, t) && tn == 0
    ensures t.Nil? && Entries(t) == []
  {
  }

  /** `_m_iter`. */
  class Iter {
    var ref: nat
    var top: nat
    var tn: nat
    const st: array<nat>

    constructor (root: nat)
      ensures ref == 0 && top == 0 && tn == root && st.Length == 36 && fresh(st)
    {
      st := new nat[36];
      ref, top, tn := 0, 0, root;
    }

    ghost predicate Holds<V>(d: seq<Slot<V>>, stk: seq<Tree<V>>, cur: Tree<V>)
      reads this, st
    {
      top == |stk| && StackOk(d, st[..], stk) && PendingOk(d, tn, cur, |stk|)
    }

    /** The end of `_next`: take the top of the stack. */
    method PopTop<V>(d: array<Slot<V>>, ghost stk: seq<Tree<V>>) returns (ghost cur: Tree<V>)
      requires stk != [] && top == |stk| && StackOk(d[..], st[..], stk)
      modifies this
      ensures Holds(d[..], stk[..|stk| - 1], cur) && 0 < ref < d.Length
      ensures [Entry(d[ref].key, d[ref].val)] + Rest(stk[..|stk| - 1], cur) == Stacked(stk)
    {
      Pop(d[..], st[..], stk);
      top := top - 1;
      ref := st[top];
      tn := d[ref].link1;
      cur := stk[|stk| - 1].right;
    }

    /** `_next`. */
    method Next<V>(d: array<Slot<V>>, ghost stk0: seq<Tree<V>>, ghost cur0: Tree<V>)
      returns (ghost stk: seq<Tree<V>>, ghost cur: Tree<V>)
      requires Holds(d[..], stk0, cur0)
      modifies this, st
      ensures Holds(d[..], stk, cur)
      ensures ref == 0 <==> Rest(stk0, cur0) == []
      ensures ref != 0 ==> ref < d.Length && [Entry(d[ref].key, d[ref].val)] + Rest(stk, cur) == Rest(stk0, cur0)
    {
      hide AA, StackOk;
      stk, cur := stk0, cur0;
      if top != 0 || tn != 0 {
        var t: nat := tn;
        while t != 0
          invariant top == |stk| && StackOk(d[..], st[..], stk) && PendingOk(d[..], t, cur, |stk|)
          invariant Rest(stk, cur) == Rest(stk0, cur0) && (t != 0 || top != 0)
          decreases cur
        {
          Push(d[..], st[..], stk, t, cur);
          ghost var before: seq<nat> := st[..];
          StackRoom(d[..], before, stk);
          st[top] := t;
          assert st[..] == before[|stk| := t];
          top := top + 1;
          t := d[t].link0;
          stk, cur := stk + [cur], cur.left;
        }
        NoEntries(d[..], t, cur);
        assert Rest(stk, cur) == Stacked(stk);
        cur := PopTop(d, stk);
        stk := stk[..|stk| - 1];
      } else {
        NoEntries(d[..], tn, cur);
        ref := 0;
      }
    }

    /** `_find_it`. */
    method FindIt<V>(d: array<Slot<V>>, key: int, ghost t: Tree<V>)
      returns (exact: bool, ghost stk: seq<Tree<V>>, ghost cur: Tree<V>)
      requires top == 0 && ref == 0 && st.Length == 36 && Searchable(d[..], tn, t) && Level(t) <= 31
      modifies this, st
      ensures top == |stk| && StackOk(d[..], st[..], stk) && (exact <==> HasKey(Entries(t), key))
      ensures exact ==>
        && Holds(d[..], stk, cur) && 0 < ref < d.Length && d[ref].key == key && Rank(t, key) < |Entries(t)|
        && [Entry(d[ref].key, d[ref].val)] + Rest(stk, cur) == Entries(t)[Rank(t, key)..]
      ensures !exact ==> ref == 0 && Stacked(stk) == Entries(t)[Rank(t, key)..]
    {
      hide AA, StackOk, Sorted, HasKey, NoDup, Rank, Rest, Stacked, Entries, Slots;
      FindStart(t, key);
      var x: nat := tn;
      ghost var sub := t;
      ghost var c: nat := 0;
      stk := [];
      assert StackOk(d[..], st[..], stk) by { EmptyStack(d[..], st[..]); }
      while x != 0
        invariant top == |stk| && ref == 0 && StackOk(d[..], st[..], stk) && PendingOk(d[..], x, sub, |stk|)
        invariant Searchable(d[..], x, sub) && (HasKey(Entries(t), key) <==> HasKey(Entries(sub), key))
        invariant c <= |Entries(t)| && Rank(t, key) == c + Rank(sub, key) && Entries(t)[c..] == Rest(stk, sub)
        decreases sub
      {
        KeyBelow(sub, key);
        RepLinks(d[..], x, sub);
        FindStep(Entries(t), c, stk, sub, key);
        SkewIdle(sub);
        if d[x].key < key {
          StepDown(d[..], x, sub, key);
          c := c + |Entries(sub.left)| + 1;
          x, sub := d[x].link1, sub.right;
        } else if d[x].key > key {
          StepDown(d[..], x, sub, key);
          Push(d[..], st[..], stk, x, sub);
          ghost var before: seq<nat> := st[..];
          StackRoom(d[..], before, stk);
          st[top] := x;
          assert st[..] == before[|stk| := x];
          top := top + 1;
          stk := stk + [sub];
          x, sub := d[x].link0, sub.left;
        } else {
          tn, ref := d[x].link1, x;
          exact, cur := true, sub.right;
          return;
        }
      }
      NoEntries(d[..], x, sub);
      FindEnd(stk, sub, key);
      exact, cur := false, Nil;
    }
  }

  lemma FindStart<V>(t: Tree<V>, k: int)
    ensures Rank(t, k) <= |Entries(t)| && Entries(t)[0..] == Rest([], t)
  {
  }

  lemma FindEnd<V>(stk: seq<Tree<V>>, t: Tree<V>, k: int)
    requires t.Nil?
    ensures Rest(stk, t) == Stacked(stk) && Rank(t, k) == 0 && !HasKey(Entries(t), k)
  {
  }

  lemma StackRoom<V>(d: seq<Slot<V>>, st: seq<nat>, stk: seq<Tree<V>>)
    requires StackOk(d, st, stk)
    ensures |st| == 36
  {
  }

  lemma EmptyStack<V>(d: seq<Slot<V>>, st: seq<nat>)
    requires |st| == 36
    ensures StackOk(d, st, [])
  {
  }

  /** The tree after an erase. */
  lemma ErasedTree<V>(t: Tree<V>, k: int)
    requires Sorted(Entries(t)) && HasKey(Entries(t), k) && NoDup(Slots(t))
    ensures var t' := Erase(t, k);
      && Sorted(Entries(t')) && MapOf(Entries(t')) == MapOf(Entries(t)) - {k}
      && FreedRank(t, k) < |Slots(t)| && Slots(t') == RemoveAt(Slots(t), FreedRank(t, k))
      && NoDup(Slots(t')) && |Slots(t')| == |Slots(t)| - 1
  {
    EraseContent(t, k);
    RankSplits(t, k);
    var i :| 0 <= i < |Entries(t)| && Entries(t)[i].key == k;
    assert Entries(t)[Rank(t, k)].key == k;
    MapRemove(Entries(t), Rank(t, k));
    RemovedSlots(Slots(t), FreedRank(t, k));
  }

  /** The path found by the search, with everything later steps need about its nodes. */
  ghost predicate Visited<V>(d: seq<Slot<V>>, t: Tree<V>, k: int, path: seq<Tree<V>>, cur: Tree<V>) {
    && (|path| == 0 ==> cur == t)
    && (|path| > 0 ==> path[0] == t && path[|path| - 1].Node? && cur == Child(path[|path| - 1], k))
    && (forall i :: 0 <= i < |path| ==> path[i].Node? && path[i].key != k && Searchable(d, path[i].id, path[i]))
    && (forall i :: 0 <= i < |path| ==> HasKey(Entries(t), k) == HasKey(Entries(path[i]), k))
    && (forall i :: 0 <= i < |path| ==> forall x :: x in Slots(path[i]) ==> x in Slots(t))
    && (forall x :: x in Slots(cur) ==> x in Slots(t))
    && (forall i :: 0 < i < |path| ==> path[i] == Child(path[i - 1], k))
  }

  lemma NilHasNoKey<V>(t: Tree<V>, k: int)
    requires t.Nil?
    ensures !HasKey(Entries(t), k)
  {
  }

  /** The search path is still there after a slot outside the tree has been written. */
  lemma PathFrame<V>(d: seq<Slot<V>>, d': seq<Slot<V>>, root: nat, t: Tree<V>, path: seq<Tree<V>>, k: int, id: nat)
    requires Visited(d, t, k, path, Nil) && !HasKey(Entries(t), k) && id !in Slots(t) && 0 < id < |d'| && |d| <= |d'|
    requires forall i :: 0 <= i < |d| && i != id ==> d'[i] == d[i]
    ensures |path| > 0 ==> PathOf(d', t, path, k, id)
  {
    hide Sorted, HasKey, NoDup;
    forall i | 0 <= i < |path|
      ensures Searchable(d', path[i].id, path[i])
    {
      RepFrame(d, d', path[i].id, path[i]);
    }
  }

  lemma {:induction false} CountUpTo(s: seq<nat>, head: nat)
    requires NoDup(s) && forall i :: 0 <= i < |s| ==> 1 <= s[i] <= head
    ensures |s| <= head
  {
    assert |s| > 0 ==> 1 <= s[0] <= head;
    if head > 0 && exists j :: 0 <= j < |s| && s[j] == head {
      var j :| 0 <= j < |s| && s[j] == head;
      RemovedSlots(s, j);
      CountUpTo(RemoveAt(s, j), head - 1);
    } else if head > 0 {
      CountUpTo(s, head - 1);
    }
  }

  /** There are no more slots in use than have been handed out. */
  lemma FewSlots(used: seq<nat>, free: seq<nat>, head: nat)
    requires Partition(used, free, head)
    ensures |used| <= head
  {
    assert forall i :: 0 <= i < |used| ==> used[i] in used;
    CountUpTo(used, head);
  }

  /** The tree after an insertion. */
  lemma InsertedTree<V>(t: Tree<V>, k: int, v: V, id: nat, free: seq<nat>, head: nat)
    requires Sorted(Entries(t)) && !HasKey(Entries(t), k) && NoDup(Slots(t)) && id !in Slots(t)
    requires Partition([id] + Slots(t), free, head)
    ensures var t' := Insert(t, k, v, id);
      && Sorted(Entries(t')) && MapOf(Entries(t')) == MapOf(Entries(t))[k := v]
      && NoDup(Slots(t')) && |Slots(t')| == |Slots(t)| + 1 && Partition(Slots(t'), free, head)
  {
    InsertContent(t, k, v, id);
    RankSplits(t, k);
    MapInsert(Entries(t), Rank(t, k), Entry(k, v));
    InsertedSlots(Slots(t), Rank(t, k), id);
    assert forall i :: i in [id] + Slots(t) <==> i == id || i in Slots(t);
  }

  /** `u` is what `_erase_r_` hands to its last part: erasing `k` from `t` without the final rebalancing. */
  ghost predicate BeforeFix<V>(t: Tree<V>, k: int, u: Tree<V>) {
    && Sunk(u) && Erase(t, k) == Fix(u) && NoDup(Slots(u)) && (forall i :: i in Slots(u) ==> i in Slots(t))
    && (HasKey(Entries(t), k) ==> FreedRank(t, k) < |Slots(t)| && Slots(t)[FreedRank(t, k)] !in Slots(u))
  }

  lemma BeforeFixSlots<V>(t: Tree<V>, k: int, u: Tree<V>)
    requires AA(t) && Sorted(Entries(t)) && NoDup(Slots(t)) && HasKey(Entries(t), k)
    requires Sunk(u) && Erase(t, k) == Fix(u)
    ensures BeforeFix(t, k, u)
  {
    EraseContent(t, k);
    FixContent(u);
    RemovedSlots(Slots(t), FreedRank(t, k));
  }

  lemma EraseSlots<V>(t: Tree<V>, k: int)
    requires AA(t) && Sorted(Entries(t)) && NoDup(Slots(t))
    ensures forall i :: i in Slots(Erase(t, k)) ==> i in Slots(t)
    ensures HasKey(Entries(t), k) ==> FreedRank(t, k) < |Slots(t)|
  {
    if HasKey(Entries(t), k) {
      EraseContent(t, k);
      RemovedSlots(Slots(t), FreedRank(t, k));
    } else {
      EraseMissing(t, k);
    }
  }

  /** Erasing in a subtree. */
  lemma EraseSide<V>(t: Tree<V>, k: int)
    requires t.Node? && AA(t) && Sorted(Entries(t)) && NoDup(Slots(t)) && k != t.key
    ensures BeforeFix(t, k, WithChild(t, k, Erase(Child(t, k), k)))
    ensures HasKey(Entries(t), k) <==> HasKey(Entries(Child(t, k)), k)
    ensures HasKey(Entries(t), k) ==> SameFreed(t, k)
  {
    var u := WithChild(t, k, Erase(Child(t, k), k));
    EraseSideSunk(t, k);
    hide Sunk, Fix, Sorted, HasKey, NoDup, AA, Entries, Slots, Erase;
    SubtreesSorted(t);
    KeyBelow(t, k);
    SkewIdle(t);
    if HasKey(Entries(t), k) {
      BeforeFixSlots(t, k, u);
      SlotsApart(t);
      EraseSlots(Child(t, k), k);
      ChildFreed(t, k);
    } else {
      EraseMissing(Child(t, k), k);
      assert u == t;
    }
  }

  /** The slot freed below is the slot freed. */
  ghost predicate SameFreed<V>(t: Tree<V>, k: int)
    requires t.Node?
  {
    && FreedRank(Child(t, k), k) < |Slots(Child(t, k))| && FreedRank(t, k) < |Slots(t)|
    && Slots(t)[FreedRank(t, k)] == Slots(Child(t, k))[FreedRank(Child(t, k), k)]
  }

  lemma ChildFreed<V>(t: Tree<V>, k: int)
    requires t.Node? && k != t.key && FreedRank(Child(t, k), k) < |Slots(Child(t, k))|
    ensures SameFreed(t, k)
  {
  }

  lemma EraseSideSunk<V>(t: Tree<V>, k: int)
    requires t.Node? && AA(t) && k != t.key
    ensures Sunk(WithChild(t, k, Erase(Child(t, k), k)))
    ensures Erase(t, k) == Fix(WithChild(t, k, Erase(Child(t, k), k)))
  {
    hide Fix;
    EraseKeeps(Child(t, k), k);
  }

  /** Erasing a key whose node has two children. */
  lemma EraseInnerShape<V>(t: Tree<V>)
    requires t.Node? && t.left.Node? && t.right.Node? && AA(t) && Sorted(Entries(t)) && NoDup(Slots(t))
    ensures var m := Max(t.left);
      && HasKey(Entries(t.left), m.key) && HasKey(Entries(t), t.key)
      && BeforeFix(t, t.key, t.(key := m.key, val := m.val, left := Erase(t.left, m.key)))
      && (forall i :: i in Slots(Erase(t.left, m.key)) ==> i in Slots(t.left))
      && FreedRank(t.left, m.key) < |Slots(t.left)|
      && Slots(t)[FreedRank(t, t.key)] == Slots(t.left)[FreedRank(t.left, m.key)]
  {
    var m := Max(t.left);
    SubtreesSorted(t);
    SlotsApart(t);
    KeyBelow(t, t.key);
    MaxContent(t.left);
    EraseKeeps(t.left, m.key);
    EraseSlots(t.left, m.key);
    BeforeFixSlots(t, t.key, t.(key := m.key, val := m.val, left := Erase(t.left, m.key)));
  }
}
