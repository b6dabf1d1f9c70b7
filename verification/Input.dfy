/** The key dispatch of src/input.c in a mode that does not take text: an optional count, then keys that walk
    down the tries of the mode and of normal mode at once. */
module InputSpec {
  import opened TrieSpec
  import opened Trie

  const ESC := 27

  predicate IsDigit(key: nat) {
    48 <= key <= 57
  }

  /** The two sets of mappings in effect; no base in normal mode itself. */
  datatype Maps = Maps(cur: Graph, root: Node, base: Option<(Graph, Node)>) {
    ghost predicate Ok() {
      && Tree(cur, root) && PrunedBut(cur, root, root)
      && (base.Some? ==> Tree(base.value.0, base.value.1) && PrunedBut(base.value.0, base.value.1, base.value.1))
    }

    function InCur(q: seq<nat>): int {
      Ref(cur, root, q)
    }

    function InBase(q: seq<nat>): int {
      if base.Some? then Ref(base.value.0, base.value.1, q) else 0
    }

    /** What a key sequence is mapped to; the mode takes precedence. */
    function Mapped(q: seq<nat>): int {
      if InCur(q) != 0 then InCur(q) else InBase(q)
    }

    /** Some mapping extends the keys. */
    ghost predicate Continues(q: seq<nat>) {
      exists p :: Mapped(q + p) != 0
    }
  }

  /** Between keys: nothing typed; a count; a count (or -1) and the keys typed since. */
  datatype Pending = Nothing | Count(n: int) | Keys(n: int, typed: seq<nat>)

  datatype Effect = None | Fired(ref: int, count: int) | EscIdle

  /** What one more key does to the keys typed. */
  ghost function Type(m: Maps, n: int, typed: seq<nat>, key: nat): (r: (Pending, Effect))
    ensures r.0.Keys? || r.1.Fired? || r == (Nothing, Effect.None)
  {
    var q := typed + [key];
    if m.Mapped(q) != 0 then (Nothing, Fired(m.Mapped(q), n))
    else if m.Continues(q) then (Keys(n, q), Effect.None)
    else (Nothing, Effect.None)
  }

  ghost function Press(m: Maps, p: Pending, key: nat): (Pending, Effect) {
    if key == ESC then (Nothing, if p.Nothing? then EscIdle else Effect.None)
    else match p
      case Nothing => if IsDigit(key) && key != 48 then (Count(key - 48), Effect.None) else Type(m, -1, [], key)
      case Count(n) => if IsDigit(key) then (Count(n * 10 + key - 48), Effect.None) else Type(m, n, [], key)
      case Keys(n, typed) => Type(m, n, typed, key)
  }

  /** The state after a run of keys, and the effect of each. */
  ghost function Run(m: Maps, p: Pending, keys: seq<nat>): (Pending, seq<Effect>)
    decreases |keys|
  {
    if keys == [] then (p, [])
    else
      var (p', e) := Press(m, p, keys[0]);
      var (p'', es) := Run(m, p', keys[1..]);
      (p'', [e] + es)
  }

  function Quiet(n: nat): seq<Effect> {
    seq(n, _ => Effect.None)
  }

  lemma QuietSum(a: nat, b: nat)
    ensures Quiet(a) + Quiet(b) == Quiet(a + b)
  {
  }

  /** A key sequence is mapped if either trie maps it, and the mode's own mapping hides that of the base. */
  lemma ModeTakesPrecedence(m: Maps, q: seq<nat>)
    ensures Ref(m.cur, m.root, q) != 0 ==> m.Mapped(q) == Ref(m.cur, m.root, q)
    ensures Ref(m.cur, m.root, q) == 0 && m.base.Some? ==> m.Mapped(q) == Ref(m.base.value.0, m.base.value.1, q)
    ensures Ref(m.cur, m.root, q) == 0 && m.base.None? ==> m.Mapped(q) == 0
  {
  }

  /** Escape (27), whatever is pending, starts over: it drops a count and the keys typed, and at rest does what
      escape does there. */
  lemma EscapeResets(m: Maps, p: Pending, keys: seq<nat>)
    ensures var (p', es) := Run(m, Nothing, keys);
      Run(m, p, [27] + keys) == (p', [if p.Nothing? then EscIdle else Effect.None] + es)
  {
    assert ([27] + keys)[1..] == keys;
  }

  /** Some mapping extends the keys exactly if they lead to a node in one of the tries. */
  lemma ContinuesIff(m: Maps, q: seq<nat>)
    requires m.Ok() && q != []
    ensures m.Continues(q) <==>
      Walk(m.cur, m.root, q).Some? || (m.base.Some? && Walk(m.base.value.0, m.base.value.1, q).Some?)
  {
    NodeIffMapped(m.cur, m.root, q);
    if m.base.Some? { NodeIffMapped(m.base.value.0, m.base.value.1, q); }
    if p :| m.InCur(q + p) != 0 {
      assert m.Mapped(q + p) != 0;
    }
    if m.base.Some? {
      if p :| m.InBase(q + p) != 0 {
        assert m.Mapped(q + p) != 0;
      }
    }
  }

  // ---------------------------------------------------------------- the count

  function Value(digits: seq<nat>): int {
    if digits == [] then 0 else Value(digits[..|digits| - 1]) * 10 + digits[|digits| - 1] - 48
  }

  /** `2`, `0`, `5` count to 205, and no digits to -1. */
  lemma CountExample()
    ensures CountOf([50, 48, 53]) == 205 && CountOf([]) == -1
  {
    assert [50, 48, 53][..2] == [50, 48] && [50, 48][..1] == [50] && [50][..0] == [];
  }

  predicate IsCount(digits: seq<nat>) {
    digits != [] && digits[0] != 48 && forall d :: d in digits ==> IsDigit(d)
  }

  lemma {:induction false} CountsOn(m: Maps, n: int, digits: seq<nat>)
    requires forall d :: d in digits ==> IsDigit(d)
    ensures Run(m, Count(n), digits) == (Count(n * Pow10(|digits|) + Value(digits)), Quiet(|digits|))
    decreases |digits|
  {
    if digits == [] {
      assert Quiet(0) == [] && n * Pow10(0) == n;
    } else {
      assert IsDigit(digits[0]);
      CountsOn(m, n * 10 + digits[0] - 48, digits[1..]);
      CountShift(n, digits[0], digits);
      QuietSum(1, |digits| - 1);
      assert Quiet(1) == [Effect.None];
      assert Press(m, Count(n), digits[0]) == (Count(n * 10 + digits[0] - 48), Effect.None);
      hide Value, Pow10, Quiet, Press;
    }
  }

  function Pow10(n: nat): int {
    if n == 0 then 1 else 10 * Pow10(n - 1)
  }

  lemma CountShift(n: int, d: int, digits: seq<nat>)
    requires digits != [] && d == digits[0]
    ensures (n * 10 + d - 48) * Pow10(|digits| - 1) + Value(digits[1..]) == n * Pow10(|digits|) + Value(digits)
  {
    ValueCons(digits);
    var p, v, w := Pow10(|digits| - 1), Value(digits[1..]), Value(digits);
    assert Pow10(|digits|) == 10 * p && w == (d - 48) * p + v;
    hide Value, Pow10;
    Shift(n, d, p, v, w);
  }

  lemma Shift(n: int, d: int, p: int, v: int, w: int)
    requires w == (d - 48) * p + v
    ensures (n * 10 + d - 48) * p + v == n * (10 * p) + w
  {
    assert (n * 10 + d - 48) * p == n * 10 * p + (d - 48) * p;
    assert n * 10 * p == n * (10 * p);
  }

  lemma {:induction false} ValueCons(digits: seq<nat>)
    requires digits != []
    ensures Value(digits) == (digits[0] - 48) * Pow10(|digits| - 1) + Value(digits[1..])
  {
    var n := |digits| - 1;
    if n > 0 {
      ValueCons(digits[..n]);
      assert digits[..n][1..] == digits[1..][..n - 1];
    } else {
      assert digits[..0] == [];
    }
  }

  /** A count is collected digit by digit, quietly. */
  lemma CountTyped(m: Maps, digits: seq<nat>)
    requires IsCount(digits)
    ensures Run(m, Nothing, digits) == (Count(Value(digits)), Quiet(|digits|)) && Value(digits) > 0
  {
    assert IsDigit(digits[0]);
    CountsOn(m, digits[0] - 48, digits[1..]);
    ValueCons(digits);
    ValueNonNegative(digits[1..]);
    assert Quiet(|digits|) == [Effect.None] + Quiet(|digits| - 1);
    PowPositive(|digits| - 1);
  }

  lemma {:induction false} ValueNonNegative(digits: seq<nat>)
    requires forall d :: d in digits ==> IsDigit(d)
    ensures Value(digits) >= 0
  {
    if digits != [] {
      ValueNonNegative(digits[..|digits| - 1]);
      assert IsDigit(digits[|digits| - 1]);
    }
  }

  lemma {:induction false} PowPositive(n: nat)
    ensures Pow10(n) > 0
  {
    if n > 0 { PowPositive(n - 1); }
  }

  // ---------------------------------------------------------------- the keys

  /** No proper nonempty prefix of `ks`, typed after `typed`, is mapped. */
  predicate NoneShorter(m: Maps, typed: seq<nat>, ks: seq<nat>) {
    forall j :: 0 < j < |ks| ==> m.Mapped(typed + ks[..j]) == 0
  }

  lemma NextKey(m: Maps, typed: seq<nat>, ks: seq<nat>)
    requires ks != [] && NoneShorter(m, typed, ks)
    ensures NoneShorter(m, typed + [ks[0]], ks[1..]) && typed + [ks[0]] + ks[1..] == typed + ks
    ensures |ks| > 1 ==> m.Mapped(typed + [ks[0]]) == 0
    ensures m.Continues(typed + ks) ==> m.Continues(typed + [ks[0]])
    ensures m.Mapped(typed + ks) != 0 ==> m.Continues(typed + [ks[0]])
  {
    var q := typed + [ks[0]];
    forall j | 0 < j < |ks| - 1
      ensures m.Mapped(q + ks[1..][..j]) == 0
    {
      assert q + ks[1..][..j] == typed + ks[..j + 1];
    }
    if |ks| > 1 { assert typed + ks[..1] == q; }
    if m.Continues(typed + ks) {
      var p :| m.Mapped(typed + ks + p) != 0;
      assert q + (ks[1..] + p) == typed + ks + p;
    }
    assert q + ks[1..] == typed + ks;
  }

  /** Typing on up to the shortest mapping fires it. */
  lemma {:induction false} Fires(m: Maps, n: int, typed: seq<nat>, ks: seq<nat>)
    requires ks != [] && ESC !in ks && NoneShorter(m, typed, ks) && m.Mapped(typed + ks) != 0
    ensures Run(m, Keys(n, typed), ks) == (Nothing, Quiet(|ks| - 1) + [Fired(m.Mapped(typed + ks), n)])
    decreases |ks|
  {
    NextKey(m, typed, ks);
    assert ks[0] in ks;
    if |ks| == 1 {
      assert typed + ks == typed + [ks[0]] && ks[1..] == [];
      assert Quiet(0) + [Fired(m.Mapped(typed + ks), n)] == [Fired(m.Mapped(typed + ks), n)] + [];
    } else {
      Fires(m, n, typed + [ks[0]], ks[1..]);
      var fired := [Fired(m.Mapped(typed + ks), n)];
      assert Quiet(|ks| - 1) + fired == [Effect.None] + (Quiet(|ks| - 2) + fired);
    }
  }

  /** Typing on while some mapping extends the keys waits for more. */
  lemma {:induction false} Waits(m: Maps, n: int, typed: seq<nat>, ks: seq<nat>)
    requires ESC !in ks && NoneShorter(m, typed, ks) &&
      (ks != [] ==> m.Mapped(typed + ks) == 0 && m.Continues(typed + ks))
    ensures Run(m, Keys(n, typed), ks) == (Keys(n, typed + ks), Quiet(|ks|))
    decreases |ks|
  {
    if ks == [] {
      assert typed + ks == typed;
    } else {
      NextKey(m, typed, ks);
      assert ks[0] in ks;
      if |ks| == 1 { assert typed + ks == typed + [ks[0]]; }
      Waits(m, n, typed + [ks[0]], ks[1..]);
      assert Quiet(|ks|) == [Effect.None] + Quiet(|ks| - 1);
    }
  }

  lemma {:induction false} RunSplit(m: Maps, p: Pending, a: seq<nat>, b: seq<nat>)
    ensures var (p', es) := Run(m, p, a); var (p'', es') := Run(m, p', b);
      Run(m, p, a + b) == (p'', es + es')
    decreases |a|
  {
    if a == [] {
      assert a + b == b;
      assert [] + Run(m, p, b).1 == Run(m, p, b).1;
    } else {
      assert (a + b)[1..] == a[1..] + b;
      var (p', e) := Press(m, p, a[0]);
      RunSplit(m, p', a[1..], b);
      var (p'', es) := Run(m, p', a[1..]);
      assert [e] + es + Run(m, p'', b).1 == [e] + (es + Run(m, p'', b).1);
    }
  }

  /** The key that leaves no mapping within reach resets. */
  lemma Resets(m: Maps, n: int, typed: seq<nat>, ks: seq<nat>)
    requires ks != [] && ESC !in ks && NoneShorter(m, typed, ks) && m.Mapped(typed + ks) == 0 &&
      !m.Continues(typed + ks)
    requires |ks| > 1 ==> m.Continues(typed + ks[..|ks| - 1])
    ensures Run(m, Keys(n, typed), ks) == (Nothing, Quiet(|ks|))
  {
    var front, last := ks[..|ks| - 1], ks[|ks| - 1];
    assert ks == front + [last];
    assert forall j :: 0 < j < |front| ==> front[..j] == ks[..j];
    assert |ks| > 1 ==> typed + front == typed + ks[..|ks| - 1];
    Waits(m, n, typed, front);
    RunSplit(m, Keys(n, typed), front, [last]);
    assert typed + front + [last] == typed + ks;
    assert last in ks;
    assert [last][1..] == [] && [Effect.None] + [] == [Effect.None];
    assert Run(m, Keys(n, typed + front), [last]) == (Nothing, [Effect.None]);
    assert Quiet(|ks|) == Quiet(|front|) + [Effect.None];
  }

  /** The key cannot be read as part of the count. */
  predicate StartsKeys(digits: seq<nat>, key: nat) {
    !IsDigit(key) || (digits == [] && key == 48)
  }

  function CountOf(digits: seq<nat>): int {
    if digits == [] then -1 else Value(digits)
  }

  /** A count, then keys: from rest, exactly the shortest mapped prefix fires, the mode's mapping before the
      base's, with the decimal value of the count or -1; while nothing is mapped yet but some mapping extends the
      keys, it waits; and the first key after which none does, resets. */
  lemma Dispatch(m: Maps, digits: seq<nat>, ks: seq<nat>)
    requires (digits == [] || IsCount(digits)) && ks != [] && ESC !in ks && StartsKeys(digits, ks[0])
    requires NoneShorter(m, [], ks)
    ensures m.Mapped(ks) != 0 ==>
      Run(m, Nothing, digits + ks) == (Nothing, Quiet(|digits| + |ks| - 1) + [Fired(m.Mapped(ks), CountOf(digits))])
    ensures m.Mapped(ks) == 0 && m.Continues(ks) ==>
      Run(m, Nothing, digits + ks) == (Keys(CountOf(digits), ks), Quiet(|digits| + |ks|))
    ensures m.Mapped(ks) == 0 && !m.Continues(ks) && (|ks| > 1 ==> m.Continues(ks[..|ks| - 1])) ==>
      Run(m, Nothing, digits + ks) == (Nothing, Quiet(|digits| + |ks|))
  {
    var n := CountOf(digits);
    AfterCount(m, digits, ks);
    assert [] + ks == ks && (|ks| > 1 ==> [] + ks[..|ks| - 1] == ks[..|ks| - 1]);
    if m.Mapped(ks) != 0 {
      Fires(m, n, [], ks);
      QuietSum(|digits|, |ks| - 1);
      Regroup(Quiet(|digits|), Quiet(|ks| - 1), [Fired(m.Mapped(ks), n)]);
    } else {
      QuietSum(|digits|, |ks|);
      if m.Continues(ks) {
        Waits(m, n, [], ks);
      } else if |ks| > 1 ==> m.Continues(ks[..|ks| - 1]) {
        Resets(m, n, [], ks);
      }
    }
  }

  lemma Regroup(a: seq<Effect>, b: seq<Effect>, c: seq<Effect>)
    ensures a + (b + c) == a + b + c
  {
  }

  /** The count is behind, the keys lie ahead. */
  lemma AfterCount(m: Maps, digits: seq<nat>, ks: seq<nat>)
    requires (digits == [] || IsCount(digits)) && ks != [] && ESC !in ks && StartsKeys(digits, ks[0])
    ensures var (p, es) := Run(m, Keys(CountOf(digits), []), ks);
      Run(m, Nothing, digits + ks) == (p, Quiet(|digits|) + es)
  {
    if digits != [] { CountTyped(m, digits); }
    var n := CountOf(digits);
    var p := if digits == [] then Nothing else Count(n);
    RunSplit(m, Nothing, digits, ks);
    assert ks[0] in ks && Quiet(0) == [];
    assert Run(m, p, ks) == Run(m, Keys(n, []), ks);
    assert [] + Run(m, p, ks).1 == Run(m, p, ks).1;
  }
}

/** The code of src/input.c for `handle_normal_mode_key` and what it calls. */
module Input {
  import opened TrieSpec
  import opened Trie
  import opened InputSpec

  datatype State = Idle | Counting | Sequence

  /** Where keys lead in a trie, or null. */
  ghost function NodeAt(g: Graph, root: Node, q: seq<nat>): Node? {
    match Walk(g, root, q)
    case Some(n) => n
    case None => null
  }

  ghost function BaseAt(m: Maps, q: seq<nat>): Node? {
    if m.base.Some? then NodeAt(m.base.value.0, m.base.value.1, q) else null
  }

  ghost function MapsOf(mode: Trie, normal: Trie): Maps
    reads mode, normal
  {
    Maps(mode.g, mode.root, if mode == normal then TrieSpec.None else Some((normal.g, normal.root)))
  }

  /** The tries that `m` is a snapshot of. */
  ghost predicate Tries(m: Maps, mode: Trie, normal: Trie)
    reads mode, normal, mode.g.Keys, normal.g.Keys
  {
    && mode.Valid() && normal.Valid() && mode.Pruned() && normal.Pruned()
    && (mode.root == normal.root ==> mode == normal) && m == MapsOf(mode, normal)
  }

  lemma AtStart(m: Maps, mode: Trie, normal: Trie)
    requires Tries(m, mode, normal)
    ensures NodeAt(m.cur, m.root, []) == mode.root
    ensures BaseAt(m, []) == if mode.root == normal.root then null else normal.root
  {
  }

  /** `process_sequence_key` looks the next key up in one of the two tries. */
  method Lookup(t: Trie, n: Node?, key: nat, ghost typed: seq<nat>) returns (next: Node?)
    requires t.Valid() && n == NodeAt(t.g, t.root, typed)
    ensures next == NodeAt(t.g, t.root, typed + [key])
    ensures next != null ==> next in t.g && next.ref == t.Mapped(typed + [key])
    ensures next == null ==> t.Mapped(typed + [key]) == 0
  {
    WalkSnoc(t.g, t.root, typed, key);
    if n == null {
      return null;
    }
    WalkDepth(t.g, t.root, t.root, typed);
    var pred;
    next, pred := t.FindChild(n, key);
    if next != null {
      KidLinked(t.g, t.root, n, key);
      assert Stored(next, t.g[next]);
    }
  }

  /** The next key in both tries. */
  method LookupBoth(mode: Trie, normal: Trie, ghost m: Maps, cur: Node?, base: Node?, key: nat, ghost q: seq<nat>)
    returns (nextCur: Node?, nextBase: Node?)
    requires Tries(m, mode, normal) && cur == NodeAt(m.cur, m.root, q) && base == BaseAt(m, q)
    ensures nextCur == NodeAt(m.cur, m.root, q + [key]) && nextBase == BaseAt(m, q + [key])
    ensures (if nextCur != null then nextCur.ref else 0) == m.InCur(q + [key])
    ensures (if nextBase != null then nextBase.ref else 0) == m.InBase(q + [key])
  {
    nextCur := Lookup(mode, cur, key, q);
    nextBase := null;
    if base != null {
      nextBase := Lookup(normal, base, key, q);
    } else if m.base.Some? {
      WalkSnoc(m.base.value.0, m.base.value.1, q, key);
    }
  }

  class InputCtx {
    var state: State
    var cur: Node?
    var curBase: Node?
    var shown: seq<nat>
    var count: int
    ghost var digits: seq<nat>
    ghost var typed: seq<nat>

    /** Both positions are where the keys typed lead; the base is not used in normal mode itself. */
    ghost predicate At(m: Maps, q: seq<nat>)
      reads this
    {
      cur == NodeAt(m.cur, m.root, q) && curBase == BaseAt(m, q)
    }

    /** The fields agree with what has been typed; `shown` is what the command line shows of it. */
    ghost predicate Valid(m: Maps)
      reads this
    {
      match state
      case Idle => shown == [] && cur == null && curBase == null
      case Counting => At(m, []) && typed == [] && digits != [] && Typed()
      case Sequence => At(m, typed) && typed != [] && Typed()
    }

    ghost predicate Typed()
      reads this
    {
      (digits == [] || IsCount(digits)) && count == CountOf(digits) && shown == digits + typed
    }

    ghost function View(): Pending
      reads this
    {
      match state
      case Idle => Nothing
      case Counting => Count(count)
      case Sequence => Keys(count, typed)
    }

    constructor ()
      ensures state == Idle && shown == [] && cur == null && curBase == null
    {
      state, cur, curBase, shown, count := Idle, null, null, [], 0;
    }

    /** `input_init_sequence`. */
    method InitSequence(mode: Trie, normal: Trie, ghost m: Maps)
      requires Tries(m, mode, normal) && shown == []
      modifies this
      ensures At(m, []) && typed == [] && digits == [] && Typed() && state == old(state)
    {
      hide Tries, Walk, NodeAt, BaseAt, IsCount;
      AtStart(m, mode, normal);
      cur := mode.root;
      curBase := normal.root;
      if cur == curBase {
        curBase := null;
      }
      count := -1;
      digits, typed := [], [];
    }

    /** `input_clear`. */
    method Clear(ghost m: Maps)
      modifies this
      ensures Valid(m) && View() == Nothing
    {
      state := Idle;
      cur := null;
      curBase := null;
      count := -1;
      shown := [];
    }

    /** `accumulate_digit`. */
    method AccumulateDigit(ghost m: Maps, key: nat)
      requires At(m, []) && typed == [] && Typed() && state == Counting && IsDigit(key) && (digits == [] ==> key != 48)
      modifies this
      ensures Valid(m) && state == Counting
      ensures count == AddDigit(old(count), key) && (old(count) < 0 <==> old(digits) == [])
    {
      CountGrows(digits, key);
      hide Value, IsCount, IsDigit, CountOf, NodeAt, BaseAt, AddDigit;
      digits := digits + [key];
      count := AddDigit(count, key);
      if count > 0 {
        shown := shown + [key];
      }
    }

    /** `process_sequence_key`: true if the key completes or continues a mapping. */
    method ProcessSequenceKey(mode: Trie, normal: Trie, ghost m: Maps, key: nat) returns (matched: bool, effect: Effect)
      requires Tries(m, mode, normal) && At(m, typed) && Typed()
      modifies this
      ensures var (p, e) := Type(m, old(count), old(typed), key);
        && effect == e && matched == (p.Keys? || e.Fired?)
        && (matched ==> Valid(m) && View() == p)
    {
      TypeIs(m, count, typed, key);
      hide Walk, Ref, Type, NodeAt, BaseAt, Tries;
      var nextCur, nextBase := LookupBoth(mode, normal, m, cur, curBase, key, typed);
      if nextCur != null && nextCur.ref != 0 {
        effect := Fired(nextCur.ref, count);
        Clear(m);
        return true, effect;
      }
      if nextBase != null && nextBase.ref != 0 {
        effect := Fired(nextBase.ref, count);
        Clear(m);
        return true, effect;
      }
      if nextCur == null && nextBase == null {
        return false, Effect.None;
      }
      Follow(m, nextCur, nextBase, key);
      return true, Effect.None;
    }

    /** A partial match. */
    method Follow(ghost m: Maps, nextCur: Node?, nextBase: Node?, key: nat)
      requires Typed() && nextCur == NodeAt(m.cur, m.root, typed + [key]) && nextBase == BaseAt(m, typed + [key])
      modifies this
      ensures Valid(m) && View() == Keys(old(count), old(typed) + [key])
    {
      hide NodeAt, BaseAt;
      cur := nextCur;
      curBase := nextBase;
      state := Sequence;
      shown := shown + [key];
      typed := typed + [key];
    }

    /** `handle_normal_mode_key`: one step of the key dispatch. */
    method HandleNormalModeKey(mode: Trie, normal: Trie, ghost m: Maps, key: nat) returns (effect: Effect)
      requires Tries(m, mode, normal) && Valid(m)
      modifies this
      ensures Valid(m)
      ensures (View(), effect) == Press(m, old(View()), key)
      ensures key == 27 ==> state == Idle && (effect == EscIdle <==> old(state) == Idle)
    {
      hide NodeAt, BaseAt, Type;
      if key == ESC {
        effect := if state == Idle then EscIdle else Effect.None;
        if state != Idle {
          Clear(m);
        }
        return;
      }
      effect := Effect.None;
      if state == Idle {
        InitSequence(mode, normal, m);
        if 48 < key <= 57 {
          state := Counting;
          AccumulateDigit(m, key);
          return;
        }
      } else if state == Counting {
        if 48 <= key <= 57 {
          AccumulateDigit(m, key);
          return;
        }
      }
      var matched;
      matched, effect := ProcessSequenceKey(mode, normal, m, key);
      if !matched {
        Clear(m);
      }
    }
  }

  /** What the next key does, in terms of the nodes it leads to. */
  lemma TypeIs(m: Maps, n: int, typed: seq<nat>, key: nat)
    requires m.Ok()
    ensures var q := typed + [key];
      Type(m, n, typed, key) ==
        if m.InCur(q) != 0 then (Nothing, Fired(m.InCur(q), n))
        else if m.InBase(q) != 0 then (Nothing, Fired(m.InBase(q), n))
        else if NodeAt(m.cur, m.root, q) != null || BaseAt(m, q) != null then (Keys(n, q), Effect.None)
        else (Nothing, Effect.None)
  {
    ContinuesIff(m, typed + [key]);
  }

  function AddDigit(count: int, key: nat): int {
    if count < 0 then key - 48 else count * 10 + key - 48
  }

  lemma CountGrows(digits: seq<nat>, key: nat)
    requires IsDigit(key) && if digits == [] then key != 48 else IsCount(digits)
    ensures IsCount(digits + [key]) && CountOf(digits + [key]) > 0
    ensures CountOf(digits + [key]) == AddDigit(CountOf(digits), key)
    ensures CountOf(digits) < 0 <==> digits == []
  {
    ValueGrows(digits, key);
  }

  lemma ValueGrows(digits: seq<nat>, key: nat)
    requires IsDigit(key) && if digits == [] then key != 48 else IsCount(digits)
    ensures IsCount(digits + [key]) && Value(digits + [key]) == Value(digits) * 10 + key - 48
    ensures Value(digits) >= 0 && Value(digits + [key]) > 0
  {
    assert (digits + [key])[..|digits|] == digits;
    if digits != [] { CountPositive(digits); }
  }

  lemma {:induction false} CountPositive(digits: seq<nat>)
    requires IsCount(digits)
    ensures Value(digits) > 0
  {
    var n := |digits| - 1;
    assert IsDigit(digits[n]);
    if n > 0 {
      CountPositive(digits[..n]);
    } else {
      assert digits[..0] == [];
    }
  }
}
