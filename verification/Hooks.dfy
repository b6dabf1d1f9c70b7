/** Hook callbacks and their deferred registration: what src/hooks.c means, on sequences. */
module HooksSpec {

  const NUM_HOOKS := 14

  /** The registered references, one sequence per hook. */
  type Refs = seq<seq<int>>

  /** `struct hook_change`. */
  datatype Change = Change(hook: nat, ref: int, remove: bool)

  datatype Op = Add(hook: nat, ref: int) | Remove(hook: nat, ref: int)

  function Erase(s: seq<int>, r: int): seq<int> {
    if s == [] then []
    else if s[0] == r then s[1..]
    else [s[0]] + Erase(s[1..], r)
  }

  /** The operation executed at once. */
  function Now(refs: Refs, op: Op): (r: Refs)
    ensures |r| == |refs|
  {
    if op.hook >= |refs| then refs
    else match op
      case Add(h, r) => refs[h := refs[h] + [r]]
      case Remove(h, r) => refs[h := Erase(refs[h], r)]
  }

  function NowAll(refs: Refs, ops: seq<Op>): (r: Refs)
    ensures |r| == |refs|
  {
    if ops == [] then refs else Now(NowAll(refs, ops[..|ops| - 1]), ops[|ops| - 1])
  }

  /** The first pending registration of `r` for hook `h`. */
  function Pending(changes: seq<Change>, h: nat, r: int): (i: nat)
    ensures i <= |changes| && (i < |changes| ==> changes[i] == Change(h, r, false))
    ensures Change(h, r, false) !in changes[..i]
  {
    if changes == [] || changes[0] == Change(h, r, false) then 0
    else
      var i := 1 + Pending(changes[1..], h, r);
      assert changes[..i] == [changes[0]] + changes[1..][..i - 1];
      i
  }

  /** The operation while a callback runs: `refs` stays, the list of changes grows. */
  function Defer(refs: Refs, changes: seq<Change>, op: Op): seq<Change> {
    match op
    case Add(h, r) => changes + [Change(h, r, false)]
    case Remove(h, r) =>
      if h >= |refs| then changes
      else if r in refs[h] then changes + [Change(h, r, true)]
      else
        var i := Pending(changes, h, r);
        if i < |changes| then changes[i := changes[i].(ref := 0)] else changes
  }

  function DeferAll(refs: Refs, ops: seq<Op>): seq<Change> {
    if ops == [] then [] else Defer(refs, DeferAll(refs, ops[..|ops| - 1]), ops[|ops| - 1])
  }

  function OpOf(c: Change): Op {
    if c.remove then Remove(c.hook, c.ref) else Add(c.hook, c.ref)
  }

  /** `lfm_apply_hook_changes`: invalidated changes have reference 0. */
  function Apply(refs: Refs, changes: seq<Change>): (r: Refs)
    ensures |r| == |refs|
  {
    if changes == [] then refs
    else
      var was := Apply(refs, changes[..|changes| - 1]);
      var c := changes[|changes| - 1];
      if c.ref == 0 then was else Now(was, OpOf(c))
  }

  /** The operations that are not about reference 0. */
  function Proper(ops: seq<Op>): seq<Op> {
    if ops == [] then []
    else Proper(ops[..|ops| - 1]) + if ops[|ops| - 1].ref == 0 then [] else [ops[|ops| - 1]]
  }

  // ---------------------------------------------------------------- invalidating is erasing

  /** Removals are only deferred for references that are registered. */
  ghost predicate Sensible(refs: Refs, changes: seq<Change>) {
    forall i :: 0 <= i < |changes| && changes[i].remove && changes[i].hook < |refs| ==>
      changes[i].ref in refs[changes[i].hook]
  }

  lemma {:induction false} EraseAbsent(s: seq<int>, r: int)
    requires r !in s
    ensures Erase(s, r) == s
  {
    if s != [] { EraseAbsent(s[1..], r); }
  }

  lemma {:induction false} EraseSnoc(s: seq<int>, x: int, r: int)
    ensures Erase(s + [x], r) == if r in s then Erase(s, r) + [x] else if x == r then s else s + [x]
  {
    if s != [] {
      assert (s + [x])[1..] == s[1..] + [x];
      EraseSnoc(s[1..], x, r);
    } else {
      assert s + [x] == [x];
    }
  }

  lemma {:induction false} EraseSwap(s: seq<int>, a: int, b: int)
    requires a != b
    ensures Erase(Erase(s, a), b) == Erase(Erase(s, b), a)
  {
    if s != [] {
      EraseSwap(s[1..], a, b);
    }
  }

  lemma {:induction false} EraseKeeps(s: seq<int>, a: int, b: int)
    requires a != b
    ensures b in Erase(s, a) <==> b in s
  {
    if s != [] { EraseKeeps(s[1..], a, b); }
  }

  /** A reference that is not registered gets there only by a pending registration. */
  lemma {:induction false} OnlyPending(refs: Refs, changes: seq<Change>, h: nat, r: int)
    requires h < |refs| && r != 0 && r !in refs[h] && Sensible(refs, changes)
    ensures r in Apply(refs, changes)[h] <==> Change(h, r, false) in changes
  {
    if changes != [] {
      var front, c := changes[..|changes| - 1], changes[|changes| - 1];
      OnlyPending(refs, front, h, r);
      assert changes == front + [c];
      if c.remove && c.hook == h { EraseKeeps(Apply(refs, front)[h], c.ref, r); }
    }
  }

  /** Invalidating the first pending registration has the effect of erasing the reference at the end. */
  lemma {:induction false} InvalidateErases(refs: Refs, changes: seq<Change>, h: nat, r: int)
    requires h < |refs| && r != 0 && r !in refs[h] && Sensible(refs, changes) && Pending(changes, h, r) < |changes|
    ensures var i := Pending(changes, h, r);
      Apply(refs, changes[i := changes[i].(ref := 0)]) == Now(Apply(refs, changes), Remove(h, r))
  {
    var i := Pending(changes, h, r);
    var n := |changes| - 1;
    var front, c := changes[..n], changes[n];
    var was := Apply(refs, front);
    OnlyPending(refs, front, h, r);
    if i == n {
      assert front == changes[..i];
      assert changes[i := c.(ref := 0)][..n] == front;
      EraseSnoc(was[h], r, r);
      assert Now(Apply(refs, changes), Remove(h, r)) == was;
    } else {
      PendingFront(changes, h, r);
      InvalidateErases(refs, front, h, r);
      assert changes[i := changes[i].(ref := 0)][..n] == front[i := changes[i].(ref := 0)];
      assert changes[i] in front;
      if c.ref != 0 && c.hook < |refs| {
        Commutes(was, c, h, r);
      }
    }
  }

  lemma {:induction false} PendingFront(changes: seq<Change>, h: nat, r: int)
    requires Pending(changes, h, r) < |changes| - 1
    ensures Pending(changes[..|changes| - 1], h, r) == Pending(changes, h, r)
  {
    if changes[0] != Change(h, r, false) {
      PendingFront(changes[1..], h, r);
      assert changes[1..][..|changes| - 2] == changes[..|changes| - 1][1..];
    }
  }

  lemma Commutes(was: Refs, c: Change, h: nat, r: int)
    requires h < |was| && c.hook < |was| && r in was[h] && !(c.remove && c.hook == h && c.ref == r)
    ensures Now(Now(was, Remove(h, r)), OpOf(c)) == Now(Now(was, OpOf(c)), Remove(h, r))
  {
    if c.hook == h {
      if c.remove {
        EraseSwap(was[h], r, c.ref);
      } else {
        EraseSnoc(was[h], c.ref, r);
      }
    }
  }

  // ---------------------------------------------------------------- deferring is postponing

  lemma {:induction false} SensibleAlways(refs: Refs, ops: seq<Op>)
    ensures Sensible(refs, DeferAll(refs, ops))
  {
    if ops != [] { SensibleAlways(refs, ops[..|ops| - 1]); }
  }

  lemma ApplySnoc(refs: Refs, changes: seq<Change>, c: Change)
    ensures Apply(refs, changes + [c]) ==
      if c.ref == 0 then Apply(refs, changes) else Now(Apply(refs, changes), OpOf(c))
  {
    assert (changes + [c])[..|changes|] == changes;
  }

  /** Deferring one more operation postpones it to the end, except that reference 0 is ignored. */
  lemma DeferredOne(refs: Refs, changes: seq<Change>, op: Op)
    requires Sensible(refs, changes)
    ensures Apply(refs, Defer(refs, changes, op)) ==
      if op.ref == 0 then Apply(refs, changes) else Now(Apply(refs, changes), op)
  {
    match op
    case Add(h, r) => ApplySnoc(refs, changes, Change(h, r, false));
    case Remove(h, r) =>
      if h < |refs| {
        if r in refs[h] {
          ApplySnoc(refs, changes, Change(h, r, true));
        } else if r == 0 {
          var i := Pending(changes, h, r);
          assert i < |changes| ==> changes[i := changes[i].(ref := 0)] == changes;
        } else if Pending(changes, h, r) < |changes| {
          InvalidateErases(refs, changes, h, r);
        } else {
          assert changes[..|changes|] == changes;
          OnlyPending(refs, changes, h, r);
          EraseAbsent(Apply(refs, changes)[h], r);
        }
      }
  }

  /** Whatever is added and removed while callbacks run, applying the changes afterwards gives what executing
      the operations at once would have given, order included, but for those about reference 0. */
  lemma {:induction false} DeferredIsImmediate(refs: Refs, ops: seq<Op>)
    ensures Apply(refs, DeferAll(refs, ops)) == NowAll(refs, Proper(ops))
  {
    if ops != [] {
      var front, op := ops[..|ops| - 1], ops[|ops| - 1];
      DeferredIsImmediate(refs, front);
      SensibleAlways(refs, front);
      DeferredOne(refs, DeferAll(refs, front), op);
      if op.ref == 0 {
        assert Proper(ops) == Proper(front);
      } else {
        assert Proper(ops) == Proper(front) + [op] && (Proper(front) + [op])[..|Proper(front)|] == Proper(front);
      }
    }
  }

  /** So as long as no operation is about reference 0, which Lua never hands out, deferring is postponing. */
  lemma DeferredAsIfNow(refs: Refs, ops: seq<Op>)
    requires forall i :: 0 <= i < |ops| ==> ops[i].ref != 0
    ensures Apply(refs, DeferAll(refs, ops)) == NowAll(refs, ops)
  {
    DeferredIsImmediate(refs, ops);
    ProperAll(ops);
  }

  lemma {:induction false} ProperAll(ops: seq<Op>)
    requires forall i :: 0 <= i < |ops| ==> ops[i].ref != 0
    ensures Proper(ops) == ops
  {
    if ops != [] { ProperAll(ops[..|ops| - 1]); }
  }

  // ---------------------------------------------------------------- the reply to a removal

  /** What removing `r` from hook `h` replies: the reference if there was something to remove. */
  function ReplyNow(refs: Refs, h: nat, r: int): int
    requires h < |refs|
  {
    if r in refs[h] then r else 0
  }

  /** The same while a callback runs. */
  function ReplyDeferred(refs: Refs, changes: seq<Change>, h: nat, r: int): int
    requires h < |refs|
  {
    if r in refs[h] || Change(h, r, false) in changes then r else 0
  }

  /** The replies agree exactly if the reference was not registered before the callbacks and removed since: it is
      then reported as removed once more. */
  lemma RepliesExactly(refs: Refs, ops: seq<Op>, h: nat, r: int)
    requires h < |refs| && r != 0 && forall i :: 0 <= i < |ops| ==> ops[i].ref != 0
    ensures ReplyDeferred(refs, DeferAll(refs, ops), h, r) == ReplyNow(NowAll(refs, ops), h, r) <==>
      !(r in refs[h] && r !in NowAll(refs, ops)[h])
  {
    if r !in refs[h] {
      SensibleAlways(refs, ops);
      OnlyPending(refs, DeferAll(refs, ops), h, r);
      DeferredAsIfNow(refs, ops);
    }
  }

  /** Removing a reference twice within callbacks. */
  lemma RemovedTwice(refs: Refs, h: nat, r: int)
    requires h < |refs| && refs[h] == [r] && r != 0
    ensures ReplyDeferred(refs, DeferAll(refs, [Remove(h, r)]), h, r) == r
    ensures ReplyNow(NowAll(refs, [Remove(h, r)]), h, r) == 0
  {
    assert [Remove(h, r)][..0] == [];
    assert Erase([r], r) == [];
  }

  // ---------------------------------------------------------------- reference 0

  function NonZero(s: seq<int>): (r: seq<int>)
    ensures |r| == |s| <==> 0 !in s
    ensures |r| <= |s|
  {
    if s == [] then [] else if s[0] == 0 then NonZero(s[1..]) else [s[0]] + NonZero(s[1..])
  }

  lemma {:induction false} NonZeroAll(s: seq<int>)
    requires 0 !in s
    ensures NonZero(s) == s
  {
    if s != [] { NonZeroAll(s[1..]); }
  }

  lemma {:induction false} NonZeroSnoc(s: seq<int>, x: int)
    ensures NonZero(s + [x]) == NonZero(s) + if x == 0 then [] else [x]
  {
    if s == [] {
      assert s + [x] == [x];
    } else {
      NonZeroSnoc(s[1..], x);
      assert (s + [x])[1..] == s[1..] + [x];
    }
  }

  lemma {:induction false} NonZeroErase(s: seq<int>, r: int)
    ensures NonZero(Erase(s, r)) == if r == 0 then NonZero(s) else Erase(NonZero(s), r)
  {
    if s != [] && s[0] != r {
      NonZeroErase(s[1..], r);
      assert ([s[0]] + Erase(s[1..], r))[1..] == Erase(s[1..], r);
      if s[0] != 0 { assert ([s[0]] + NonZero(s[1..]))[1..] == NonZero(s[1..]); }
    } else if s != [] && r != 0 {
      assert ([r] + NonZero(s[1..]))[1..] == NonZero(s[1..]);
    }
  }

  /** How often reference 0 is registered in `s`. */
  function Zeros(s: seq<int>): int {
    |s| - |NonZero(s)|
  }

  lemma {:induction false} ZerosErase(s: seq<int>, r: int)
    ensures Zeros(Erase(s, r)) == if r == 0 && Zeros(s) > 0 then Zeros(s) - 1 else Zeros(s)
  {
    if s != [] && s[0] != r {
      ZerosErase(s[1..], r);
      assert ([s[0]] + Erase(s[1..], r))[1..] == Erase(s[1..], r);
    }
  }

  /** How many registrations of reference 0 for hook `h` the operations leave, each removal undoing one. */
  function ZerosLeft(ops: seq<Op>, h: nat): nat {
    if ops == [] then 0
    else
      var left, op := ZerosLeft(ops[..|ops| - 1], h), ops[|ops| - 1];
      if op == Add(h, 0) then left + 1 else if op == Remove(h, 0) && left > 0 then left - 1 else left
  }

  /** Reference 0 is not registered for any hook. */
  ghost predicate ZeroFree(refs: Refs) {
    forall h :: 0 <= h < |refs| ==> 0 !in refs[h]
  }

  lemma {:induction false} ZerosAre(refs: Refs, ops: seq<Op>, h: nat)
    requires h < |refs| && 0 !in refs[h]
    ensures Zeros(NowAll(refs, ops)[h]) == ZerosLeft(ops, h)
  {
    if ops != [] {
      var front, op := ops[..|ops| - 1], ops[|ops| - 1];
      ZerosAre(refs, front, h);
      NonZeroSnoc(NowAll(refs, front)[h], op.ref);
      ZerosErase(NowAll(refs, front)[h], op.ref);
    }
  }

  /** Leaving out the operations about reference 0 leaves out exactly reference 0. */
  lemma {:induction false} ProperDropsZeros(refs: Refs, ops: seq<Op>, h: nat)
    requires h < |refs| && 0 !in refs[h]
    ensures NowAll(refs, Proper(ops))[h] == NonZero(NowAll(refs, ops)[h])
  {
    if ops == [] {
      NonZeroAll(refs[h]);
    } else {
      var front, op := ops[..|ops| - 1], ops[|ops| - 1];
      ProperDropsZeros(refs, front, h);
      assert front + [op] == ops;
      ProperSnoc(refs, front, op);
      NowDropsZeros(NowAll(refs, front), NowAll(refs, Proper(front)), op, h);
    }
  }

  lemma NowDropsZeros(was: Refs, proper: Refs, op: Op, h: nat)
    requires h < |was| == |proper| && proper[h] == NonZero(was[h])
    ensures (if op.ref == 0 then proper else Now(proper, op))[h] == NonZero(Now(was, op)[h])
  {
    NonZeroSnoc(was[h], op.ref);
    NonZeroErase(was[h], op.ref);
  }

  lemma ProperSnoc(refs: Refs, front: seq<Op>, op: Op)
    ensures NowAll(refs, Proper(front + [op])) ==
      if op.ref == 0 then NowAll(refs, Proper(front)) else Now(NowAll(refs, Proper(front)), op)
  {
    var kept := Proper(front);
    assert (front + [op])[..|front|] == front;
    if op.ref == 0 {
      assert Proper(front + [op]) == kept;
    } else {
      assert Proper(front + [op]) == kept + [op] && (kept + [op])[..|kept|] == kept;
    }
  }

  /** Where reference 0 is not yet registered, deferring is exactly postponing if and only if the operations
      leave no registration of it; whatever else they register and remove makes no difference. */
  lemma DeferredExactly(refs: Refs, ops: seq<Op>)
    requires ZeroFree(refs)
    ensures Apply(refs, DeferAll(refs, ops)) == NowAll(refs, ops) <==>
      forall h :: 0 <= h < |refs| ==> ZerosLeft(ops, h) == 0
  {
    DeferredIsImmediate(refs, ops);
    var now, proper := NowAll(refs, ops), NowAll(refs, Proper(ops));
    forall h | 0 <= h < |refs|
      ensures now[h] == proper[h] <==> ZerosLeft(ops, h) == 0
    {
      ProperDropsZeros(refs, ops, h);
      ZerosAre(refs, ops, h);
      if 0 !in now[h] { NonZeroAll(now[h]); }
    }
    if now == proper {
      assert forall h :: 0 <= h < |refs| ==> now[h] == proper[h];
    } else {
      var h :| 0 <= h < |refs| && now[h] != proper[h];
      assert ZerosLeft(ops, h) != 0;
    }
  }
}

/** The code of src/hooks.c. */
module Hooks {
  import opened HooksSpec

  const REF_RANGE := 0x10_0000

  /** Bitwise or. */
  function Or(a: nat, b: nat): nat
    decreases a + b
  {
    if a == 0 then b else if b == 0 then a else 2 * Or(a / 2, b / 2) + if a % 2 == 1 || b % 2 == 1 then 1 else 0
  }

  function Pow2(k: nat): nat {
    if k == 0 then 1 else 2 * Pow2(k - 1)
  }

  lemma {:induction false} OrDisjoint(h: nat, k: nat, r: nat)
    requires r < Pow2(k)
    ensures Or(h * Pow2(k), r) == h * Pow2(k) + r
  {
    if k > 0 && h > 0 && r > 0 {
      var x := h * Pow2(k - 1);
      assert h * Pow2(k) == 2 * x;
      OrDisjoint(h, k - 1, r / 2);
    }
  }

  /** The bits of `a` that are not in `b`. */
  function AndNot(a: nat, b: nat): nat
    decreases a
  {
    if a == 0 then 0 else 2 * AndNot(a / 2, b / 2) + if a % 2 == 1 && b % 2 == 0 then 1 else 0
  }

  /** `hook << REF_BITS | ref`, for a negative reference in two's complement. */
  function Id(hook: nat, ref: int): int {
    if ref >= 0 then Or(hook * REF_RANGE, ref) else -1 - AndNot(-1 - ref, hook * REF_RANGE)
  }

  /** The id tells hook and reference exactly if the reference fits its 20 bits. */
  lemma IdTellsExactly(hook: nat, ref: int)
    ensures (Id(hook, ref) / REF_RANGE == hook && Id(hook, ref) % REF_RANGE == ref) <==> 0 <= ref < REF_RANGE
  {
    if 0 <= ref < REF_RANGE {
      assert Pow2(4) == 0x10 && Pow2(8) == 0x100 && Pow2(12) == 0x1000 && Pow2(16) == 0x1_0000 && Pow2(20) == REF_RANGE;
      OrDisjoint(hook, 20, ref);
    }
  }

  class Hooks {
    var refs: Refs
    var changes: seq<Change>
    var depth: nat
    ghost var ops: seq<Op>

    /** Outside callbacks nothing is pending; inside, the changes are those of the operations so far. */
    ghost predicate Valid()
      reads this
    {
      |refs| == NUM_HOOKS && changes == DeferAll(refs, ops) && (depth == 0 ==> ops == [])
    }

    constructor ()
      ensures Valid() && depth == 0 && refs == seq(NUM_HOOKS, _ => [])
    {
      refs, changes, depth, ops := seq(NUM_HOOKS, _ => []), [], 0, [];
    }

    /** A hook starts to run its callbacks. */
    method Enter()
      requires Valid()
      modifies this`depth
      ensures Valid() && depth == old(depth) + 1
    {
      depth := depth + 1;
    }

    /** `lfm_add_hook`. */
    method AddHook(hook: nat, ref: int) returns (id: int)
      requires Valid() && hook < NUM_HOOKS
      modifies this`refs, this`changes, this`ops
      ensures Valid() && (id / REF_RANGE == hook && id % REF_RANGE == ref <==> 0 <= ref < REF_RANGE)
      ensures depth > 0 ==> refs == old(refs) && ops == old(ops) + [Add(hook, ref)]
      ensures depth == 0 ==> refs == Now(old(refs), Add(hook, ref)) && ops == []
      ensures depth == 0 ==> refs == old(refs)[hook := old(refs)[hook] + [ref]]
    {
      if depth > 0 {
        changes := changes + [Change(hook, ref, false)];
        Deferred(Add(hook, ref));
      } else {
        refs := refs[hook := refs[hook] + [ref]];
      }
      id := Id(hook, ref);
      IdTellsExactly(hook, ref);
    }

    ghost method Deferred(op: Op)
      requires |refs| == NUM_HOOKS && changes == Defer(refs, DeferAll(refs, ops), op) && depth > 0
      modifies this`ops
      ensures Valid() && ops == old(ops) + [op]
    {
      assert (ops + [op])[..|ops|] == ops;
      ops := ops + [op];
    }

    /** The state and result after removing `r`: at once, or with the registered references as they were. */
    ghost predicate RemovedAs(refs0: Refs, changes0: seq<Change>, ops0: seq<Op>, hook: nat, r: int, ref: int)
      requires |refs0| == NUM_HOOKS && hook < NUM_HOOKS
      reads this
    {
      if depth > 0 then
        && refs == refs0 && ops == ops0 + [Remove(hook, r)]
        && ref == ReplyDeferred(refs0, changes0, hook, r)
      else
        refs == Now(refs0, Remove(hook, r)) && ops == [] && ref == ReplyNow(refs0, hook, r)
    }

    /** `lfm_remove_hook`. Inside callbacks, a reference that was registered before is reported as removed each
        time, see `RepliesExactly`. */
    method RemoveHook(id: int) returns (ref: int)
      requires Valid()
      modifies this`refs, this`changes, this`ops
      ensures Valid()
      ensures !(0 <= id / REF_RANGE < NUM_HOOKS) ==> ref == 0 && refs == old(refs) && ops == old(ops)
      ensures 0 <= id / REF_RANGE < NUM_HOOKS ==>
        RemovedAs(old(refs), old(changes), old(ops), id / REF_RANGE, id % REF_RANGE, ref)
    {
      ref := id % REF_RANGE;
      var hook := id / REF_RANGE;
      if hook < 0 || hook >= NUM_HOOKS {
        return 0;
      }
      var i := 0;
      while i < |refs[hook]| && refs[hook][i] != ref
        invariant 0 <= i <= |refs[hook]| && ref !in refs[hook][..i]
      {
        i := i + 1;
      }
      if i < |refs[hook]| {
        if depth == 0 {
          EraseAt(refs[hook], i);
          refs := refs[hook := refs[hook][..i] + refs[hook][i + 1..]];
        } else {
          changes := changes + [Change(hook, ref, true)];
          Deferred(Remove(hook, ref));
        }
        return ref;
      }
      assert refs[hook][..i] == refs[hook];
      EraseAbsent(refs[hook], ref);
      assert refs == refs[hook := refs[hook]];
      ref := Invalidate(hook, ref);
    }

    /** The second loop of `lfm_remove_hook`: a pending registration is invalidated in its place. */
    method Invalidate(hook: nat, r: int) returns (ref: int)
      requires Valid() && hook < NUM_HOOKS && r !in refs[hook]
      modifies this`changes, this`ops
      ensures Valid()
      ensures ops == if depth > 0 then old(ops) + [Remove(hook, r)] else []
      ensures ref == if Change(hook, r, false) in old(changes) then r else 0
    {
      var i := 0;
      while i < |changes| && changes[i] != Change(hook, r, false)
        invariant 0 <= i <= |changes| && Change(hook, r, false) !in changes[..i]
      {
        i := i + 1;
      }
      PendingIs(changes, hook, r, i);
      ref := 0;
      if i < |changes| {
        changes := changes[i := changes[i].(ref := 0)];
        ref := r;
      } else {
        assert changes[..i] == changes;
      }
      if depth > 0 {
        Deferred(Remove(hook, r));
      }
    }

    /** The last callback has returned: `lfm_apply_hook_changes` runs at depth 0 and replays the changes. */
    method Leave()
      requires Valid() && depth > 0
      modifies this
      ensures Valid() && depth == old(depth) - 1
      ensures depth > 0 ==> refs == old(refs) && ops == old(ops)
      ensures depth == 0 ==> refs == NowAll(old(refs), Proper(old(ops)))
      ensures depth == 0 && (forall i :: 0 <= i < |old(ops)| ==> old(ops)[i].ref != 0) ==>
        refs == NowAll(old(refs), old(ops))
    {
      depth := depth - 1;
      if depth == 0 {
        DeferredIsImmediate(refs, ops);
        if forall i :: 0 <= i < |ops| ==> ops[i].ref != 0 { ProperAll(ops); }
        ghost var was := refs;
        var i := 0;
        assert changes[..0] == [];
        while i < |changes|
          invariant 0 <= i <= |changes| && |refs| == NUM_HOOKS && refs == Apply(was, changes[..i])
          invariant changes == old(changes) && depth == 0
        {
          var c := changes[i];
          assert changes[..i + 1][..i] == changes[..i];
          if c.ref != 0 && c.hook < NUM_HOOKS {
            ApplyOne(c);
          }
          i := i + 1;
        }
        assert changes[..i] == changes;
        changes, ops := [], [];
      }
    }

    method ApplyOne(c: Change)
      requires |refs| == NUM_HOOKS && c.hook < NUM_HOOKS
      modifies this`refs
      ensures refs == Now(old(refs), OpOf(c))
    {
      var h := c.hook;
      if c.remove {
        var i := 0;
        while i < |refs[h]| && refs[h][i] != c.ref
          invariant 0 <= i <= |refs[h]| && c.ref !in refs[h][..i]
        {
          i := i + 1;
        }
        if i < |refs[h]| {
          EraseAt(refs[h], i);
          refs := refs[h := refs[h][..i] + refs[h][i + 1..]];
        } else {
          assert refs[h][..i] == refs[h];
          EraseAbsent(refs[h], c.ref);
          assert refs == refs[h := refs[h]];
        }
      } else {
        refs := refs[h := refs[h] + [c.ref]];
      }
    }
  }

  lemma {:induction false} PendingIs(changes: seq<Change>, h: nat, r: int, i: nat)
    requires i <= |changes| && Change(h, r, false) !in changes[..i] &&
      (i < |changes| ==> changes[i] == Change(h, r, false))
    ensures Pending(changes, h, r) == i
  {
    if i > 0 {
      assert changes[0] in changes[..i] && changes[1..][..i - 1] == changes[..i][1..];
      PendingIs(changes[1..], h, r, i - 1);
    }
  }

  lemma {:induction false} EraseAt(s: seq<int>, i: nat)
    requires i < |s| && s[i] !in s[..i]
    ensures Erase(s, s[i]) == s[..i] + s[i + 1..]
  {
    if i > 0 {
      assert s[0] in s[..i] && s[1..][..i - 1] == s[..i][1..];
      EraseAt(s[1..], i - 1);
    }
  }
}
