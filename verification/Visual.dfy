/** What the visual selection is meant to be: src/visual.c. */
module VisualSpec {

  const U32: nat := 0x1_0000_0000

  /** The range of indices that `visual_update_selection` toggles, in unsigned 32 bit arithmetic. */
  function Range(anchor: nat, from: nat, to: nat): (nat, nat) {
    if from >= anchor then
      if to > from then (from + 1, to)
      else if to < anchor then (to, from)
      else (to + 1, from)
    else if to < from then (to, from - 1)
    else if to > anchor then (from, to)
    else (from, (to - 1) % U32)
  }

  predicate Between(anchor: nat, cursor: nat, i: nat) {
    anchor <= i <= cursor || cursor <= i <= anchor
  }

  ghost predicate Apart(files: seq<string>) {
    forall i, j :: 0 <= i < j < |files| ==> files[i] != files[j]
  }

  /** The kept selection and the files between anchor and cursor. */
  ghost function Chosen(keep: set<string>, files: seq<string>, anchor: nat, cursor: nat): set<string> {
    keep + set i | 0 <= i < |files| && Between(anchor, cursor, i) :: files[i]
  }

  /** The selection after toggling the files from `lo` up to `end` that are not kept. */
  ghost function Flip(sel: set<string>, keep: set<string>, files: seq<string>, lo: nat, end: nat): set<string>
    requires end <= |files|
  {
    var flipped := set i | lo <= i < end && files[i] !in keep :: files[i];
    (sel - flipped) + (flipped - sel)
  }

  /** A range never reaches behind the cursor positions, except for a move that stays on the first file before
      the anchor. */
  lemma RangeExactly(anchor: nat, from: nat, to: nat)
    requires anchor < U32 - 1 && from < U32 - 1 && to < U32 - 1
    ensures var (lo, hi) := Range(anchor, from, to);
      (lo <= hi ==> hi <= from || hi <= to) <==> !(from == to == 0 < anchor)
  {
  }

  /** An index is toggled exactly if it lies between the anchor and one of the two positions but not the other;
      the anchor itself is kept anyway. */
  lemma RangeIsChange(anchor: nat, from: nat, to: nat, i: nat)
    requires !(from == to == 0 < anchor) && to < U32 && i != anchor
    ensures var (lo, hi) := Range(anchor, from, to);
      lo <= i <= hi <==> Between(anchor, from, i) != Between(anchor, to, i)
  {
  }

  /** One move: the files between anchor and cursor stay selected, whatever the direction. */
  lemma MoveKeeps(keep: set<string>, files: seq<string>, anchor: nat, from: nat, to: nat)
    requires Apart(files) && |files| < U32 && anchor < |files| && from < |files| && to < |files|
    requires files[anchor] in keep && !(from == to == 0 < anchor)
    ensures var (lo, hi) := Range(anchor, from, to);
      && (lo <= hi ==> hi < |files|)
      && Flip(Chosen(keep, files, anchor, from), keep, files, lo, if lo <= hi then hi + 1 else 0)
        == Chosen(keep, files, anchor, to)
  {
    var (lo, hi) := Range(anchor, from, to);
    var end := if lo <= hi then hi + 1 else 0;
    var a, b := Chosen(keep, files, anchor, from), Chosen(keep, files, anchor, to);
    forall p
      ensures p in Flip(a, keep, files, lo, end) <==> p in b
    {
      if i :| 0 <= i < |files| && files[i] == p {
        assert forall j :: 0 <= j < |files| && files[j] == p ==> j == i;
        if i != anchor { RangeIsChange(anchor, from, to, i); }
      }
    }
  }

  lemma Toggled(keep: set<string>, files: seq<string>, anchor: nat, from: nat, to: nat, lo: nat, hi: nat)
    requires Apart(files) && |files| < U32 - 1 && anchor < |files| && from < |files| && to < |files|
    requires !(from == to == 0 < anchor) && (lo, hi) == Range(anchor, from, to)
    ensures lo <= hi ==> hi < |files|
    ensures files[anchor] in keep ==>
      Flip(Chosen(keep, files, anchor, from), keep, files, lo, if lo <= hi then hi + 1 else 0)
        == Chosen(keep, files, anchor, to)
  {
    RangeExactly(anchor, from, to);
    hide Range, Chosen, Flip, Apart;
    if files[anchor] in keep { MoveKeeps(keep, files, anchor, from, to); }
  }

  /** The selection after a run of cursor moves. */
  ghost function AfterMoves(sel: set<string>, keep: set<string>, files: seq<string>, anchor: nat, from: nat,
    moves: seq<nat>): set<string>
    requires Valid(files, anchor, from, moves)
    decreases |moves|
  {
    if moves == [] then sel
    else
      var (lo, hi) := Range(anchor, from, moves[0]);
      RangeExactly(anchor, from, moves[0]);
      AfterMoves(Flip(sel, keep, files, lo, if lo <= hi then hi + 1 else 0), keep, files, anchor, moves[0], moves[1..])
  }

  /** No move stays on the first file before the anchor. */
  ghost predicate Valid(files: seq<string>, anchor: nat, from: nat, moves: seq<nat>)
    decreases |moves|
  {
    && Apart(files) && |files| < U32 - 1 && anchor < |files| && from < |files|
    && (moves == [] ||
      (moves[0] < |files| && !(from == moves[0] == 0 < anchor) && Valid(files, anchor, moves[0], moves[1..])))
  }

  /** After any moves the selection is what was kept and the files between anchor and cursor: the route does not
      matter. */
  lemma {:induction false} RouteIndependent(keep: set<string>, files: seq<string>, anchor: nat, from: nat,
    moves: seq<nat>)
    requires Valid(files, anchor, from, moves) && files[anchor] in keep
    ensures AfterMoves(Chosen(keep, files, anchor, from), keep, files, anchor, from, moves) ==
      Chosen(keep, files, anchor, if moves == [] then from else moves[|moves| - 1])
    decreases |moves|
  {
    if moves != [] {
      MoveKeeps(keep, files, anchor, from, moves[0]);
      RouteIndependent(keep, files, anchor, moves[0], moves[1..]);
    }
  }

  /** Entering visual mode with the anchor selected and everything kept. */
  lemma Entered(keep: set<string>, files: seq<string>, anchor: nat)
    requires anchor < |files| && files[anchor] in keep
    ensures Chosen(keep, files, anchor, anchor) == keep
  {
  }
}

/** The selection code of src/visual.c and src/selection.c. */
module Visual {
  import opened DList
  import opened Indexed
  import PathList
  import opened VisualSpec

  ghost function Members(s: seq<string>): set<string> {
    set p | p in s
  }

  ghost function Paths(l: PathList.PathList): set<string>
    reads l.list
  {
    Members(l.Contents())
  }

  class Fm {
    const current: PathList.PathList
    const keep: PathList.PathList
    var active: bool
    var anchor: nat

    /** The two path lists share nothing. */
    ghost predicate Valid()
      reads this, current, current.list, current.list.nodes, keep, keep.list, keep.list.nodes
    {
      && current.Valid() && keep.Valid() && current != keep && current.list != keep.list
      && (forall k :: 0 <= k < |current.list.nodes| ==> current.list.nodes[k] !in keep.list.nodes)
    }

    constructor ()
      ensures Valid() && !active && Paths(current) == {} && Paths(keep) == {}
    {
      current := new PathList.PathList();
      keep := new PathList.PathList();
      active, anchor := false, 0;
    }

    /** `selection_toggle_path`. */
    method TogglePath(path: string)
      requires Valid()
      modifies current, current.list, current.list.nodes
      ensures Valid() &&
        Paths(current)
        == (if path in old(Paths(current)) then old(Paths(current)) - {path} else old(Paths(current)) + {path})
      ensures forall k :: 0 <= k < |current.list.nodes| ==>
        current.list.nodes[k] in old(current.list.nodes) || fresh(current.list.nodes[k])
    {
      hide Ring, Holds, Agrees, Minus;
      var removed := current.Remove(path);
      MinusMembers(old(current.Contents()), path);
      if !removed {
        var _ := current.Add(path);
      }
    }

    /** `visual_update_selection`, in visual mode: what is selected follows the cursor. */
    method UpdateSelection(files: seq<string>, from: nat, to: nat)
      requires Valid() && Apart(files) && |files| < U32 - 1
      requires active ==> anchor < |files| && from < |files| && to < |files| && !(from == to == 0 < anchor)
      modifies current, current.list, current.list.nodes
      ensures Valid()
      ensures !active ==> Paths(current) == old(Paths(current))
      ensures active && files[anchor] in Paths(keep) ==>
        old(Paths(current)) == Chosen(Paths(keep), files, anchor, from) ==>
        Paths(current) == Chosen(Paths(keep), files, anchor, to)
    {
      hide Range, Chosen, Flip, Apart, Members, Ring, Holds, Agrees;
      if !active {
        return;
      }
      var lo, hi := ComputeRange(from, to);
      Toggled(Paths(keep), files, anchor, from, to, lo, hi);
      ToggleRange(files, lo, hi);
    }

    method ComputeRange(from: nat, to: nat) returns (lo: nat, hi: nat)
      ensures (lo, hi) == Range(anchor, from, to)
    {
      if from >= anchor {
        if to > from {
          lo, hi := from + 1, to;
        } else if to < anchor {
          hi, lo := from, to;
        } else {
          hi, lo := from, to + 1;
        }
      } else {
        if to < from {
          lo, hi := to, from - 1;
        } else if to > anchor {
          lo, hi := from, to;
        } else {
          lo, hi := from, (to - 1) % U32;
        }
      }
    }

    /** The loop of `visual_update_selection`. */
    method ToggleRange(files: seq<string>, lo: nat, hi: nat)
      requires Valid() && Apart(files) && (lo <= hi ==> hi < |files|)
      modifies current, current.list, current.list.nodes
      ensures Valid() &&
        Paths(current) == Flip(old(Paths(current)), Paths(keep), files, lo, if lo <= hi then hi + 1 else 0)
    {
      ghost var was, kept := Paths(current), Paths(keep);
      var i := lo;
      hide Flip, Ring, Holds, Agrees;
      FlipNone(was, kept, files, lo);
      while i <= hi
        invariant lo <= i && (i <= hi + 1 || i == lo)
        invariant Valid() && Paths(keep) == kept
        invariant Paths(current) == Flip(was, kept, files, lo, if lo <= hi then i else 0)
        invariant forall k :: 0 <= k < |current.list.nodes| ==>
          current.list.nodes[k] in old(current.list.nodes) || fresh(current.list.nodes[k])
      {
        FlipOne(was, kept, files, lo, i);
        var path := files[i];
        var found := keep.Contains(path);
        if !found {
          TogglePath(path);
        }
        i := i + 1;
      }
    }

    /** `visual_on_enter`: the file under the cursor is selected, and everything selected is kept. */
    method OnEnter(files: seq<string>, ind: nat)
      requires Valid() && (files != [] ==> ind < |files|)
      modifies this, current, current.list, current.list.nodes, keep, keep.list, keep.list.nodes
      ensures Valid()
      ensures old(active) || files == [] ==> active == old(active) && Paths(current) == old(Paths(current))
      ensures !old(active) && files != [] ==>
        && active && anchor == ind && Paths(current) == old(Paths(current)) + {files[ind]}
        && Paths(keep) == Paths(current) && Paths(current) == Chosen(Paths(keep), files, anchor, ind)
    {
      if active {
        return;
      }
      if |files| == 0 {
        return;
      }
      active := true;
      anchor := ind;
      hide Ring, Holds, Agrees, Chosen;
      SelectAndKeep(files[ind]);
      Entered(Paths(keep), files, ind);
    }

    method SelectAndKeep(path: string)
      requires Valid()
      modifies current, current.list, current.list.nodes, keep, keep.list, keep.list.nodes
      ensures Valid() && Paths(current) == old(Paths(current)) + {path} && Paths(keep) == Paths(current)
    {
      hide Ring, Holds, Agrees;
      var _ := current.Add(path);
      keep.Clear();
      CopyToKeep();
    }

    /** The loop of `visual_on_enter` over the selection. */
    method CopyToKeep()
      requires Valid() && keep.Contents() == [] && keep.list.nodes == []
      modifies keep, keep.list
      ensures Valid() && Paths(keep) == Paths(current)
    {
      hide Ring, Holds, Agrees, Members;
      ghost var k, all := 0, current.Contents();
      assert all[..0] == [];
      ghost var kept: seq<string> := [];
      Same();
      var node := current.list.First();
      while node != null
        invariant 0 <= k <= |all| && Valid() && current.Contents() == all && |all| == |current.list.nodes|
        invariant node == (if k < |all| then current.list.nodes[k] else null) && (node != null ==> node.value == all[k])
        invariant keep.Contents() == kept && Members(kept) == Members(all[..k])
        invariant forall j :: 0 <= j < |keep.list.nodes| ==> fresh(keep.list.nodes[j])
        decreases |all| - k
      {
        var path := node.value;
        node := current.list.Following(node, k);
        TakeMore(all, k);
        AddMember(kept, path);
        k := k + 1;
        var added := keep.Add(path);
        kept := if added then kept + [path] else kept;
      }
      assert all[..k] == all;
    }

    lemma Same()
      requires Valid()
      ensures |current.Contents()| == |current.list.nodes|
    {
    }

    /** `visual_on_exit`. */
    method OnExit()
      requires Valid()
      modifies this, keep, keep.list, keep.list.nodes
      ensures Valid() && !active && Paths(current) == old(Paths(current))
      ensures old(active) ==> Paths(keep) == {}
    {
      if !active {
        return;
      }
      active := false;
      anchor := 0;
      keep.Clear();
    }
  }

  lemma AddMember(s: seq<string>, x: string)
    ensures Members(s + [x]) == Members(s) + {x}
    ensures x in s ==> Members(s) + {x} == Members(s)
  {
  }

  lemma TakeMore(s: seq<string>, k: nat)
    requires k < |s|
    ensures Members(s[..k + 1]) == Members(s[..k]) + {s[k]}
    ensures s[k] in s[..k] ==> Members(s[..k + 1]) == Members(s[..k])
  {
    assert s[..k + 1] == s[..k] + [s[k]];
  }

  lemma FlipNone(sel: set<string>, keep: set<string>, files: seq<string>, lo: nat)
    ensures Flip(sel, keep, files, lo, 0) == sel
    ensures lo <= |files| ==> Flip(sel, keep, files, lo, lo) == sel
  {
  }

  lemma FlipOne(sel: set<string>, keep: set<string>, files: seq<string>, lo: nat, i: nat)
    requires lo <= i < |files| && Apart(files)
    ensures var was := Flip(sel, keep, files, lo, i);
      Flip(sel, keep, files, lo, i + 1) ==
        if files[i] in keep then was else if files[i] in was then was - {files[i]} else was + {files[i]}
  {
    assert forall j :: lo <= j < i ==> files[j] != files[i];
  }

  lemma {:induction false} MinusMembers(s: seq<string>, x: string)
    ensures forall y :: y in Minus(s, x) <==> y in s && y != x
  {
    if s != [] {
      MinusMembers(s[1..], x);
      assert s == [s[0]] + s[1..];
    }
  }
}
