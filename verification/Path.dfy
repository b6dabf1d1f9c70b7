/** `path_clean` of src/path.c: normalises an absolute path inside its own buffer. */
module PathClean {

  // ---------------------------------------------------------------- the simple specification

  /** The index of the first '/' at or after `i`, or |s|. */
  function NextSlash(s: string, i: nat): (j: nat)
    requires i <= |s|
    ensures i <= j <= |s| && (j < |s| ==> s[j] == '/') && forall k :: i <= k < j ==> s[k] != '/'
    decreases |s| - i
  {
    if i == |s| || s[i] == '/' then i else NextSlash(s, i + 1)
  }

  /** The components of an absolute path: what stands after each '/'. */
  function Components(s: string): seq<string>
    requires s != "" ==> s[0] == '/'
    decreases |s|
  {
    if s == "" then [] else
      var j := NextSlash(s, 1);
      [s[1..j]] + Components(s[j..])
  }

  function Push(stack: seq<string>, c: string): seq<string> {
    if c == "" || c == "." then stack
    else if c == ".." then (if stack == [] then [] else stack[..|stack| - 1])
    else stack + [c]
  }

  function PushAll(stack: seq<string>, cs: seq<string>): seq<string>
    decreases |cs|
  {
    if cs == [] then stack else PushAll(Push(stack, cs[0]), cs[1..])
  }

  function Join(stack: seq<string>): string {
    if stack == [] then "" else Join(stack[..|stack| - 1]) + "/" + stack[|stack| - 1]
  }

  function Render(stack: seq<string>): string {
    if stack == [] then "/" else Join(stack)
  }

  /** Drop empty components and ".", pop on "..", and put the rest together again. */
  function Normalize(s: string): string
    requires s != "" && s[0] == '/'
  {
    Render(PushAll([], Components(s)))
  }

  // ---------------------------------------------------------------- properties of the specification

  predicate Proper(c: string) {
    c != "" && c != "." && c != ".." && '/' !in c
  }

  ghost predicate AllProper(stack: seq<string>) {
    forall i :: 0 <= i < |stack| ==> Proper(stack[i])
  }

  lemma {:induction false} PushAllProper(stack: seq<string>, s: string)
    requires AllProper(stack) && (s != "" ==> s[0] == '/')
    ensures AllProper(PushAll(stack, Components(s)))
    decreases |s|
  {
    if s != "" {
      var j := NextSlash(s, 1);
      PushAllProper(Push(stack, s[1..j]), s[j..]);
    }
  }

  lemma FirstComponent(c: string, rest: string)
    requires '/' !in c && (rest != "" ==> rest[0] == '/')
    ensures Components("/" + c + rest) == [c] + Components(rest)
  {
    var s := "/" + c + rest;
    assert s[1..1 + |c|] == c && s[1 + |c|..] == rest;
    assert forall k :: 1 <= k < 1 + |c| ==> s[k] == c[k - 1];
    assert rest != "" ==> s[1 + |c|] == rest[0];
    assert NextSlash(s, 1) == 1 + |c|;
  }

  lemma {:induction false} JoinStart(stack: seq<string>)
    requires stack != []
    ensures Join(stack) != "" && Join(stack)[0] == '/'
    decreases |stack|
  {
    if |stack| > 1 { JoinStart(stack[..|stack| - 1]); }
  }

  lemma Regroup(init: seq<string>, c: string, rest: string, cs: seq<string>)
    ensures Join(init) + "/" + c + rest == Join(init) + ("/" + c + rest)
    ensures init + [c] + cs == init + ([c] + cs)
  {
  }

  /** The components of a rendered stack, appended to anything absolute, are that stack. */
  lemma {:induction false} ComponentsOfJoin(stack: seq<string>, rest: string)
    requires AllProper(stack) && (rest != "" ==> rest[0] == '/')
    ensures Join(stack) + rest != "" ==> (Join(stack) + rest)[0] == '/'
    ensures Components(Join(stack) + rest) == stack + Components(rest)
    decreases |stack|
  {
    if stack == [] {
      assert Join(stack) + rest == rest;
    } else {
      var init, c := stack[..|stack| - 1], stack[|stack| - 1];
      assert stack == init + [c] && Join(stack) == Join(init) + "/" + c;
      JoinStart(stack);
      FirstComponent(c, rest);
      ComponentsOfJoin(init, "/" + c + rest);
      hide Join, Components;
      Regroup(init, c, rest, Components(rest));
    }
  }

  lemma {:induction false} PushAllOfProper(stack: seq<string>, cs: seq<string>)
    requires AllProper(cs)
    ensures PushAll(stack, cs) == stack + cs
    decreases |cs|
  {
    if cs != [] {
      PushAllOfProper(stack + [cs[0]], cs[1..]);
      assert stack + [cs[0]] + cs[1..] == stack + cs;
    }
  }

  /** Normalising twice is normalising once, and the result is absolute. */
  lemma NormalizeIdempotent(s: string)
    requires s != "" && s[0] == '/'
    ensures Normalize(s) != "" && Normalize(s)[0] == '/'
    ensures Normalize(Normalize(s)) == Normalize(s)
  {
    var stack := PushAll([], Components(s));
    PushAllProper([], s);
    if stack == [] {
      FirstComponent("", "");
      assert "/" + "" + "" == "/";
      assert PushAll([], [""] + []) == [];
    } else {
      ComponentsOfJoin(stack, "");
      assert Join(stack) + "" == Join(stack);
      assert Components(Join(stack)) == stack;
      PushAllOfProper([], stack);
      assert [] + stack == stack;
    }
  }

  // ---------------------------------------------------------------- what a further component does

  lemma {:induction false} ComponentsSnoc(s: string, c: string)
    requires (s != "" ==> s[0] == '/') && '/' !in c
    ensures Components(s + "/" + c) == Components(s) + [c]
    decreases |s|
  {
    if s == "" {
      FirstComponent(c, "");
      assert "/" + c + "" == "" + "/" + c;
    } else {
      var j := NextSlash(s, 1);
      var first, rest := s[1..j], s[j..];
      assert s == "/" + first + rest;
      assert s + "/" + c == "/" + first + (rest + "/" + c);
      assert rest != "" ==> rest[0] == '/';
      FirstComponent(first, rest);
      FirstComponent(first, rest + "/" + c);
      ComponentsSnoc(rest, c);
    }
  }

  lemma {:induction false} PushAllSnoc(stack: seq<string>, cs: seq<string>, c: string)
    ensures PushAll(stack, cs + [c]) == Push(PushAll(stack, cs), c)
    decreases |cs|
  {
    if cs == [] {
      assert [] + [c] == [c];
    } else {
      assert (cs + [c])[1..] == cs[1..] + [c];
      PushAllSnoc(Push(stack, cs[0]), cs[1..], c);
    }
  }

  /** The stack that a path leaves. */
  function Stack(s: string): seq<string>
    requires s != "" ==> s[0] == '/'
  {
    PushAll([], Components(s))
  }

  lemma StackSnoc(s: string, c: string)
    requires (s != "" ==> s[0] == '/') && '/' !in c
    ensures Stack(s + "/" + c) == Push(Stack(s), c)
  {
    ComponentsSnoc(s, c);
    PushAllSnoc([], Components(s), c);
  }

  lemma IsRoot(s: string)
    requires s != "" && s[0] == '/'
    ensures Normalize(s) == "/" <==> Stack(s) == []
  {
    PushAllProper([], s);
    var stack := Stack(s);
    if stack != [] {
      var init, c := stack[..|stack| - 1], stack[|stack| - 1];
      assert Proper(c) && Join(stack) == Join(init) + "/" + c;
      assert |Join(stack)| >= 2;
    }
  }

  /** A further slash or `.` changes nothing; a name goes to the end; and `..` takes the name before it away, or
      stays at the root. So every path is what these rules make of it, one component at a time. */
  lemma FurtherComponent(s: string, c: string)
    requires s != "" && s[0] == '/' && '/' !in c
    ensures c == "" || c == "." ==> Normalize(s + "/" + c) == Normalize(s)
    ensures Proper(c) ==> Normalize(s + "/" + c) == (if Normalize(s) == "/" then "" else Normalize(s)) + "/" + c
    ensures Proper(c) ==> Normalize(s + "/" + c + "/" + "..") == Normalize(s)
    ensures Normalize(s) == "/" ==> Normalize(s + "/" + "..") == "/"
    ensures Normalize("/") == "/"
  {
    StackSnoc(s, c);
    StackSnoc(s, "..");
    StackSnoc(s + "/" + c, "..");
    StackSnoc("", "");
    assert "" + "/" + "" == "/";
    IsRoot(s);
    var stack := Stack(s);
    JoinSnoc(stack, c);
    hide Components, PushAll, Join;
  }

  lemma JoinSnoc(stack: seq<string>, c: string)
    ensures (stack + [c])[..|stack|] == stack && Join(stack + [c]) == Join(stack) + "/" + c
    ensures Join([]) == ""
  {
  }

  /** A name and the `..` behind it cancel out anywhere. */
  lemma {:induction false} Cancels(s: string, c: string, cs: seq<string>)
    requires (s != "" ==> s[0] == '/') && Proper(c) && forall i :: 0 <= i < |cs| ==> '/' !in cs[i]
    ensures Absolute(s + "/" + c + "/" + "..", cs) != "" && Absolute(s + "/" + c + "/" + "..", cs)[0] == '/'
    ensures Absolute(s, cs) != "" ==> Absolute(s, cs)[0] == '/'
    ensures Stack(Absolute(s + "/" + c + "/" + "..", cs)) == Stack(Absolute(s, cs))
    decreases |cs|
  {
    if cs == [] {
      StackSnoc(s, c);
      StackSnoc(s + "/" + c, "..");
      assert (Stack(s) + [c])[..|Stack(s)|] == Stack(s);
    } else {
      var front, last := cs[..|cs| - 1], cs[|cs| - 1];
      Cancels(s, c, front);
      StackSnoc(Absolute(s, front), last);
      StackSnoc(Absolute(s + "/" + c + "/" + "..", front), last);
    }
  }

  /** `s` with further components. */
  function Absolute(s: string, cs: seq<string>): string {
    if cs == [] then s else Absolute(s, cs[..|cs| - 1]) + "/" + cs[|cs| - 1]
  }

  // ---------------------------------------------------------------- the in-place rewriter

  /** The loop of `path_clean`: the buffer before `q` holds the rendered stack `stk`, the buffer from `p` on
      is still the input, and pushing what is left of the input onto `stk` gives the final stack. Only when
      the input is used up can there be a trailing slash. */
  ghost predicate Cleaning(buf: string, path: string, p: nat, q: nat, stk: seq<string>) {
    && path != "" && path[0] == '/' && |path| < |buf|
    && q <= p <= |path| && buf[p..|path|] == path[p..] && buf[|path|] == '\0' && buf[0] == '/'
    && AllProper(stk)
    && (p < |path| ==> path[p] == '/' && buf[..q] == Join(stk))
    && (p == |path| ==> buf[..q] == Join(stk) || buf[..q] == Join(stk) + "/")
    && PushAll(stk, Components(path[p..])) == PushAll([], Components(path))
  }

  lemma SlashAt(path: string, i: nat, j: nat)
    requires i <= j <= |path| && (forall k :: i <= k < j ==> path[k] != '/') && (j < |path| ==> path[j] == '/')
    ensures NextSlash(path, i) == j
  {
  }

  /** Splitting off the next component of what is left. */
  lemma Peel(path: string, p: nat, j: nat, stk: seq<string>)
    requires p < j <= |path| && path[p] == '/'
    requires (forall k :: p < k < j ==> path[k] != '/') && (j < |path| ==> path[j] == '/')
    ensures PushAll(stk, Components(path[p..])) == PushAll(Push(stk, path[p + 1..j]), Components(path[j..]))
  {
    var s := path[p..];
    SlashAt(s, 1, j - p);
    assert s[1..j - p] == path[p + 1..j] && s[j - p..] == path[j..];
  }

  /** The component ending before `j` is dropped. */
  lemma DropStep(buf: string, path: string, p: nat, q: nat, stk: seq<string>, j: nat)
    requires Cleaning(buf, path, p, q, stk) && p < j <= |path|
    requires (forall k :: p < k < j ==> path[k] != '/') && (j < |path| ==> path[j] == '/')
    requires path[p + 1..j] == "" || path[p + 1..j] == "."
    ensures Cleaning(buf, path, j, q, stk)
  {
    Peel(path, p, j, stk);
    assert buf[j..|path|] == buf[p..|path|][j - p..];
  }

  /** The component ending before `j` is "..": the last component on the stack goes. */
  lemma PopStep(buf: string, path: string, p: nat, q: nat, stk: seq<string>, j: nat, q': nat)
    requires Cleaning(buf, path, p, q, stk) && p < j <= |path| && q' <= q
    requires (forall k :: p < k < j ==> path[k] != '/') && (j < |path| ==> path[j] == '/')
    requires path[p + 1..j] == ".." && buf[..q'] == Join(Push(stk, ".."))
    ensures Cleaning(buf, path, j, q', Push(stk, ".."))
  {
    Peel(path, p, j, stk);
    assert buf[j..|path|] == buf[p..|path|][j - p..];
  }

  /** The component ending before `j` has been copied down. It is empty only at the end of the path. */
  lemma CopyStep(buf: string, buf': string, path: string, p: nat, q: nat, stk: seq<string>, j: nat)
    requires Cleaning(buf, path, p, q, stk) && p < j <= |path| && |buf'| == |buf|
    requires (forall k :: p < k < j ==> path[k] != '/') && (j < |path| ==> path[j] == '/')
    requires path[p + 1..j] == "" ==> j == |path|
    requires path[p + 1..j] != "." && path[p + 1..j] != ".."
    requires buf'[..q + (j - p)] == buf[..q] + path[p..j] && buf'[j..] == buf[j..]
    ensures Cleaning(buf', path, j, q + (j - p), Push(stk, path[p + 1..j]))
  {
    Peel(path, p, j, stk);
    CopyBuffer(buf, buf', path, p, q, j);
    CopyStack(stk, path, p, j);
    hide Components, PushAll, Push, Join, Proper;
  }

  lemma CopyBuffer(buf: string, buf': string, path: string, p: nat, q: nat, j: nat)
    requires q <= p < j <= |path| < |buf| == |buf'| && buf[p..|path|] == path[p..] && path[p] == '/' && buf[0] == '/'
    requires buf'[..q + (j - p)] == buf[..q] + path[p..j] && buf'[j..] == buf[j..]
    ensures buf'[j..|path|] == path[j..] && buf'[|path|] == buf[|path|] && buf'[0] == '/'
  {
    assert buf'[j..|path|] == buf'[j..][..|path| - j] == buf[p..|path|][j - p..];
    assert buf'[|path|] == buf'[j..][|path| - j];
    assert buf'[0] == buf'[..q + (j - p)][0];
    assert q > 0 ==> buf[0] == buf[..q][0];
  }

  /** The stack after a copied component, and how it renders. */
  lemma CopyStack(stk: seq<string>, path: string, p: nat, j: nat)
    requires AllProper(stk) && p < j <= |path| && path[p] == '/' && (forall k :: p < k < j ==> path[k] != '/')
    requires path[p + 1..j] != "." && path[p + 1..j] != ".."
    ensures AllProper(Push(stk, path[p + 1..j]))
    ensures path[p + 1..j] == "" ==> Push(stk, path[p + 1..j]) == stk && Join(stk) + path[p..j] == Join(stk) + "/"
    ensures path[p + 1..j] != "" ==> Join(Push(stk, path[p + 1..j])) == Join(stk) + path[p..j]
  {
    var c := path[p + 1..j];
    assert path[p..j] == "/" + c;
    if c != "" {
      assert Proper(c);
      assert (stk + [c])[..|stk|] == stk;
      assert Join(stk + [c]) == Join(stk) + "/" + c;
    }
  }

  /** Back to the slash of the last component of the stack. */
  method Back(a: array<char>, q0: nat, ghost stk: seq<string>) returns (q: nat)
    requires q0 <= a.Length && a[..q0] == Join(stk) && AllProper(stk)
    ensures q <= q0 && a[..q] == Join(if stk == [] then [] else stk[..|stk| - 1])
  {
    q := q0;
    if q > 0 {
      ghost var init, c := stk[..|stk| - 1], stk[|stk| - 1];
      assert Join(stk) == Join(init) + "/" + c;
      ghost var n := |Join(init)|;
      assert Proper(c);
      assert a[..q0][n] == '/' && forall k :: n < k < q0 ==> a[..q0][k] == c[k - n - 1];
      assert forall k :: n < k < q0 ==> a[k] == a[..q0][k] && a[k] != '/';
      q := q - 1;
      while a[q] != '/'
        invariant n <= q < q0
        decreases q
      {
        q := q - 1;
      }
      assert a[..q] == a[..q0][..n];
    }
  }

  /** The `do`-`while` loop of `path_clean`: moves a slash and the component after it down to `q0`. */
  method Copy(a: array<char>, len: nat, p0: nat, q0: nat) returns (p: nat, q: nat)
    requires q0 <= p0 < len < a.Length
    modifies a
    ensures p0 < p <= len && q == q0 + (p - p0) && (p < len ==> a[p] == '/')
    ensures forall k :: p0 < k < p ==> old(a[k]) != '/'
    ensures a[..q] == old(a[..q0]) + old(a[p0..p]) && forall k :: p <= k < a.Length ==> a[k] == old(a[k])
  {
    p, q := p0, q0;
    a[q] := a[p];
    p, q := p + 1, q + 1;
    while p < len && a[p] != '/'
      invariant p0 < p <= len && q == q0 + (p - p0)
      invariant forall k :: p0 < k < p ==> old(a[k]) != '/'
      invariant a[..q] == old(a[..q0]) + old(a[p0..p]) && forall k :: p <= k < a.Length ==> a[k] == old(a[k])
    {
      ghost var before := a[..q];
      a[q] := a[p];
      assert a[..q + 1] == before + [a[q]] && old(a[p0..p + 1]) == old(a[p0..p]) + [a[q]];
      p, q := p + 1, q + 1;
    }
  }

  /** What the buffer shows ahead of the read position is the input, up to its NUL. */
  lemma Lookahead(a: array<char>, path: string, p: nat, q: nat, stk: seq<string>)
    requires Cleaning(a[..], path, p, q, stk) && p < |path| && forall k :: 0 <= k < |path| ==> path[k] != '\0'
    ensures q <= p && path[p] == '/' && a[..q] == Join(stk) && AllProper(stk) && |path| < a.Length
    ensures forall k :: p <= k < |path| ==> a[k] == path[k]
    ensures a[|path|] == '\0'
  {
    assert forall k :: p <= k < |path| ==> a[k] == a[..][k] && a[..][k] == a[..][p..|path|][k - p];
    assert a[..][|path|] == a[|path|];
  }

  lemma PushDots(stk: seq<string>)
    ensures Push(stk, "..") == if stk == [] then [] else stk[..|stk| - 1]
  {
  }

  lemma NotDots(path: string, p: nat, j: nat)
    requires p < j <= |path|
    ensures path[p + 1..j] == "." ==> j == p + 2 && path[p + 1] == '.'
    ensures path[p + 1..j] == ".." ==> j == p + 3 && path[p + 1] == '.' && path[p + 2] == '.'
  {
    assert p + 1 < j ==> path[p + 1..j][0] == path[p + 1];
    assert p + 2 < j ==> path[p + 1..j][1] == path[p + 2];
  }

  /** The branch that copies a component; it is neither empty, unless it is the last, nor `.` nor `..`. */
  method CopyComponent(a: array<char>, len: nat, p0: nat, q0: nat, ghost path: string, ghost stk0: seq<string>)
    returns (p: nat, q: nat, ghost stk: seq<string>)
    requires Cleaning(a[..], path, p0, q0, stk0) && p0 < len == |path| < a.Length && q0 <= p0
    requires forall k :: p0 <= k < |path| ==> a[k] == path[k]
    requires a[len] == '\0' && a[p0 + 1] != '/'
    requires a[p0 + 1] == '.' ==> a[p0 + 2] != '/' && a[p0 + 2] != '\0'
    requires a[p0 + 1] == '.' && a[p0 + 2] == '.' ==> a[p0 + 3] != '/' && a[p0 + 3] != '\0'
    modifies a
    ensures Cleaning(a[..], path, p, q, stk) && p0 < p <= len
    ensures forall k :: len < k < a.Length ==> a[k] == old(a[k])
  {
    hide Cleaning, Join, Components, PushAll, Push;
    ghost var buf := a[..];
    p, q := Copy(a, len, p0, q0);
    NotDots(path, p0, p);
    assert buf[p0..p] == path[p0..p];
    assert a[..][p..] == buf[p..];
    assert a[..][..q] == buf[..q0] + path[p0..p];
    CopyStep(buf, a[..], path, p0, q0, stk0, p);
    stk := Push(stk0, path[p0 + 1..p]);
  }

  /** One round of the loop. */
  method CleanStep(a: array<char>, len: nat, p0: nat, q0: nat, ghost path: string, ghost stk0: seq<string>)
    returns (p: nat, q: nat, ghost stk: seq<string>)
    requires Cleaning(a[..], path, p0, q0, stk0) && p0 < len == |path| < a.Length
    requires forall k :: 0 <= k < |path| ==> path[k] != '\0'
    modifies a
    ensures Cleaning(a[..], path, p, q, stk) && p0 < p <= len
    ensures forall k :: len < k < a.Length ==> a[k] == old(a[k])
  {
    hide Cleaning, Join, Components, PushAll, Push;
    p, q, stk := p0, q0, stk0;
    Lookahead(a, path, p, q, stk);
    if a[p + 1] == '/' {
      DropStep(a[..], path, p, q, stk, p + 1);
      p := p + 1;
    } else if a[p + 1] == '.' && (a[p + 2] == '/' || a[p + 2] == '\0') {
      assert path[p + 1..p + 2] == ".";
      DropStep(a[..], path, p, q, stk, p + 2);
      p := p + 2;
    } else if a[p + 1] == '.' && a[p + 2] == '.' && (a[p + 3] == '/' || a[p + 3] == '\0') {
      var back := Back(a, q, stk);
      assert path[p + 1..p + 3] == "..";
      assert Push(stk, "..") == if stk == [] then [] else stk[..|stk| - 1] by { PushDots(stk); }
      PopStep(a[..], path, p, q, stk, p + 3, back);
      p, q, stk := p + 3, back, Push(stk, "..");
    } else {
      p, q, stk := CopyComponent(a, len, p0, q0, path, stk0);
    }
  }

  /** `path_clean`. The path is `a[..len]`, followed by its NUL; the result is `a[..outLen]`. */
  method Clean(a: array<char>, len: nat) returns (outLen: nat)
    requires 0 < len < a.Length && a[0] == '/' && a[len] == '\0' && forall k :: 0 <= k < len ==> a[k] != '\0'
    modifies a
    ensures 0 < outLen <= len && a[..outLen] == Normalize(old(a[..len])) && a[outLen] == '\0'
    ensures forall k :: len < k < a.Length ==> a[k] == old(a[k])
  {
    ghost var path := a[..len];
    ghost var stk: seq<string> := [];
    var p: nat, q: nat := 0, 0;
    assert path[0..] == path;
    while p < len
      invariant Cleaning(a[..], path, p, q, stk) && a.Length > len == |path|
      invariant forall k :: len < k < a.Length ==> a[k] == old(a[k])
      decreases len - p
    {
      p, q, stk := CleanStep(a, len, p, q, path, stk);
    }
    assert path[len..] == "" && stk == PushAll([], Components(path));
    assert q <= len && (a[..q] == a[..][..q]) && a[..][0] == a[0];
    hide Cleaning, Join, Components, PushAll;
    q := Ending(a, q, stk);
    ghost var out := a[..q];
    a[q] := '\0';
    assert a[..q] == out;
    outLen := q;
  }

  /** The slash of an empty path is kept, any other at the end is dropped. */
  method Ending(a: array<char>, q0: nat, ghost stk: seq<string>) returns (q: nat)
    requires q0 <= a.Length && a.Length > 0 && a[0] == '/' && AllProper(stk)
    requires a[..q0] == Join(stk) || a[..q0] == Join(stk) + "/"
    ensures 0 < q <= a.Length && (q <= q0 || q == 1) && a[..q] == Render(stk)
  {
    JoinEnd(stk);
    q := q0;
    assert q > 0 ==> a[q - 1] == a[..q][q - 1];
    if q == 0 {
      q := q + 1;
      assert a[..1] == "/";
    } else if q > 1 && a[q - 1] == '/' {
      q := q - 1;
      assert a[..q] == a[..q + 1][..q];
    }
  }

  /** A rendered stack is empty or ends in the last character of a component. */
  lemma JoinEnd(stack: seq<string>)
    requires AllProper(stack)
    ensures stack != [] ==> |Join(stack)| > 1 && Join(stack)[|Join(stack)| - 1] != '/'
  {
    if stack != [] {
      var c := stack[|stack| - 1];
      assert Proper(c);
      assert Join(stack)[|Join(stack)| - 1] == c[|c| - 1];
    }
  }
}
