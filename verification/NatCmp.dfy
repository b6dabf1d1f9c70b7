/** Natural ordering of file names: src/strnatcmp.c, and the comparator built on it in src/sort.c.

    `nat_char` is a signed `char`; a string is the characters before its NUL. */
module NatOrder {

  type NatChar = c: int | -128 <= c < 128 witness 0

  ghost predicate IsString(s: seq<NatChar>) {
    forall i :: 0 <= i < |s| ==> s[i] != 0
  }

  predicate IsDigit(c: NatChar) {
    48 <= c <= 57
  }

  predicate IsSpace(c: NatChar) {
    c == 32 || 9 <= c <= 13
  }

  function ToUpper(c: NatChar): NatChar {
    if 97 <= c <= 122 then c - 32 else c
  }

  function Fold(c: NatChar, fold: bool): NatChar {
    if fold then ToUpper(c) else c
  }

  function Sign(x: int): int {
    if x < 0 then -1 else if x > 0 then 1 else 0
  }

  // ---------------------------------------------------------------- token lists

  /** A name as a list of tokens: spaces are dropped, a run of digits is one token. */
  datatype Token = Run(digits: seq<NatChar>) | Byte(c: NatChar)

  /** The digits a string starts with. */
  function LeadingRun(s: seq<NatChar>): (r: seq<NatChar>)
    ensures |r| <= |s| && r == s[..|r|] && (forall i :: 0 <= i < |r| ==> IsDigit(r[i]))
    ensures |r| < |s| ==> !IsDigit(s[|r|])
  {
    if s != [] && IsDigit(s[0]) then [s[0]] + LeadingRun(s[1..]) else []
  }

  function Tokens(s: seq<NatChar>, fold: bool): seq<Token>
    decreases |s|
  {
    if s == [] then []
    else if IsSpace(s[0]) then Tokens(s[1..], fold)
    else if IsDigit(s[0]) then [Run(LeadingRun(s))] + Tokens(s[|LeadingRun(s)|..], fold)
    else [Byte(Fold(s[0], fold))] + Tokens(s[1..], fold)
  }

  // ---------------------------------------------------------------- the order on token lists

  function Lex(x: seq<NatChar>, y: seq<NatChar>): int {
    if x == [] && y == [] then 0
    else if x == [] then -1
    else if y == [] then 1
    else if x[0] != y[0] then Sign((x[0] as int) - (y[0] as int))
    else Lex(x[1..], y[1..])
  }

  /** Numbers without a leading zero: the longer one is greater, then the first different digit decides. */
  function RightCompare(x: seq<NatChar>, y: seq<NatChar>): int {
    if |x| != |y| then Sign(|x| - |y|) else Lex(x, y)
  }

  /** A run with a leading zero is a fraction and compares digit by digit. */
  function RunCompare(x: seq<NatChar>, y: seq<NatChar>): int
    requires x != [] && y != []
  {
    if x[0] == 48 || y[0] == 48 then Lex(x, y) else RightCompare(x, y)
  }

  ghost predicate WellFormed(t: Token) {
    match t
    case Run(d) => d != [] && forall i :: 0 <= i < |d| ==> IsDigit(d[i])
    case Byte(c) => !IsDigit(c) && c != 0
  }

  ghost predicate AllWellFormed(ts: seq<Token>) {
    forall i :: 0 <= i < |ts| ==> WellFormed(ts[i])
  }

  function First(t: Token): NatChar
    requires t.Run? ==> t.digits != []
  {
    match t
    case Run(d) => d[0]
    case Byte(c) => c
  }

  function TokenCompare(t: Token, u: Token): int
    requires (t.Run? ==> t.digits != []) && (u.Run? ==> u.digits != [])
  {
    if t.Run? && u.Run? then RunCompare(t.digits, u.digits) else Sign(First(t) - First(u))
  }

  /** Lexicographic order on token lists; the end of a list counts as the character 0, so a character with
      the high bit set, being negative, sorts before it. */
  ghost function Compare(ts: seq<Token>, us: seq<Token>): int
    requires AllWellFormed(ts) && AllWellFormed(us)
    decreases |ts| + |us|
  {
    if ts == [] && us == [] then 0
    else if ts == [] then Sign(0 - First(us[0]))
    else if us == [] then Sign(First(ts[0]))
    else if TokenCompare(ts[0], us[0]) != 0 then TokenCompare(ts[0], us[0])
    else Compare(ts[1..], us[1..])
  }

  lemma {:induction false} TokensWellFormed(s: seq<NatChar>, fold: bool)
    requires IsString(s)
    ensures AllWellFormed(Tokens(s, fold))
    decreases |s|
  {
    if s != [] {
      if IsDigit(s[0]) {
        TokensWellFormed(s[|LeadingRun(s)|..], fold);
      } else {
        TokensWellFormed(s[1..], fold);
      }
    }
  }

  // ---------------------------------------------------------------- it is an order

  lemma {:induction false} LexLaws(x: seq<NatChar>, y: seq<NatChar>)
    ensures -1 <= Lex(x, y) <= 1 && Lex(y, x) == -Lex(x, y) && (Lex(x, y) == 0 <==> x == y)
  {
    if x != [] && y != [] && x[0] == y[0] {
      LexLaws(x[1..], y[1..]);
      assert x == [x[0]] + x[1..] && y == [y[0]] + y[1..];
    }
  }

  lemma {:induction false} LexTransitive(x: seq<NatChar>, y: seq<NatChar>, z: seq<NatChar>)
    requires Lex(x, y) <= 0 && Lex(y, z) <= 0
    ensures Lex(x, z) <= 0
  {
    if x != [] && y != [] && z != [] && x[0] == y[0] && y[0] == z[0] {
      LexTransitive(x[1..], y[1..], z[1..]);
    }
  }

  lemma TokenLaws(t: Token, u: Token)
    requires WellFormed(t) && WellFormed(u)
    ensures -1 <= TokenCompare(t, u) <= 1 && TokenCompare(u, t) == -TokenCompare(t, u)
    ensures TokenCompare(t, u) == 0 <==> t == u
  {
    if t.Run? && u.Run? { LexLaws(t.digits, u.digits); }
  }

  lemma TokenTransitive(t: Token, u: Token, v: Token)
    requires WellFormed(t) && WellFormed(u) && WellFormed(v)
    requires TokenCompare(t, u) <= 0 && TokenCompare(u, v) <= 0
    ensures TokenCompare(t, v) <= 0
  {
    if t.Run? && u.Run? && v.Run? {
      LexLaws(t.digits, u.digits);
      LexLaws(u.digits, v.digits);
      if Lex(t.digits, u.digits) <= 0 && Lex(u.digits, v.digits) <= 0 {
        LexTransitive(t.digits, u.digits, v.digits);
      }
    }
  }

  /** The comparison is antisymmetric, and 0 exactly on equal token lists. */
  lemma {:induction false} CompareLaws(ts: seq<Token>, us: seq<Token>)
    requires AllWellFormed(ts) && AllWellFormed(us)
    ensures -1 <= Compare(ts, us) <= 1 && Compare(us, ts) == -Compare(ts, us)
    ensures Compare(ts, us) == 0 <==> ts == us
    decreases |ts| + |us|
  {
    if ts != [] && us != [] {
      TokenLaws(ts[0], us[0]);
      if ts[0] == us[0] {
        CompareLaws(ts[1..], us[1..]);
        assert ts == [ts[0]] + ts[1..] && us == [us[0]] + us[1..];
      }
    }
  }

  /** The comparison is transitive. */
  lemma {:induction false} CompareTransitive(ts: seq<Token>, us: seq<Token>, vs: seq<Token>)
    requires AllWellFormed(ts) && AllWellFormed(us) && AllWellFormed(vs)
    requires Compare(ts, us) <= 0 && Compare(us, vs) <= 0
    ensures Compare(ts, vs) <= 0
    decreases |ts| + |us| + |vs|
  {
    if ts != [] && us != [] && vs != [] {
      TokenLaws(ts[0], us[0]);
      TokenLaws(us[0], vs[0]);
      TokenLaws(ts[0], vs[0]);
      TokenTransitive(ts[0], us[0], vs[0]);
      if ts[0] == us[0] == vs[0] {
        CompareTransitive(ts[1..], us[1..], vs[1..]);
      }
    }
  }

  // ---------------------------------------------------------------- facts the comparator's loops need

  lemma {:induction false} LexSnoc(x: seq<NatChar>, y: seq<NatChar>, k: nat)
    requires k < |x| && k < |y|
    ensures Lex(x[..k + 1], y[..k + 1]) ==
      if Lex(x[..k], y[..k]) != 0 then Lex(x[..k], y[..k]) else Sign((x[k] as int) - (y[k] as int))
  {
    if k > 0 && x[0] == y[0] {
      LexSnoc(x[1..], y[1..], k - 1);
      assert x[..k + 1][1..] == x[1..][..k] && y[..k + 1][1..] == y[1..][..k];
      assert x[..k][1..] == x[1..][..k - 1] && y[..k][1..] == y[1..][..k - 1];
    }
  }

  /** Two strings that agree on their first `k` characters and then differ, or one of which ends there. */
  lemma {:induction false} LexAt(x: seq<NatChar>, y: seq<NatChar>, k: nat)
    requires k <= |x| && k <= |y| && x[..k] == y[..k]
    ensures Lex(x, y) == Lex(x[k..], y[k..])
  {
    if k > 0 {
      assert x[0] == x[..k][0] && y[0] == y[..k][0];
      assert x[1..][..k - 1] == x[..k][1..] && y[1..][..k - 1] == y[..k][1..];
      LexAt(x[1..], y[1..], k - 1);
      assert x[1..][k - 1..] == x[k..] && y[1..][k - 1..] == y[k..];
    }
  }

  lemma RunStep(s: seq<NatChar>, fold: bool)
    requires s != [] && IsDigit(s[0])
    ensures Tokens(s, fold) == [Run(LeadingRun(s))] + Tokens(s[|LeadingRun(s)|..], fold)
    ensures LeadingRun(s) == [s[0]] + LeadingRun(s[1..])
    ensures Tokens(s[1..], fold) ==
      (if |LeadingRun(s)| > 1 then [Run(LeadingRun(s)[1..])] else []) + Tokens(s[|LeadingRun(s)|..], fold)
  {
    var n := |LeadingRun(s)|;
    assert s[1..][n - 1..] == s[n..];
    if n == 1 {
      assert s[1..] == s[n..];
    }
  }

  /** One digit of equal runs may be dropped: after comparing them the loop only steps over their first digit. */
  lemma EqualRunStep(a: seq<NatChar>, b: seq<NatChar>, fold: bool)
    requires IsString(a) && IsString(b) && a != [] && b != [] && IsDigit(a[0]) && LeadingRun(a) == LeadingRun(b)
    ensures AllWellFormed(Tokens(a, fold)) && AllWellFormed(Tokens(b, fold))
    ensures AllWellFormed(Tokens(a[1..], fold)) && AllWellFormed(Tokens(b[1..], fold))
    ensures Compare(Tokens(a, fold), Tokens(b, fold)) == Compare(Tokens(a[1..], fold), Tokens(b[1..], fold))
  {
    var n := |LeadingRun(a)|;
    TokensWellFormed(a, fold);
    TokensWellFormed(b, fold);
    TokensWellFormed(a[1..], fold);
    TokensWellFormed(b[1..], fold);
    assert IsDigit(LeadingRun(b)[0]);
    RunStep(a, fold);
    RunStep(b, fold);
    hide Tokens, LeadingRun;
    SameHead(Run(LeadingRun(a)), Tokens(a[n..], fold), Tokens(b[n..], fold));
    if n > 1 {
      SameHead(Run(LeadingRun(a)[1..]), Tokens(a[n..], fold), Tokens(b[n..], fold));
    }
  }

  /** Equal first tokens do not matter. */
  lemma SameHead(t: Token, ts: seq<Token>, us: seq<Token>)
    requires AllWellFormed([t] + ts) && AllWellFormed([t] + us)
    ensures AllWellFormed(ts) && AllWellFormed(us) && Compare([t] + ts, [t] + us) == Compare(ts, us)
  {
    assert WellFormed(([t] + ts)[0]);
    assert forall i :: 0 <= i < |ts| ==> ts[i] == ([t] + ts)[i + 1];
    assert forall i :: 0 <= i < |us| ==> us[i] == ([t] + us)[i + 1];
    TokenLaws(t, t);
    assert ([t] + ts)[1..] == ts && ([t] + us)[1..] == us;
  }
}

/** What the order means for the numbers and characters in names. */
module NatMeaning {
  import opened NatOrder

  // ---------------------------------------------------------------- runs of digits as numbers

  ghost predicate AllDigits(x: seq<NatChar>) {
    forall i :: 0 <= i < |x| ==> IsDigit(x[i])
  }

  /** The decimal value. */
  function Number(x: seq<NatChar>): int {
    if x == [] then 0 else 10 * Number(x[..|x| - 1]) + (x[|x| - 1] as int - 48)
  }

  function Pow10(n: nat): int {
    if n == 0 then 1 else 10 * Pow10(n - 1)
  }

  lemma {:induction false} NumberCons(x: seq<NatChar>)
    requires x != []
    ensures Number(x) == (x[0] as int - 48) * Pow10(|x| - 1) + Number(x[1..])
  {
    var n := |x| - 1;
    if n > 0 {
      NumberCons(x[..n]);
      assert x[..n][1..] == x[1..][..n - 1];
      TenTimes(x[0] as int - 48, Pow10(n - 1));
    } else {
      assert x[..0] == [];
    }
  }

  lemma TenTimes(d: int, p: int)
    ensures 10 * (d * p) == d * (10 * p)
  {
  }

  lemma {:induction false} PowPositive(n: nat)
    ensures Pow10(n) > 0
  {
    if n > 0 { PowPositive(n - 1); }
  }

  lemma {:induction false} NumberBounds(x: seq<NatChar>)
    requires AllDigits(x)
    ensures 0 <= Number(x) < Pow10(|x|)
  {
    if x != [] { NumberBounds(x[..|x| - 1]); }
  }

  /** The fraction 0.x minus the fraction 0.y, times a positive power of ten. */
  function Difference(x: seq<NatChar>, y: seq<NatChar>): int {
    Number(x) * Pow10(|y|) - Number(y) * Pow10(|x|)
  }

  /** Comparing digit by digit is comparing as decimal fractions, and equal fractions by length. */
  lemma {:induction false} LexIsFraction(x: seq<NatChar>, y: seq<NatChar>)
    requires AllDigits(x) && AllDigits(y)
    ensures Lex(x, y) == if Difference(x, y) != 0 then Sign(Difference(x, y)) else Sign(|x| - |y|)
  {
    NumberBounds(x);
    NumberBounds(y);
    if x != [] && y != [] {
      var a, b := x[0] as int - 48, y[0] as int - 48;
      var p, q := Pow10(|x| - 1), Pow10(|y| - 1);
      var m, n := Number(x[1..]), Number(y[1..]);
      NumberCons(x);
      NumberCons(y);
      NumberBounds(x[1..]);
      NumberBounds(y[1..]);
      Leading(a, b, p, q, m, n);
      if a == b { LexIsFraction(x[1..], y[1..]); }
      hide Number, Pow10, AllDigits;
    }
  }

  /** Two fractions with the leading digits `a` and `b`. */
  lemma Leading(a: int, b: int, p: int, q: int, m: int, n: int)
    requires 0 <= m < p && 0 <= n < q
    ensures var diff := (a * p + m) * (10 * q) - (b * q + n) * (10 * p);
      && (a == b ==> diff == 10 * (m * q - n * p))
      && (a > b ==> diff > 0) && (a < b ==> diff < 0)
  {
    Expand(a, p, m, q);
    Expand(b, q, n, p);
    Below(m, p, q);
    Below(n, q, p);
    Apart(a, b, p * q);
    assert p * q == q * p;
  }

  lemma Expand(a: int, p: int, m: int, q: int)
    ensures (a * p + m) * (10 * q) == 10 * (a * (p * q)) + 10 * (m * q)
  {
    assert (a * p) * (10 * q) == 10 * (a * (p * q));
  }

  lemma Below(m: int, p: int, q: int)
    requires 0 <= m < p && 0 < q
    ensures 0 <= m * q < p * q
  {
  }

  lemma Apart(a: int, b: int, r: int)
    requires r > 0
    ensures a > b ==> a * r >= b * r + r
    ensures a < b ==> a * r <= b * r - r
  {
    if a > b {
      AtLeastOnce(a - b, r);
      assert (a - b) * r == a * r - b * r;
    } else if a < b {
      AtLeastOnce(b - a, r);
      assert (b - a) * r == b * r - a * r;
    }
  }

  lemma {:induction false} AtLeastOnce(k: int, r: int)
    requires k >= 1 && r >= 0
    ensures k * r >= r
  {
    if k > 1 { AtLeastOnce(k - 1, r); }
  }

  /** Numbers without a leading zero compare by their value. */
  lemma RightIsNumeric(x: seq<NatChar>, y: seq<NatChar>)
    requires AllDigits(x) && AllDigits(y) && x != [] && y != [] && x[0] != 48 && y[0] != 48
    ensures RightCompare(x, y) == Sign(Number(x) - Number(y))
  {
    NumberBounds(x);
    NumberBounds(y);
    if |x| == |y| {
      LexIsFraction(x, y);
      Scaled(Number(x), Number(y), Pow10(|x|));
    } else if |x| < |y| {
      Shorter(x, y);
    } else {
      Shorter(y, x);
    }
  }

  lemma Scaled(m: int, n: int, p: int)
    requires p > 0
    ensures m * p - n * p == (m - n) * p && Sign((m - n) * p) == Sign(m - n) && ((m - n) * p == 0 <==> m == n)
  {
    if m > n { assert (m - n) * p > 0; } else if m < n { assert (m - n) * p < 0; }
  }

  lemma Shorter(x: seq<NatChar>, y: seq<NatChar>)
    requires AllDigits(x) && AllDigits(y) && |x| < |y| && y[0] != 48
    ensures Number(x) < Number(y)
  {
    NumberBounds(x);
    NumberCons(y);
    NumberBounds(y[1..]);
    PowPositive(|y| - 1);
    PowMonotone(|x|, |y| - 1);
    Apart(y[0] as int - 48, 0, Pow10(|y| - 1));
    hide Number, Pow10;
  }

  lemma {:induction false} PowMonotone(m: nat, n: nat)
    requires m <= n
    ensures 0 < Pow10(m) <= Pow10(n)
  {
    PowPositive(m);
    if m < n { PowMonotone(m, n - 1); }
  }

  // ---------------------------------------------------------------- names with a common beginning

  /** Nothing of `p` is a run of digits that goes on in `s`. */
  predicate Splits(p: seq<NatChar>, s: seq<NatChar>) {
    p == [] || s == [] || !IsDigit(p[|p| - 1]) || !IsDigit(s[0])
  }

  lemma {:induction false} TokensConcat(p: seq<NatChar>, s: seq<NatChar>, fold: bool)
    requires Splits(p, s)
    ensures Tokens(p + s, fold) == Tokens(p, fold) + Tokens(s, fold)
    decreases |p|
  {
    if p == [] {
      assert p + s == s;
    } else {
      var n := if IsDigit(p[0]) then |LeadingRun(p)| else 1;
      assert p[n..] == [] || p[n..][|p| - n - 1] == p[|p| - 1];
      TokensConcat(p[n..], s, fold);
      hide Tokens, LeadingRun;
      if IsDigit(p[0]) { AfterRun(p, s, fold); } else { AfterByte(p, s, fold); }
    }
  }

  lemma AfterRun(p: seq<NatChar>, s: seq<NatChar>, fold: bool)
    requires p != [] && IsDigit(p[0]) && Splits(p, s)
    requires var rest := p[|LeadingRun(p)|..]; Tokens(rest + s, fold) == Tokens(rest, fold) + Tokens(s, fold)
    ensures Tokens(p + s, fold) == Tokens(p, fold) + Tokens(s, fold)
  {
    hide Tokens, LeadingRun;
    var run := LeadingRun(p);
    RunConcat(p, s);
    assert (p + s)[0] == p[0];
    RunTokens(p, run, fold);
    RunTokens(p + s, run, fold);
    assert (p + s)[|run|..] == p[|run|..] + s;
    Regroup([Run(run)], Tokens(p[|run|..], fold), Tokens(s, fold));
  }

  lemma RunTokens(s: seq<NatChar>, run: seq<NatChar>, fold: bool)
    requires s != [] && IsDigit(s[0]) && run == LeadingRun(s)
    ensures Tokens(s, fold) == [Run(run)] + Tokens(s[|run|..], fold)
  {
  }

  lemma AfterByte(p: seq<NatChar>, s: seq<NatChar>, fold: bool)
    requires p != [] && !IsDigit(p[0]) && Tokens(p[1..] + s, fold) == Tokens(p[1..], fold) + Tokens(s, fold)
    ensures Tokens(p + s, fold) == Tokens(p, fold) + Tokens(s, fold)
  {
    ByteStep(p, fold);
    assert (p + s)[0] == p[0];
    ByteStep(p + s, fold);
    assert (p + s)[1..] == p[1..] + s;
    hide Tokens;
    Regroup([Byte(Fold(p[0], fold))], Tokens(p[1..], fold), Tokens(s, fold));
  }

  lemma ByteStep(s: seq<NatChar>, fold: bool)
    requires s != [] && !IsDigit(s[0])
    ensures Tokens(s, fold) ==
      if IsSpace(s[0]) then Tokens(s[1..], fold) else [Byte(Fold(s[0], fold))] + Tokens(s[1..], fold)
  {
  }

  lemma Regroup(a: seq<Token>, b: seq<Token>, c: seq<Token>)
    ensures a + b + c == a + (b + c)
  {
  }

  lemma {:induction false} RunConcat(p: seq<NatChar>, s: seq<NatChar>)
    requires Splits(p, s) && p != []
    ensures LeadingRun(p + s) == LeadingRun(p)
  {
    if IsDigit(p[0]) {
      assert (p + s)[1..] == p[1..] + s;
      if |p| > 1 { RunConcat(p[1..], s); }
    }
  }

  lemma RunThen(x: seq<NatChar>, t: seq<NatChar>, fold: bool)
    requires AllDigits(x) && x != [] && (t != [] ==> !IsDigit(t[0]))
    ensures Tokens(x + t, fold) == [Run(x)] + Tokens(t, fold)
  {
    RunAll(x);
    RunConcat(x, t);
    assert (x + t)[|x|..] == t && (x + t)[0] == x[0];
  }

  lemma {:induction false} RunAll(x: seq<NatChar>)
    requires AllDigits(x)
    ensures LeadingRun(x) == x
  {
    if x != [] { RunAll(x[1..]); }
  }

  lemma {:induction false} CommonFront(ps: seq<Token>, ts: seq<Token>, us: seq<Token>)
    requires AllWellFormed(ps) && AllWellFormed(ts) && AllWellFormed(us)
    ensures AllWellFormed(ps + ts) && AllWellFormed(ps + us) && Compare(ps + ts, ps + us) == Compare(ts, us)
  {
    if ps == [] {
      assert ps + ts == ts && ps + us == us;
    } else {
      CommonFront(ps[1..], ts, us);
      assert ps + ts == [ps[0]] + (ps[1..] + ts) && ps + us == [ps[0]] + (ps[1..] + us);
      SameHead(ps[0], ps[1..] + ts, ps[1..] + us);
    }
  }

  /** The outcome for two names. */
  ghost function Order(a: seq<NatChar>, b: seq<NatChar>, fold: bool): int
    requires IsString(a) && IsString(b)
  {
    TokensWellFormed(a, fold);
    TokensWellFormed(b, fold);
    Compare(Tokens(a, fold), Tokens(b, fold))
  }

  /** What two names start with in common does not matter, unless it cuts a number in two. */
  lemma CommonBeginning(p: seq<NatChar>, a: seq<NatChar>, b: seq<NatChar>, fold: bool)
    requires IsString(p) && IsString(a) && IsString(b) && Splits(p, a) && Splits(p, b)
    ensures IsString(p + a) && IsString(p + b) && Order(p + a, p + b, fold) == Order(a, b, fold)
  {
    TokensConcat(p, a, fold);
    TokensConcat(p, b, fold);
    TokensWellFormed(p, fold);
    TokensWellFormed(a, fold);
    TokensWellFormed(b, fold);
    hide Tokens, AllWellFormed, Compare;
    CommonFront(Tokens(p, fold), Tokens(a, fold), Tokens(b, fold));
  }

  lemma FirstTokens(t: Token, ts: seq<Token>, u: Token, us: seq<Token>)
    requires AllWellFormed([t] + ts) && AllWellFormed([u] + us) && WellFormed(t) && WellFormed(u) &&
      TokenCompare(t, u) != 0
    ensures Compare([t] + ts, [u] + us) == TokenCompare(t, u)
  {
  }

  /** Names that agree up to a number, as a maximal run of digits without a leading zero, compare by its value. */
  lemma NumbersDecide(p: seq<NatChar>, x: seq<NatChar>, t: seq<NatChar>, y: seq<NatChar>, u: seq<NatChar>, fold: bool)
    requires IsString(p + x + t) && IsString(p + y + u) && IsNumber(p, x, t) && IsNumber(p, y, u)
    requires x[0] != 48 && y[0] != 48 && Number(x) != Number(y)
    ensures Order(p + x + t, p + y + u, fold) == Sign(Number(x) - Number(y))
  {
    RightIsNumeric(x, y);
    RunsDecide(p, x, t, y, u, fold);
  }

  /** With a leading zero in either run they compare as decimal fractions, and equal fractions by length. */
  lemma FractionsDecide(p: seq<NatChar>, x: seq<NatChar>, t: seq<NatChar>, y: seq<NatChar>, u: seq<NatChar>, fold: bool)
    requires IsString(p + x + t) && IsString(p + y + u) && IsNumber(p, x, t) && IsNumber(p, y, u)
    requires (x[0] == 48 || y[0] == 48) && x != y
    ensures Order(p + x + t, p + y + u, fold) ==
      if Difference(x, y) != 0 then Sign(Difference(x, y)) else Sign(|x| - |y|)
  {
    LexIsFraction(x, y);
    LexLaws(x, y);
    RunsDecide(p, x, t, y, u, fold);
  }

  /** `x` is a maximal run of digits between `p` and `t`. */
  ghost predicate IsNumber(p: seq<NatChar>, x: seq<NatChar>, t: seq<NatChar>) {
    AllDigits(x) && x != [] && (p != [] ==> !IsDigit(p[|p| - 1])) && (t != [] ==> !IsDigit(t[0]))
  }

  lemma RunsDecide(p: seq<NatChar>, x: seq<NatChar>, t: seq<NatChar>, y: seq<NatChar>, u: seq<NatChar>, fold: bool)
    requires IsString(p + x + t) && IsString(p + y + u) && IsNumber(p, x, t) && IsNumber(p, y, u) &&
      RunCompare(x, y) != 0
    ensures Order(p + x + t, p + y + u, fold) == RunCompare(x, y)
  {
    Parts(p, x, t);
    Parts(p, y, u);
    CommonBeginning(p, x + t, y + u, fold);
    RunThen(x, t, fold);
    RunThen(y, u, fold);
    TokensWellFormed(x + t, fold);
    TokensWellFormed(y + u, fold);
    assert p + (x + t) == p + x + t && p + (y + u) == p + y + u;
    hide Tokens, AllWellFormed, Compare, RunCompare;
    FirstTokens(Run(x), Tokens(t, fold), Run(y), Tokens(u, fold));
  }

  lemma Parts(p: seq<NatChar>, x: seq<NatChar>, t: seq<NatChar>)
    requires IsString(p + x + t)
    ensures IsString(p) && IsString(x + t) && p + (x + t) == p + x + t
  {
    assert forall i :: 0 <= i < |p| ==> p[i] == (p + x + t)[i];
    assert forall i :: 0 <= i < |x + t| ==> (x + t)[i] == (p + x + t)[|p| + i];
  }

  /** Names that agree up to two characters that are not both digits, and no spaces, compare by these, upper-cased
      if folding. */
  lemma CharactersDecide(p: seq<NatChar>, c: NatChar, t: seq<NatChar>, d: NatChar, u: seq<NatChar>, fold: bool)
    requires IsString(p) && IsString([c] + t) && IsString([d] + u) && Splits(p, [c]) && Splits(p, [d])
    requires !IsSpace(c) && !IsSpace(d) && !(IsDigit(c) && IsDigit(d)) && Fold(c, fold) != Fold(d, fold)
    ensures IsString(p + ([c] + t)) && IsString(p + ([d] + u))
    ensures Order(p + ([c] + t), p + ([d] + u), fold) == Sign(Fold(c, fold) - Fold(d, fold))
  {
    CommonBeginning(p, [c] + t, [d] + u, fold);
    TokensWellFormed([c] + t, fold);
    TokensWellFormed([d] + u, fold);
    HeadToken(c, t, fold);
    HeadToken(d, u, fold);
  }

  lemma HeadToken(c: NatChar, t: seq<NatChar>, fold: bool)
    requires !IsSpace(c)
    ensures var ts := Tokens([c] + t, fold);
      && ts != [] && (ts[0].Run? <==> IsDigit(c)) && (ts[0].Run? ==> ts[0].digits != []) &&
        First(ts[0]) == Fold(c, fold)
  {
  }

  /** A name comes before any that goes on where it ends; but a character with the high bit set is negative, and
      comes before the end. */
  lemma EndDecides(p: seq<NatChar>, c: NatChar, t: seq<NatChar>, fold: bool)
    requires IsString(p) && IsString([c] + t) && Splits(p, [c]) && !IsSpace(c)
    ensures IsString(p + ([c] + t)) && Order(p, p + ([c] + t), fold) == if c > 0 then -1 else 1
  {
    CommonBeginning(p, [], [c] + t, fold);
    assert p + [] == p;
    TokensWellFormed([c] + t, fold);
    HeadToken(c, t, fold);
  }

  /** `f9` comes before `f10`, and `f01` before `f1`. */
  lemma NumberExamples()
    ensures Order([102] + [57] + [], [102] + [49, 48] + [], false) == -1
    ensures Order([102] + [48, 49] + [], [102] + [49] + [], false) == -1
  {
    assert [49, 48][..1] == [49] && [48, 49][..1] == [48];
    assert Number([49]) == 1 && Number([48]) == 0 && Number([57]) == 9;
    assert Number([49, 48]) == 10 && Number([48, 49]) == 1;
    assert Pow10(1) == 10 && Pow10(2) == 100;
    hide Number, Pow10, Order;
    NumbersDecide([102], [57], [], [49, 48], [], false);
    FractionsDecide([102], [48, 49], [], [49], [], false);
  }

  /** `b` comes before `C` when folding, and behind it when not. */
  lemma CaseExample()
    ensures Order([] + ([98] + []), [] + ([67] + []), true) == -1
    ensures Order([] + ([98] + []), [] + ([67] + []), false) == 1
  {
    hide Order;
    CharactersDecide([], 98, [], 67, [], true);
    CharactersDecide([], 98, [], 67, [], false);
  }

  /** Spaces only separate numbers. */
  lemma SpacesAreDropped(p: seq<NatChar>, c: NatChar, s: seq<NatChar>, fold: bool)
    requires IsSpace(c)
    ensures Tokens(p + [c] + s, fold) == Tokens(p, fold) + Tokens(s, fold)
  {
    TokensConcat(p + [c], s, fold);
    TokensConcat(p, [c], fold);
    assert [c][1..] == [];
  }
}

module NatCmp {
  import opened NatOrder

  /** The character at index `i` of a NUL-terminated string. */
  function At(s: seq<NatChar>, i: nat): NatChar
    requires i <= |s|
  {
    if i < |s| then s[i] else 0
  }

  /** `compare_right`: the longest run of digits wins; for equal lengths the first difference, remembered in
      `bias`, does. */
  method CompareRight(a: seq<NatChar>, ai: nat, b: seq<NatChar>, bi: nat) returns (r: int)
    requires ai <= |a| && bi <= |b|
    ensures r == RightCompare(LeadingRun(a[ai..]), LeadingRun(b[bi..]))
  {
    ghost var x, y := LeadingRun(a[ai..]), LeadingRun(b[bi..]);
    var k := 0;
    var bias := 0;
    while true
      invariant k <= |x| && k <= |y|
      invariant bias == Lex(x[..k], y[..k])
      decreases |x| - k
    {
      var ca, cb := At(a, ai + k), At(b, bi + k);
      assert IsDigit(ca) <==> k < |x|;
      assert IsDigit(cb) <==> k < |y|;
      if !IsDigit(ca) && !IsDigit(cb) {
        assert x[..k] == x && y[..k] == y;
        return bias;
      }
      if !IsDigit(ca) { return -1; }
      if !IsDigit(cb) { return 1; }
      LexSnoc(x, y, k);
      if ca < cb {
        if bias == 0 { bias := -1; }
      } else if ca > cb {
        if bias == 0 { bias := 1; }
      }
      k := k + 1;
    }
  }

  /** `compare_left`: the first different digit wins, and a run that goes on beats one that has ended. */
  method CompareLeft(a: seq<NatChar>, ai: nat, b: seq<NatChar>, bi: nat) returns (r: int)
    requires ai <= |a| && bi <= |b|
    ensures r == Lex(LeadingRun(a[ai..]), LeadingRun(b[bi..]))
  {
    ghost var x, y := LeadingRun(a[ai..]), LeadingRun(b[bi..]);
    var k := 0;
    while true
      invariant k <= |x| && k <= |y| && x[..k] == y[..k]
      decreases |x| - k
    {
      var ca, cb := At(a, ai + k), At(b, bi + k);
      assert IsDigit(ca) <==> k < |x|;
      assert IsDigit(cb) <==> k < |y|;
      LexAt(x, y, k);
      if !IsDigit(ca) && !IsDigit(cb) { return 0; }
      if !IsDigit(ca) { return -1; }
      if !IsDigit(cb) { return 1; }
      if ca < cb { return -1; }
      if ca > cb { return 1; }
      assert x[..k + 1] == x[..k] + [x[k]] && y[..k + 1] == y[..k] + [y[k]];
      k := k + 1;
    }
  }

  method SkipSpaces(s: seq<NatChar>, i0: nat, ghost fold: bool) returns (i: nat)
    requires i0 <= |s| && IsString(s)
    ensures i0 <= i <= |s| && !IsSpace(At(s, i)) && Tokens(s[i..], fold) == Tokens(s[i0..], fold)
  {
    i := i0;
    while IsSpace(At(s, i))
      invariant i0 <= i <= |s| && Tokens(s[i..], fold) == Tokens(s[i0..], fold)
      decreases |s| - i
    {
      assert s[i..][1..] == s[i + 1..];
      i := i + 1;
    }
  }

  /** The comparison of what is left of two strings. */
  ghost function Outcome(a: seq<NatChar>, ai: nat, b: seq<NatChar>, bi: nat, fold: bool): int
    requires IsString(a) && IsString(b) && ai <= |a| && bi <= |b|
  {
    TokensWellFormed(a[ai..], fold);
    TokensWellFormed(b[bi..], fold);
    Compare(Tokens(a[ai..], fold), Tokens(b[bi..], fold))
  }

  /** `strnatcmp0`, and with `fold` `strnatcasecmp`: the sign of the comparison of the token lists. */
  method StrNatCmp(a: seq<NatChar>, b: seq<NatChar>, fold: bool) returns (r: int)
    requires IsString(a) && IsString(b)
    ensures AllWellFormed(Tokens(a, fold)) && AllWellFormed(Tokens(b, fold))
    ensures r == Compare(Tokens(a, fold), Tokens(b, fold))
  {
    TokensWellFormed(a, fold);
    TokensWellFormed(b, fold);
    assert a[0..] == a && b[0..] == b;
    assert Outcome(a, 0, b, 0, fold) == Compare(Tokens(a, fold), Tokens(b, fold));
    hide Tokens, Compare, AllWellFormed, Outcome;
    var ai, bi := 0, 0;
    while true
      invariant ai <= |a| && bi <= |b| && Outcome(a, ai, b, bi, fold) == Outcome(a, 0, b, 0, fold)
      decreases |a| - ai + |b| - bi
    {
      var done;
      ai, bi := SkipBoth(a, ai, b, bi, fold);
      r, done := CompareHeads(a, ai, b, bi, fold);
      if done {
        return;
      }
      ai, bi := ai + 1, bi + 1;
    }
  }

  /** The two inner loops over spaces. */
  method SkipBoth(a: seq<NatChar>, ai0: nat, b: seq<NatChar>, bi0: nat, ghost fold: bool) returns (ai: nat, bi: nat)
    requires IsString(a) && IsString(b) && ai0 <= |a| && bi0 <= |b|
    ensures ai0 <= ai <= |a| && bi0 <= bi <= |b| && !IsSpace(At(a, ai)) && !IsSpace(At(b, bi))
    ensures Outcome(a, ai, b, bi, fold) == Outcome(a, ai0, b, bi0, fold)
  {
    ai := SkipSpaces(a, ai0, fold);
    bi := SkipSpaces(b, bi0, fold);
  }

  /** The body of the loop of `strnatcmp0` once both strings stand on a character that is not a space. */
  method CompareHeads(a: seq<NatChar>, ai: nat, b: seq<NatChar>, bi: nat, fold: bool) returns (result: int, done: bool)
    requires IsString(a) && IsString(b) && ai <= |a| && bi <= |b| && !IsSpace(At(a, ai)) && !IsSpace(At(b, bi))
    ensures done ==> result == Outcome(a, ai, b, bi, fold)
    ensures !done ==> ai < |a| && bi < |b| && Outcome(a, ai + 1, b, bi + 1, fold) == Outcome(a, ai, b, bi, fold)
  {
    TokensWellFormed(a[ai..], fold);
    TokensWellFormed(b[bi..], fold);
    var ca, cb := At(a, ai), At(b, bi);
    result, done := 0, true;
    ghost var x, y := LeadingRun(a[ai..]), LeadingRun(b[bi..]);
    if IsDigit(ca) && IsDigit(cb) {
      var fractional := ca == 48 || cb == 48;
      if fractional {
        result := CompareLeft(a, ai, b, bi);
      } else {
        result := CompareRight(a, ai, b, bi);
      }
      LexLaws(x, y);
      if result != 0 {
        return;
      }
      EqualRunStep(a[ai..], b[bi..], fold);
      assert x[0] == ca && y[0] == cb;
    }
    if ca == 0 && cb == 0 {
      return 0, true;
    }
    var fa, fb := Fold(ca, fold), Fold(cb, fold);
    if fa < fb {
      return -1, true;
    }
    if fa > fb {
      return 1, true;
    }
    done := false;
    assert a[ai..][1..] == a[ai + 1..] && b[bi..][1..] == b[bi + 1..];
    TokensWellFormed(a[ai + 1..], fold);
    TokensWellFormed(b[bi + 1..], fold);
  }
}

module Sort {
  import opened NatOrder
  import NatCmp

  const TWO63: int := 0x8000_0000_0000_0000
  const TWO64: int := 0x1_0000_0000_0000_0000

  /** The two fields of a `File` that `compare_natural` reads; inode numbers are unsigned 64-bit. */
  datatype File = File(name: seq<NatChar>, ino: nat)

  ghost predicate IsFile(f: File) {
    IsString(f.name) && f.ino < TWO64
  }

  /** The difference of two unsigned 64-bit numbers, read back as a signed one. */
  function Difference64(a: nat, b: nat): int {
    var d := (a - b) % TWO64;
    if d < TWO63 then d else d - TWO64
  }

  ghost function NameOrder(f: File, g: File): int
    requires IsFile(f) && IsFile(g)
  {
    TokensWellFormed(f.name, true);
    TokensWellFormed(g.name, true);
    Compare(Tokens(f.name, true), Tokens(g.name, true))
  }

  ghost function NaturalOrder(f: File, g: File): int
    requires IsFile(f) && IsFile(g)
  {
    if NameOrder(f, g) != 0 then NameOrder(f, g) else Difference64(f.ino, g.ino)
  }

  /** `compare_natural`. */
  method CompareNatural(f: File, g: File) returns (r: int)
    requires IsFile(f) && IsFile(g)
    ensures r == NaturalOrder(f, g)
    ensures NameOrder(f, g) != 0 ==> r == NameOrder(f, g)
    ensures NameOrder(f, g) == 0 && Near(f.ino, g.ino) ==> Sign(r) == Sign(f.ino - g.ino)
  {
    TieBreakExact(f.ino, g.ino);
    var cmp := NatCmp.StrNatCmp(f.name, g.name, true);
    if cmp != 0 {
      return cmp;
    }
    return Difference64(f.ino, g.ino);
  }

  /** The tie-break has the right sign exactly when the true difference fits a signed 64-bit number. */
  lemma TieBreakExact(a: nat, b: nat)
    requires a < TWO64 && b < TWO64
    ensures Sign(Difference64(a, b)) == Sign(a - b) <==> -TWO63 <= a - b < TWO63
  {
    if a >= b {
      assert (a - b) % TWO64 == a - b;
    } else {
      assert (a - b) % TWO64 == a - b + TWO64;
    }
  }

  predicate Near(a: nat, b: nat) {
    -TWO63 < a - b < TWO63
  }

  /** For inode numbers less than 2^63 apart, and so for all below 2^63, the natural order is a consistent sort
      order: antisymmetric, transitive, and 0 only for files with the same inode whose names have the same
      tokens. */
  lemma NaturalOrderLaws(f: File, g: File, h: File)
    requires IsFile(f) && IsFile(g) && IsFile(h)
    requires Near(f.ino, g.ino) && Near(g.ino, h.ino) && Near(f.ino, h.ino)
    ensures Sign(NaturalOrder(g, f)) == -Sign(NaturalOrder(f, g))
    ensures NaturalOrder(f, g) == 0 <==> Tokens(f.name, true) == Tokens(g.name, true) && f.ino == g.ino
    ensures NaturalOrder(f, g) <= 0 && NaturalOrder(g, h) <= 0 ==> NaturalOrder(f, h) <= 0
  {
    TokensWellFormed(f.name, true);
    TokensWellFormed(g.name, true);
    TokensWellFormed(h.name, true);
    var x, y, z := Tokens(f.name, true), Tokens(g.name, true), Tokens(h.name, true);
    CompareLaws(x, y);
    CompareLaws(y, z);
    CompareLaws(x, z);
    TieBreakExact(f.ino, g.ino);
    TieBreakExact(g.ino, f.ino);
    TieBreakExact(g.ino, h.ino);
    TieBreakExact(f.ino, h.ino);
    hide Tokens, Compare, AllWellFormed, Difference64;
    if NaturalOrder(f, g) <= 0 && NaturalOrder(g, h) <= 0 {
      CompareTransitive(x, y, z);
    }
  }

  /** Further apart the tie-break can run in a circle. */
  lemma TieBreakCycle()
    ensures exists f, g, h ::
      && IsFile(f) && IsFile(g) && IsFile(h)
      && NaturalOrder(f, g) < 0 && NaturalOrder(g, h) < 0 && NaturalOrder(h, f) < 0
  {
    var f, g, h := File([], 0), File([], 6_000_000_000_000_000_000), File([], 12_000_000_000_000_000_000);
    assert NameOrder(f, g) == 0 && NameOrder(g, h) == 0 && NameOrder(h, f) == 0;
    assert Difference64(0, 6_000_000_000_000_000_000) < 0;
    assert NaturalOrder(f, g) < 0 && NaturalOrder(g, h) < 0 && NaturalOrder(h, f) < 0;
  }
}
