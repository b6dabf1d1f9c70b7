/** The fuzzy matcher of src/fuzzy.c: a two-row dynamic program for the score of the best alignment of a
    needle in a haystack, and a full-matrix variant that also traces positions back.

    Scores are exact integers in thousandths, next to the two infinities of the C code. Strings are
    C strings without their terminator; case folding is that of ASCII. */
module FuzzySpec {

  const MATCH_MAX_LEN := 1024

  const GAP_LEADING := -5
  const GAP_TRAILING := -5
  const GAP_INNER := -10
  const MATCH_CONSECUTIVE := 1000
  const MATCH_SLASH := 900
  const MATCH_WORD := 800
  const MATCH_CAPITAL := 700
  const MATCH_DOT := 600

  datatype Score = MinusInf | Finite(v: int) | PlusInf {
    function Plus(d: int): Score {
      if Finite? then Finite(v + d) else this
    }

    predicate Less(s: Score) {
      match this
      case MinusInf => !s.MinusInf?
      case Finite(a) => s.PlusInf? || (s.Finite? && a < s.v)
      case PlusInf => false
    }
  }

  /** The `max` macro. */
  function Max(a: Score, b: Score): Score {
    if b.Less(a) then a else b
  }

  function Lower(c: char): char {
    if 'A' <= c <= 'Z' then c - 'A' + 'a' else c
  }

  function Upper(c: char): char {
    if 'a' <= c <= 'z' then c - 'a' + 'A' else c
  }

  ghost function Lowered(s: string): string {
    seq(|s|, i requires 0 <= i < |s| => Lower(s[i]))
  }

  /** `COMPUTE_BONUS`: the tables `bonus_index` and `bonus_states`. */
  function Bonus(last: char, ch: char): (b: int)
    ensures 0 <= b <= MATCH_SLASH
  {
    var state := if IsCapital(ch) then 2 else if IsSmall(ch) || '0' <= ch <= '9' then 1 else 0;
    if state == 0 then 0
    else if last == '/' then MATCH_SLASH
    else if last == '-' || last == '_' || last == ' ' then MATCH_WORD
    else if last == '.' then MATCH_DOT
    else if state == 2 && IsSmall(last) then MATCH_CAPITAL
    else 0
  }

  predicate IsCapital(c: char) {
    'A' <= c <= 'Z'
  }

  predicate IsSmall(c: char) {
    'a' <= c <= 'z'
  }

  predicate IsWord(c: char) {
    IsCapital(c) || IsSmall(c) || '0' <= c <= '9'
  }

  /** A bonus marks exactly the starts of words: a letter or digit behind a separator, whose kind decides the
      amount, or a capital behind a small letter. It is less than what a consecutive match gains. */
  lemma BonusMarksWords(last: char, ch: char)
    ensures Bonus(last, ch) == 900 <==> IsWord(ch) && last == '/'
    ensures Bonus(last, ch) == 800 <==> IsWord(ch) && last in {'-', '_', ' '}
    ensures Bonus(last, ch) == 700 <==> IsCapital(ch) && IsSmall(last)
    ensures Bonus(last, ch) == 600 <==> IsWord(ch) && last == '.'
    ensures Bonus(last, ch) in {0, 600, 700, 800, 900}
  {
  }

  ghost function BonusAt(h: string, j: nat): int
    requires j < |h|
  {
    Bonus(if j == 0 then '/' else h[j - 1], h[j])
  }

  // ---------------------------------------------------------------- alignments

  /** `pos` places the first |pos| characters of the needle in the haystack, in order and up to case. */
  ghost predicate Embeds(needle: string, h: string, pos: seq<nat>) {
    && |pos| <= |needle|
    && (forall i :: 0 <= i < |pos| ==> pos[i] < |h| && Lower(needle[i]) == Lower(h[pos[i]]))
    && (forall i, j :: 0 <= i < j < |pos| ==> pos[i] < pos[j])
  }

  /** The score of an alignment up to its last placed character: leading gap, inner gaps, word bonuses,
      and for a consecutive match 1.0 instead of the bonus. */
  ghost function Partial(h: string, pos: seq<nat>): int
    requires pos != [] && forall i :: 0 <= i < |pos| ==> pos[i] < |h|
  {
    var k := |pos| - 1;
    if k == 0 then GAP_LEADING * pos[0] + BonusAt(h, pos[0])
    else Partial(h, pos[..k]) + StepScore(h, pos[k - 1], pos[k])
  }

  /** What matching a character at `j` adds when the one before it was matched at `i`. */
  ghost function StepScore(h: string, i: int, j: nat): int
    requires j < |h|
  {
    if j == i + 1 then MATCH_CONSECUTIVE else GAP_INNER * (j - i - 1) + BonusAt(h, j)
  }

  ghost function Total(h: string, pos: seq<nat>): int
    requires pos != [] && forall i :: 0 <= i < |pos| ==> pos[i] < |h|
  {
    Partial(h, pos) + GAP_TRAILING * (|h| - 1 - pos[|pos| - 1])
  }

  /** The amounts of a score, in thousandths: every character before the first and behind the last costs 5, every
      one skipped in between 10; a character behind its predecessor gains 1000, any other its word bonus. */
  lemma ScoreAmounts(h: string, pos: seq<nat>, j: nat)
    requires j < |h| && forall i :: 0 <= i < |pos| ==> pos[i] < |h|
    ensures Partial(h, [j]) == BonusAt(h, j) - 5 * j
    ensures Total(h, pos + [j]) == Partial(h, pos + [j]) - 5 * (|h| - 1 - j)
    ensures pos != [] && j == pos[|pos| - 1] + 1 ==> Partial(h, pos + [j]) == Partial(h, pos) + 1000
    ensures pos != [] && j != pos[|pos| - 1] + 1 ==>
      Partial(h, pos + [j]) == Partial(h, pos) + BonusAt(h, j) - 10 * (j - pos[|pos| - 1] - 1)
  {
    assert (pos + [j])[..|pos|] == pos;
  }

  /** An alignment with one of each. */
  lemma ScoredAlignment()
    ensures Total("xa-bc.dxxEzz", [1, 3, 4, 6, 9]) == 3045
  {
    ScoredPositions("xa-bc.dxxEzz");
  }

  lemma ScoredPositions(h: string)
    requires |h| == 12 && BonusAt(h, 1) == 0 && BonusAt(h, 3) == 800 && BonusAt(h, 6) == 600 && BonusAt(h, 9) == 700
    ensures Total(h, [1, 3, 4, 6, 9]) == 3045
  {
    hide BonusAt, Partial, Total;
    ScoreAmounts(h, [], 1);
    ScoreAmounts(h, [1], 3);
    ScoreAmounts(h, [1] + [3], 4);
    ScoreAmounts(h, [1] + [3] + [4], 6);
    ScoreAmounts(h, [1] + [3] + [4] + [6], 9);
    assert [1, 3, 4, 6, 9] == [1] + [3] + [4] + [6] + [9];
  }

  ghost predicate Alignment(needle: string, h: string, pos: seq<nat>) {
    |pos| == |needle| && Embeds(needle, h, pos)
  }

  ghost predicate AtLeast(s: Score, v: int) {
    s.Finite? && s.v >= v
  }

  /** No alignment scores above `r`. */
  ghost predicate Bounds(needle: string, h: string, r: Score)
    requires needle != ""
  {
    forall pos :: Alignment(needle, h, pos) ==> AtLeast(r, Total(h, pos))
  }

  /** A finite `r` is the score of some alignment. */
  ghost predicate Attained(needle: string, h: string, r: Score)
    requires needle != ""
  {
    r.Finite? ==> exists pos :: Alignment(needle, h, pos) && Total(h, pos) == r.v
  }

  /** `r` is the best total over all alignments, and minus infinity when there is none. */
  ghost predicate IsBest(needle: string, h: string, r: Score)
    requires needle != ""
  {
    !r.PlusInf? && Bounds(needle, h, r) && Attained(needle, h, r)
  }

  lemma BestIsUnique(needle: string, h: string, r: Score, s: Score)
    requires needle != "" && IsBest(needle, h, r) && IsBest(needle, h, s)
    ensures r == s
    ensures r.MinusInf? <==> !exists pos :: Alignment(needle, h, pos)
  {
    if r.Finite? {
      var pos :| Alignment(needle, h, pos) && Total(h, pos) == r.v;
      assert AtLeast(s, Total(h, pos));
    }
    if s.Finite? {
      var pos :| Alignment(needle, h, pos) && Total(h, pos) == s.v;
      assert AtLeast(r, Total(h, pos));
    }
  }

  // ---------------------------------------------------------------- the recurrences

  ghost function Gap(needle: string, i: nat): int {
    if i + 1 == |needle| then GAP_TRAILING else GAP_INNER
  }

  /** `D[i][j]`: the best score for the first i+1 characters with the last one matched at j. */
  ghost function D(needle: string, h: string, i: nat, j: nat): Score
    requires i < |needle| && j < |h|
    decreases i, j, 0
  {
    if Lower(needle[i]) != Lower(h[j]) then MinusInf
    else if i == 0 then Finite(GAP_LEADING * j + BonusAt(h, j))
    else if j == 0 then MinusInf
    else Max(M(needle, h, i - 1, j - 1).Plus(BonusAt(h, j)), D(needle, h, i - 1, j - 1).Plus(MATCH_CONSECUTIVE))
  }

  /** `M[i][j]`: the best score for the first i+1 characters placed up to j. */
  ghost function M(needle: string, h: string, i: nat, j: nat): Score
    requires i < |needle| && j < |h|
    decreases i, j, 1
  {
    Max(D(needle, h, i, j), if j == 0 then MinusInf else M(needle, h, i, j - 1).Plus(Gap(needle, i)))
  }

  lemma {:induction false} DBounds(needle: string, h: string, pos: seq<nat>)
    requires pos != [] && Embeds(needle, h, pos)
    ensures AtLeast(D(needle, h, |pos| - 1, pos[|pos| - 1]), Partial(h, pos))
    decreases |pos|, 0
  {
    var k := |pos| - 1;
    if k > 0 {
      var front, j := pos[..k], pos[k];
      DBounds(needle, h, front);
      MBounds(needle, h, front, j - 1);
      FiniteScores(needle, h, k - 1, j - 1);
      var last, m, d := front[k - 1], M(needle, h, k - 1, j - 1), D(needle, h, k - 1, j - 1);
      assert D(needle, h, k, j) == Max(m.Plus(BonusAt(h, j)), d.Plus(MATCH_CONSECUTIVE));
      assert Partial(h, pos) == Partial(h, front) + StepScore(h, last, j);
      hide D, M, Partial, Embeds;
      StepBounds(h, last, j, m, d, Partial(h, front));
    }
  }

  lemma StepBounds(h: string, last: nat, j: nat, m: Score, d: Score, before: int)
    requires last < j < |h| && !m.PlusInf? && !d.PlusInf?
    requires AtLeast(m, before + GAP_INNER * (j - 1 - last)) && (last == j - 1 ==> AtLeast(d, before))
    ensures AtLeast(Max(m.Plus(BonusAt(h, j)), d.Plus(MATCH_CONSECUTIVE)), before + StepScore(h, last, j))
  {
    hide BonusAt;
  }

  lemma {:induction false} MBounds(needle: string, h: string, pos: seq<nat>, j: nat)
    requires pos != [] && Embeds(needle, h, pos) && pos[|pos| - 1] <= j < |h|
    ensures AtLeast(M(needle, h, |pos| - 1, j), Partial(h, pos) + Gap(needle, |pos| - 1) * (j - pos[|pos| - 1]))
    decreases |pos|, 1 + j
  {
    FiniteScores(needle, h, |pos| - 1, j);
    if pos[|pos| - 1] == j {
      DBounds(needle, h, pos);
    } else {
      MBounds(needle, h, pos, j - 1);
    }
  }

  /** No score in the matrices is plus infinity. */
  lemma {:induction false} FiniteScores(needle: string, h: string, i: nat, j: nat)
    requires i < |needle| && j < |h|
    ensures !D(needle, h, i, j).PlusInf? && !M(needle, h, i, j).PlusInf?
    decreases i, j
  {
    if i > 0 && j > 0 { FiniteScores(needle, h, i - 1, j - 1); }
    if j > 0 { FiniteScores(needle, h, i, j - 1); }
  }

  lemma {:induction false} DAttained(needle: string, h: string, i: nat, j: nat) returns (pos: seq<nat>)
    requires i < |needle| && j < |h| && D(needle, h, i, j).Finite?
    ensures |pos| == i + 1 && Embeds(needle, h, pos) && pos[i] == j && Partial(h, pos) == D(needle, h, i, j).v
    decreases i, 0
  {
    if i == 0 {
      pos := [j];
    } else {
      var m, d := M(needle, h, i - 1, j - 1), D(needle, h, i - 1, j - 1);
      FiniteScores(needle, h, i - 1, j - 1);
      assert D(needle, h, i, j) == Max(m.Plus(BonusAt(h, j)), d.Plus(MATCH_CONSECUTIVE));
      var prefix;
      if d.Plus(MATCH_CONSECUTIVE).Less(m.Plus(BonusAt(h, j))) {
        hide D, M;
        prefix := MAttained(needle, h, i - 1, j - 1);
        if prefix[i - 1] == j - 1 {
          DBounds(needle, h, prefix);
        }
        assert Partial(h, prefix) + StepScore(h, prefix[i - 1], j) == m.v + BonusAt(h, j);
      } else {
        hide D, M;
        prefix := DAttained(needle, h, i - 1, j - 1);
      }
      pos := Extend(needle, h, prefix, j);
    }
  }

  lemma Extend(needle: string, h: string, prefix: seq<nat>, j: nat) returns (pos: seq<nat>)
    requires prefix != [] && |prefix| < |needle| && Embeds(needle, h, prefix)
    requires prefix[|prefix| - 1] < j < |h| && Lower(needle[|prefix|]) == Lower(h[j])
    ensures pos == prefix + [j] && Embeds(needle, h, pos)
    ensures Partial(h, pos) == Partial(h, prefix) + StepScore(h, prefix[|prefix| - 1], j)
  {
    pos := prefix + [j];
    assert pos[..|prefix|] == prefix;
  }

  lemma {:induction false} MAttained(needle: string, h: string, i: nat, j: nat) returns (pos: seq<nat>)
    requires i < |needle| && j < |h| && M(needle, h, i, j).Finite?
    ensures |pos| == i + 1 && Embeds(needle, h, pos) && pos[i] <= j
    ensures Partial(h, pos) + Gap(needle, i) * (j - pos[i]) == M(needle, h, i, j).v
    decreases i, 1 + j
  {
    FiniteScores(needle, h, i, j);
    if j > 0 { FiniteScores(needle, h, i, j - 1); }
    if M(needle, h, i, j) == D(needle, h, i, j) {
      pos := DAttained(needle, h, i, j);
    } else {
      pos := MAttained(needle, h, i, j - 1);
    }
  }

  lemma LastEntryBounds(needle: string, h: string)
    requires needle != "" && h != ""
    ensures Bounds(needle, h, M(needle, h, |needle| - 1, |h| - 1))
  {
    forall pos | Alignment(needle, h, pos)
      ensures AtLeast(M(needle, h, |needle| - 1, |h| - 1), Total(h, pos))
    {
      MBounds(needle, h, pos, |h| - 1);
    }
  }

  lemma LastEntryAttained(needle: string, h: string)
    requires needle != "" && h != ""
    ensures Attained(needle, h, M(needle, h, |needle| - 1, |h| - 1))
  {
    var r := M(needle, h, |needle| - 1, |h| - 1);
    if r.Finite? {
      var pos := MAttained(needle, h, |needle| - 1, |h| - 1);
      assert Alignment(needle, h, pos) && Total(h, pos) == r.v;
    }
  }

  /** The last entry of the matrix is the best total over exponentially many alignments. */
  lemma LastEntryIsBest(needle: string, h: string)
    requires needle != "" && h != ""
    ensures IsBest(needle, h, M(needle, h, |needle| - 1, |h| - 1))
  {
    hide Bounds, Attained;
    FiniteScores(needle, h, |needle| - 1, |h| - 1);
    LastEntryBounds(needle, h);
    LastEntryAttained(needle, h);
  }
}

module Fuzzy {
  import opened FuzzySpec

  // ---------------------------------------------------------------- fzy_has_match

  /** The placements `fzy_has_match` looks for: each needle character itself, or its upper-case form. */
  ghost predicate CaseEmbeds(needle: string, h: string, pos: seq<nat>) {
    && |pos| <= |needle|
    && (forall i :: 0 <= i < |pos| ==> pos[i] < |h| && (h[pos[i]] == needle[i] || h[pos[i]] == Upper(needle[i])))
    && (forall i, j :: 0 <= i < j < |pos| ==> pos[i] < pos[j])
  }

  ghost predicate HasCaseEmbedding(needle: string, h: string) {
    exists pos :: |pos| == |needle| && CaseEmbeds(needle, h, pos)
  }

  ghost predicate HasAlignment(needle: string, h: string) {
    exists pos :: Alignment(needle, h, pos)
  }

  /** `strcasechr`: the first place at or after `from` holding `c` or its upper-case form; |h| if none. */
  method StrCaseChr(h: string, from: nat, c: char) returns (at: nat)
    requires from <= |h|
    ensures from <= at <= |h|
    ensures forall j :: from <= j < at ==> h[j] != c && h[j] != Upper(c)
    ensures at < |h| ==> h[at] == c || h[at] == Upper(c)
  {
    at := from;
    while at < |h| && h[at] != c && h[at] != Upper(c)
      invariant from <= at <= |h|
      invariant forall j :: from <= j < at ==> h[j] != c && h[j] != Upper(c)
    {
      at := at + 1;
    }
  }

  /** The greedy placement of the first `i` characters ends before `from`, and no placement ends earlier. */
  ghost predicate Greedy(needle: string, h: string, i: nat, from: nat, pos: seq<nat>) {
    && i == |pos| <= |needle| && from <= |h| && CaseEmbeds(needle, h, pos)
    && from == (if i == 0 then 0 else pos[i - 1] + 1)
    && forall other :: |other| >= i && i > 0 && CaseEmbeds(needle, h, other) ==> from <= other[i - 1] + 1
  }

  lemma GreedyStep(needle: string, h: string, i: nat, from: nat, pos: seq<nat>, at: nat)
    requires Greedy(needle, h, i, from, pos) && i < |needle| && from <= at <= |h|
    requires forall j :: from <= j < at ==> h[j] != needle[i] && h[j] != Upper(needle[i])
    requires at < |h| ==> h[at] == needle[i] || h[at] == Upper(needle[i])
    ensures at == |h| ==> !HasCaseEmbedding(needle, h)
    ensures at < |h| ==> Greedy(needle, h, i + 1, at + 1, pos + [at])
  {
    forall other | |other| > i && CaseEmbeds(needle, h, other)
      ensures at <= other[i]
    {
      assert i > 0 ==> other[i - 1] < other[i];
    }
  }

  /** `fzy_has_match`. */
  method HasMatch(needle: string, h: string) returns (r: bool)
    ensures r <==> HasCaseEmbedding(needle, h)
  {
    var i, from := 0, 0;
    ghost var pos: seq<nat> := [];
    while i < |needle|
      invariant Greedy(needle, h, i, from, pos)
    {
      var at := StrCaseChr(h, from, needle[i]);
      GreedyStep(needle, h, i, from, pos, at);
      if at == |h| {
        return false;
      }
      pos := pos + [at];
      i, from := i + 1, at + 1;
    }
    r := true;
  }

  /** A placement of m characters in m places is the identity. */
  lemma {:induction false} FullPlacement(pos: seq<nat>, i: nat)
    requires i < |pos| && (forall j, k :: 0 <= j < k < |pos| ==> pos[j] < pos[k])
    requires forall j :: 0 <= j < |pos| ==> pos[j] < |pos|
    ensures pos[i] == i
  {
    AtLeastIndex(pos, i);
    AtMostIndex(pos, i);
  }

  lemma {:induction false} AtLeastIndex(pos: seq<nat>, i: nat)
    requires i < |pos| && (forall j, k :: 0 <= j < k < |pos| ==> pos[j] < pos[k])
    ensures pos[i] >= i
  {
    if i > 0 { AtLeastIndex(pos, i - 1); }
  }

  lemma {:induction false} AtMostIndex(pos: seq<nat>, i: nat)
    requires i < |pos| && (forall j, k :: 0 <= j < k < |pos| ==> pos[j] < pos[k])
    requires forall j :: 0 <= j < |pos| ==> pos[j] < |pos|
    ensures pos[i] <= i
    decreases |pos| - i
  {
    if i + 1 < |pos| { AtMostIndex(pos, i + 1); }
  }

  ghost predicate NoCapitals(s: string) {
    forall i :: 0 <= i < |s| ==> !('A' <= s[i] <= 'Z')
  }

  /** What a positive `fzy_has_match` means for the scoring: there is an alignment; and when the lengths
      agree, the strings are equal up to case, as `fzy_match` assumes when it returns SCORE_MAX. */
  lemma MatchImpliesAlignment(needle: string, h: string)
    requires HasCaseEmbedding(needle, h)
    ensures HasAlignment(needle, h)
    ensures |needle| == |h| ==> Lowered(needle) == Lowered(h)
  {
    var pos :| |pos| == |needle| && CaseEmbeds(needle, h, pos);
    assert Alignment(needle, h, pos);
    if |needle| == |h| {
      FullAlignment(needle, h, pos);
    }
  }

  lemma FullAlignment(needle: string, h: string, pos: seq<nat>)
    requires Alignment(needle, h, pos) && |needle| == |h|
    ensures Lowered(needle) == Lowered(h)
  {
    forall i | 0 <= i < |h|
      ensures Lowered(needle)[i] == Lowered(h)[i]
    {
      FullPlacement(pos, i);
    }
  }

  /** The converse holds for every haystack exactly when the needle has no capital letter: a capital only
      matches itself in `fzy_has_match`, but either case in the scoring. */
  lemma AlignmentImpliesMatch(needle: string)
    ensures NoCapitals(needle) <==> forall h :: HasAlignment(needle, h) ==> HasCaseEmbedding(needle, h)
  {
    if NoCapitals(needle) {
      forall h | HasAlignment(needle, h)
        ensures HasCaseEmbedding(needle, h)
      {
        var pos :| Alignment(needle, h, pos);
        assert CaseEmbeds(needle, h, pos);
      }
    } else {
      var i :| 0 <= i < |needle| && 'A' <= needle[i] <= 'Z';
      CapitalMissed(needle, i);
    }
  }

  /** The lower-cased needle aligns with a needle that has a capital, but is not matched by it. */
  lemma CapitalMissed(needle: string, i: nat)
    requires i < |needle| && 'A' <= needle[i] <= 'Z'
    ensures HasAlignment(needle, Lowered(needle)) && !HasCaseEmbedding(needle, Lowered(needle))
  {
    var h := Lowered(needle);
    var id: seq<nat> := seq(|needle|, j requires 0 <= j < |needle| => j);
    assert Alignment(needle, h, id);
    forall pos | |pos| == |needle| && CaseEmbeds(needle, h, pos)
      ensures false
    {
      FullPlacement(pos, i);
    }
  }

  // ---------------------------------------------------------------- scoring

  /** What both matchers return. */
  ghost function ScoreOf(needle: string, h: string): Score {
    if needle == "" || |h| > MATCH_MAX_LEN || |needle| > |h| then MinusInf
    else if |needle| == |h| then PlusInf
    else M(needle, h, |needle| - 1, |h| - 1)
  }

  /** `struct match_struct`. */
  class MatchStruct {
    var needleLen: nat
    var haystackLen: nat
    const lowerNeedle: array<char>
    const lowerHaystack: array<char>
    const matchBonus: array<int>

    ghost predicate Lengths(needle: string, h: string)
      reads this
    {
      && needleLen == |needle| && haystackLen == |h|
      && lowerNeedle.Length == lowerHaystack.Length == matchBonus.Length == MATCH_MAX_LEN
      && lowerNeedle != lowerHaystack
    }

    ghost predicate Holds(needle: string, h: string)
      reads this, lowerNeedle, lowerHaystack, matchBonus
    {
      && Lengths(needle, h) && |needle| <= |h| <= MATCH_MAX_LEN
      && (forall i :: 0 <= i < |needle| ==> lowerNeedle[i] == Lower(needle[i]))
      && (forall j :: 0 <= j < |h| ==> lowerHaystack[j] == Lower(h[j]))
      && (forall j :: 0 <= j < |h| ==> matchBonus[j] == BonusAt(h, j))
    }

    /** `setup_match_struct`, which leaves the arrays alone when the strings are too long. */
    constructor (needle: string, h: string)
      ensures Lengths(needle, h)
      ensures |needle| <= |h| <= MATCH_MAX_LEN ==> Holds(needle, h)
    {
      lowerNeedle, lowerHaystack := new char[MATCH_MAX_LEN], new char[MATCH_MAX_LEN];
      matchBonus := new int[MATCH_MAX_LEN];
      needleLen, haystackLen := |needle|, |h|;
      new;
      if haystackLen > MATCH_MAX_LEN || needleLen > haystackLen {
        return;
      }
      for i := 0 to needleLen
        invariant Lengths(needle, h)
        invariant forall k :: 0 <= k < i ==> lowerNeedle[k] == Lower(needle[k])
      {
        lowerNeedle[i] := Lower(needle[i]);
      }
      for i := 0 to haystackLen
        invariant Lengths(needle, h)
        invariant forall k :: 0 <= k < |needle| ==> lowerNeedle[k] == Lower(needle[k])
        invariant forall k :: 0 <= k < i ==> lowerHaystack[k] == Lower(h[k])
      {
        lowerHaystack[i] := Lower(h[i]);
      }
      PrecomputeBonus(h, matchBonus);
    }
  }

  /** `precompute_bonus`: which positions begin words. */
  method PrecomputeBonus(h: string, matchBonus: array<int>)
    requires |h| <= matchBonus.Length
    modifies matchBonus
    ensures forall j :: 0 <= j < |h| ==> matchBonus[j] == BonusAt(h, j)
  {
    var lastCh := '/';
    for i := 0 to |h|
      invariant lastCh == if i == 0 then '/' else h[i - 1]
      invariant forall j :: 0 <= j < i ==> matchBonus[j] == BonusAt(h, j)
    {
      var ch := h[i];
      matchBonus[i] := Bonus(lastCh, ch);
      lastCh := ch;
    }
  }

  ghost predicate IsRowD(row: seq<Score>, needle: string, h: string, i: nat) {
    i < |needle| && |h| <= |row| && forall j :: 0 <= j < |h| ==> row[j] == D(needle, h, i, j)
  }

  ghost predicate IsRowM(row: seq<Score>, needle: string, h: string, i: nat) {
    i < |needle| && |h| <= |row| && forall j :: 0 <= j < |h| ==> row[j] == M(needle, h, i, j)
  }

  /** The value `prev_score` has when the row loop reaches column `j`. */
  ghost function Before(needle: string, h: string, i: nat, j: nat): Score
    requires i < |needle| && j <= |h|
  {
    if j == 0 then MinusInf else M(needle, h, i, j - 1)
  }

  lemma BeforeStart(needle: string, h: string, i: nat)
    requires i < |needle|
    ensures Before(needle, h, i, 0) == MinusInf
  {
  }

  /** One cell of the two matrices, without the recursion. */
  lemma Cell(needle: string, h: string, i: nat, j: nat)
    requires i < |needle| && j < |h|
    ensures M(needle, h, i, j) == Max(D(needle, h, i, j), Before(needle, h, i, j).Plus(Gap(needle, i)))
    ensures Before(needle, h, i, j + 1) == M(needle, h, i, j)
    ensures Lower(needle[i]) != Lower(h[j]) ==>
      D(needle, h, i, j) == MinusInf && M(needle, h, i, j) == Before(needle, h, i, j).Plus(Gap(needle, i))
    ensures Lower(needle[i]) == Lower(h[j]) ==>
      D(needle, h, i, j) ==
        if i == 0 then Finite(GAP_LEADING * j + BonusAt(h, j))
        else if j == 0 then MinusInf
        else Max(M(needle, h, i - 1, j - 1).Plus(BonusAt(h, j)), D(needle, h, i - 1, j - 1).Plus(MATCH_CONSECUTIVE))
  {
  }

  /** `match_row`: one row of both matrices from the row before. */
  method MatchRow(mt: MatchStruct, row: nat, currD: array<Score>, currM: array<Score>,
                  lastD: array?<Score>, lastM: array?<Score>, ghost needle: string, ghost h: string)
    requires mt.Holds(needle, h) && row < |needle|
    requires currD != currM && |h| <= currD.Length && |h| <= currM.Length
    requires currD != lastD && currD != lastM && currM != lastD && currM != lastM
    requires row > 0 ==>
      lastD != null && lastM != null && IsRowD(lastD[..], needle, h, row - 1) && IsRowM(lastM[..], needle, h, row - 1)
    modifies currD, currM
    ensures IsRowD(currD[..], needle, h, row) && IsRowM(currM[..], needle, h, row)
  {
    hide D, M, Max, Before;
    var n, m := mt.needleLen, mt.haystackLen;
    var prevScore := MinusInf;
    assert prevScore == Before(needle, h, row, 0) by { BeforeStart(needle, h, row); }
    var gapScore := if row == n - 1 then GAP_TRAILING else GAP_INNER;
    var j := 0;
    while j < m
      invariant j <= m
      invariant prevScore == Before(needle, h, row, j)
      invariant forall k :: 0 <= k < j ==> currD[k] == D(needle, h, row, k)
      invariant forall k :: 0 <= k < j ==> currM[k] == M(needle, h, row, k)
    {
      Cell(needle, h, row, j);
      if mt.lowerNeedle[row] == mt.lowerHaystack[j] {
        var score := MinusInf;
        if row == 0 {
          score := Finite(j * GAP_LEADING + mt.matchBonus[j]);
        } else if j > 0 {
          score := Max(lastM[j - 1].Plus(mt.matchBonus[j]), lastD[j - 1].Plus(MATCH_CONSECUTIVE));
        }
        currD[j] := score;
        prevScore := Max(score, prevScore.Plus(gapScore));
        currM[j] := prevScore;
      } else {
        currD[j] := MinusInf;
        prevScore := prevScore.Plus(gapScore);
        currM[j] := prevScore;
      }
      j := j + 1;
    }
  }

  /** `fzy_match`: two rows suffice. A haystack of the needle's length scores infinity, even though the strings
      may differ; what cannot match, or is longer than 1024 characters, minus infinity. */
  method FzyMatch(needle: string, h: string) returns (score: Score)
    ensures 0 < |needle| == |h| <= 1024 <==> score.PlusInf?
    ensures needle == "" || |h| > 1024 || |needle| > |h| ==> score.MinusInf?
    ensures score == ScoreOf(needle, h)
    ensures 0 < |needle| < |h| <= MATCH_MAX_LEN ==> IsBest(needle, h, score)
  {
    if needle == "" {
      return MinusInf;
    }
    var mt := new MatchStruct(needle, h);
    var n, m := mt.needleLen, mt.haystackLen;
    if m > MATCH_MAX_LEN || n > m {
      return MinusInf;
    } else if n == m {
      return PlusInf;
    }
    var lastD, lastM := new Score[MATCH_MAX_LEN], new Score[MATCH_MAX_LEN];
    var currD, currM := new Score[MATCH_MAX_LEN], new Score[MATCH_MAX_LEN];
    for i := 0 to n
      invariant fresh(lastD) && fresh(lastM) && fresh(currD) && fresh(currM) && mt.Holds(needle, h)
      invariant lastD != lastM && lastD != currD && lastD != currM && lastM != currD && lastM != currM && currD != currM
      invariant lastD.Length == lastM.Length == currD.Length == currM.Length == MATCH_MAX_LEN
      invariant i > 0 ==> IsRowD(lastD[..], needle, h, i - 1) && IsRowM(lastM[..], needle, h, i - 1)
    {
      MatchRow(mt, i, currD, currM, lastD, lastM, needle, h);
      currD, lastD := lastD, currD;
      currM, lastM := lastM, currM;
    }
    LastEntryIsBest(needle, h);
    score := lastM[m - 1];
  }

  // ---------------------------------------------------------------- tracing positions back

  ghost predicate AreRows(rowsD: seq<array<Score>>, rowsM: seq<array<Score>>, needle: string, h: string)
    reads rowsD, rowsM
  {
    && |rowsD| == |rowsM| <= |needle|
    && (forall i :: 0 <= i < |rowsD| ==> IsRowD(rowsD[i][..], needle, h, i))
    && (forall i :: 0 <= i < |rowsM| ==> IsRowM(rowsM[i][..], needle, h, i))
  }

  /** `fzy_match_positions`: the same score from the full matrices, and an alignment traced back through them. */
  method FzyMatchPositions(needle: string, h: string, positions: array?<nat>) returns (score: Score)
    requires positions != null ==> |needle| <= positions.Length
    modifies positions
    ensures 0 < |needle| == |h| <= 1024 <==> score.PlusInf?
    ensures needle == "" || |h| > 1024 || |needle| > |h| ==> score.MinusInf?
    ensures score == ScoreOf(needle, h)
    ensures 0 < |needle| < |h| <= MATCH_MAX_LEN ==> IsBest(needle, h, score)
    ensures positions != null && 0 < |needle| < |h| <= MATCH_MAX_LEN && score.Finite? ==>
      && Alignment(needle, h, positions[..|needle|]) && Total(h, positions[..|needle|]) <= score.v
      && positions[..|needle|] == Trace(needle, h, |needle|, |h| - 1, false)
      && (Total(h, positions[..|needle|]) == score.v <==> !Loses(needle, h, |needle|, |h| - 1, false))
    ensures positions != null && |needle| == |h| <= MATCH_MAX_LEN ==> forall i :: 0 <= i < |needle| ==>
      positions[i] == i
  {
    if needle == "" {
      return MinusInf;
    }
    var mt := new MatchStruct(needle, h);
    var n, m := mt.needleLen, mt.haystackLen;
    if m > MATCH_MAX_LEN || n > m {
      return MinusInf;
    } else if n == m {
      if positions != null {
        for i := 0 to n
          invariant forall k :: 0 <= k < i ==> positions[k] == k
        {
          positions[i] := i;
        }
      }
      return PlusInf;
    }
    var rowsD, rowsM := BuildRows(mt, needle, h);
    score := rowsM[n - 1][m - 1];
    LastEntryIsBest(needle, h);
    if positions != null {
      Backtrace(rowsD, rowsM, positions, m, needle, h);
      if score != MinusInf { TraceIsBestExactly(needle, h); }
    }
  }

  /** The first loop of `fzy_match_positions`, filling all rows of both matrices. */
  method BuildRows(mt: MatchStruct, ghost needle: string, ghost h: string)
    returns (rowsD: seq<array<Score>>, rowsM: seq<array<Score>>)
    requires mt.Holds(needle, h)
    ensures AreRows(rowsD, rowsM, needle, h) && |rowsD| == |needle|
    ensures forall i :: 0 <= i < |rowsD| ==> fresh(rowsD[i]) && fresh(rowsM[i])
  {
    hide IsRowD, IsRowM;
    rowsD, rowsM := [], [];
    var lastD: array?<Score>, lastM: array?<Score> := null, null;
    for i := 0 to mt.needleLen
      invariant mt.Holds(needle, h) && |rowsD| == i && AreRows(rowsD, rowsM, needle, h)
      invariant forall k :: 0 <= k < i ==> fresh(rowsD[k]) && fresh(rowsM[k])
      invariant i > 0 ==> lastD == rowsD[i - 1] && lastM == rowsM[i - 1]
    {
      var currD, currM := new Score[MATCH_MAX_LEN], new Score[MATCH_MAX_LEN];
      MatchRow(mt, i, currD, currM, lastD, lastM, needle, h);
      rowsD, rowsM := rowsD + [currD], rowsM + [currM];
      lastD, lastM := currD, currM;
    }
  }

  /** The state of the backtrace after the characters from `i` on have been placed: the next one is searched
      from column `j` down, and if there is any alignment the search will succeed. */
  ghost predicate Tracing(needle: string, h: string, pos: seq<nat>, i: nat, j: int) {
    && i <= |needle| <= |pos| && -1 <= j < |h|
    && (forall k :: i <= k < |needle| ==> j < pos[k] < |h| && Lower(needle[k]) == Lower(h[pos[k]]))
    && (forall k, l :: i <= k < l < |needle| ==> pos[k] < pos[l])
  }

  ghost predicate WillFind(needle: string, h: string, i: nat, j: int, required: bool) {
    i > 0 ==>
      && i <= |needle| && 0 <= j < |h|
      && (required ==> D(needle, h, i - 1, j) != MinusInf)
      && (!required ==> M(needle, h, i - 1, j) != MinusInf)
  }

  /** The positions that the backtrace takes for the first `i` characters, searching from column `j` down. */
  ghost function Trace(needle: string, h: string, i: nat, j: int, required: bool): seq<nat>
    requires i <= |needle| && j < |h|
    decreases i, j
  {
    if i == 0 || j < 0 then []
    else if D(needle, h, i - 1, j) != MinusInf && (required || D(needle, h, i - 1, j) == M(needle, h, i - 1, j)) then
      var next := i > 1 && j > 0 && M(needle, h, i - 1, j) == D(needle, h, i - 2, j - 1).Plus(MATCH_CONSECUTIVE);
      Trace(needle, h, i - 1, j - 1, next) + [j]
    else Trace(needle, h, i, j - 1, required)
  }

  /** Passing over a column. */
  lemma SkipColumn(needle: string, h: string, i: nat, j: nat, required: bool)
    requires 0 < i <= |needle| && j < |h|
    requires !(D(needle, h, i - 1, j) != MinusInf && (required || D(needle, h, i - 1, j) == M(needle, h, i - 1, j)))
    requires WillFind(needle, h, i, j, required)
    ensures WillFind(needle, h, i, j - 1, required)
    ensures Trace(needle, h, i, j, required) == Trace(needle, h, i, j - 1, required)
  {
  }

  /** Placing a character: the next search starts in a column where it cannot fail. */
  lemma TakeColumn(needle: string, h: string, i: nat, j: nat, required: bool)
    requires 0 < i <= |needle| && j < |h| && D(needle, h, i - 1, j) != MinusInf
    requires required || D(needle, h, i - 1, j) == M(needle, h, i - 1, j)
    ensures Lower(needle[i - 1]) == Lower(h[j])
    ensures i > 1 ==> j > 0
    ensures var next := i > 1 && j > 0 && M(needle, h, i - 1, j) == D(needle, h, i - 2, j - 1).Plus(MATCH_CONSECUTIVE);
      && WillFind(needle, h, i - 1, j - 1, next)
      && Trace(needle, h, i, j, required) == Trace(needle, h, i - 1, j - 1, next) + [j]
  {
    FiniteScores(needle, h, i - 1, j);
    if i > 1 { FiniteScores(needle, h, i - 2, j - 1); }
  }

  lemma TakeTracing(needle: string, h: string, pos: seq<nat>, i: nat, j0: int, j: nat)
    requires Tracing(needle, h, pos, i + 1, j0) && j <= j0 && Lower(needle[i]) == Lower(h[j])
    ensures Tracing(needle, h, pos[i := j], i, j - 1)
    ensures pos[i := j][i..|needle|] == [j] + pos[i + 1..|needle|]
  {
  }

  lemma Regrouped(front: seq<nat>, j: nat, found: seq<nat>)
    ensures front + [j] + found == front + ([j] + found)
  {
  }

  /** The inner loop of the backtrace: from column `j0` down to the first that the character is placed at. */
  method FindColumn(rowsD: seq<array<Score>>, rowsM: seq<array<Score>>, i: nat, j0: int, required: bool,
                    ghost needle: string, ghost h: string)
    returns (j: int)
    requires AreRows(rowsD, rowsM, needle, h) && i < |rowsD| == |needle| && -1 <= j0 < |h|
    ensures -1 <= j <= j0
    ensures j >= 0 ==> D(needle, h, i, j) != MinusInf && (required || D(needle, h, i, j) == M(needle, h, i, j))
    ensures WillFind(needle, h, i + 1, j0, required) ==>
      j >= 0 && Trace(needle, h, i + 1, j0, required) == Trace(needle, h, i + 1, j, required)
  {
    hide D, M, Trace;
    j := j0;
    while j >= 0
      invariant -1 <= j <= j0
      invariant WillFind(needle, h, i + 1, j0, required) ==>
        WillFind(needle, h, i + 1, j, required) &&
          Trace(needle, h, i + 1, j0, required) == Trace(needle, h, i + 1, j, required)
    {
      if rowsD[i][j] != MinusInf && (required || rowsD[i][j] == rowsM[i][j]) {
        return;
      }
      if WillFind(needle, h, i + 1, j, required) { SkipColumn(needle, h, i + 1, j, required); }
      j := j - 1;
    }
  }

  /** The score so far is that of a consecutive match, so the backtrace insists on one. */
  ghost predicate Consecutive(needle: string, h: string, i: nat, j: nat)
    requires i < |needle| && j < |h|
  {
    i > 0 && j > 0 && M(needle, h, i, j) == D(needle, h, i - 1, j - 1).Plus(MATCH_CONSECUTIVE)
  }

  method LastWasConsecutive(rowsD: seq<array<Score>>, rowsM: seq<array<Score>>, i: nat, j: nat, ghost needle: string,
    ghost h: string)
    returns (r: bool)
    requires AreRows(rowsD, rowsM, needle, h) && i < |rowsD| == |needle| && j < |h|
    ensures r == Consecutive(needle, h, i, j)
  {
    r := i > 0 && j > 0 && rowsM[i][j] == rowsD[i - 1][j - 1].Plus(MATCH_CONSECUTIVE);
  }

  /** So far `found` has been placed, and the whole trace is what is still to be traced and that. */
  ghost predicate Progress(needle: string, h: string, pos: seq<nat>, i: nat, j: int, required: bool, found: seq<nat>,
    whole: seq<nat>) {
    && Tracing(needle, h, pos, i, j) && WillFind(needle, h, i, j, required)
    && found == pos[i..|needle|] && whole == Trace(needle, h, i, j, required) + found
  }

  /** One placed character. */
  lemma Taken(needle: string, h: string, pos: seq<nat>, i: nat, j0: int, j: nat, required: bool, found: seq<nat>,
    whole: seq<nat>)
    requires Progress(needle, h, pos, i + 1, j0, required, found, whole) && j <= j0
    requires D(needle, h, i, j) != MinusInf && (required || D(needle, h, i, j) == M(needle, h, i, j))
    requires Trace(needle, h, i + 1, j0, required) == Trace(needle, h, i + 1, j, required)
    ensures Progress(needle, h, pos[i := j], i, j - 1, Consecutive(needle, h, i, j), [j] + found, whole)
  {
    TakeColumn(needle, h, i + 1, j, required);
    TakeTracing(needle, h, pos, i, j0, j);
    var next := Consecutive(needle, h, i, j);
    hide D, M, Trace, Tracing, WillFind;
    Regrouped(Trace(needle, h, i, j - 1, next), j, found);
  }

  lemma Finished(needle: string, h: string, pos: seq<nat>, j: int, required: bool, found: seq<nat>, whole: seq<nat>)
    requires Progress(needle, h, pos, 0, j, required, found, whole)
    ensures |needle| <= |pos| && Alignment(needle, h, pos[..|needle|]) && pos[..|needle|] == whole
  {
  }

  /** The backtrace of `fzy_match_positions`. Positions are filled from the last character to the first. */
  method Backtrace(rowsD: seq<array<Score>>, rowsM: seq<array<Score>>, positions: array<nat>,
                   m: nat, ghost needle: string, ghost h: string)
    requires m == |h| && needle != "" && h != ""
    requires AreRows(rowsD, rowsM, needle, h) && |rowsD| == |needle| <= positions.Length
    modifies positions
    ensures M(needle, h, |needle| - 1, |h| - 1) != MinusInf ==>
      && Alignment(needle, h, positions[..|needle|])
      && positions[..|needle|] == Trace(needle, h, |needle|, |h| - 1, false)
  {
    ghost var any := M(needle, h, |needle| - 1, |h| - 1) != MinusInf;
    var i: nat, j: int := |rowsD|, m - 1;
    var required := false;
    ghost var whole: seq<nat>, found: seq<nat> := Trace(needle, h, i, j, required), [];
    assert any ==> Progress(needle, h, positions[..], i, j, required, found, whole);
    hide D, M, Trace, Tracing, Alignment, Progress, WillFind, Consecutive, IsRowD, IsRowM;
    while i > 0
      invariant i <= |needle| && -1 <= j < |h|
      invariant any ==> Progress(needle, h, positions[..], i, j, required, found, whole)
    {
      i := i - 1;
      ghost var j0 := j;
      j := FindColumn(rowsD, rowsM, i, j, required, needle, h);
      if j >= 0 {
        var column: nat := j;
        if any { Taken(needle, h, positions[..], i, j0, column, required, found, whole); }
        required := LastWasConsecutive(rowsD, rowsM, i, column, needle, h);
        Place(positions, i, column);
        found := [column] + found;
        j := j - 1;
      }
    }
    if any { Finished(needle, h, positions[..], j, required, found, whole); }
  }

  method Place(positions: array<nat>, i: nat, j: nat)
    requires i < positions.Length
    modifies positions
    ensures positions[..] == old(positions[..])[i := j]
  {
    positions[i] := j;
  }

  // ---------------------------------------------------------------- when the traced alignment is the best

  /** Character i, placed at column j because the next one asked for it there, gains 1.0 from following its
      predecessor at once; but neither it nor the predecessor is the best of its row up to there, so the
      backtrace does not ask for the predecessor and the gain is lost. */
  ghost predicate LostAt(needle: string, h: string, i: nat, j: nat)
    requires i < |needle| && j < |h|
  {
    && i > 0 && j > 0
    && D(needle, h, i, j) != M(needle, h, i, j)
    && D(needle, h, i - 1, j - 1) != M(needle, h, i - 1, j - 1)
    && M(needle, h, i - 1, j - 1).Plus(BonusAt(h, j)).Less(D(needle, h, i, j))
  }

  /** The backtrace takes a column at which it loses score. */
  ghost predicate Loses(needle: string, h: string, i: nat, j: int, required: bool)
    requires i <= |needle| && j < |h|
    decreases i, j
  {
    if i == 0 || j < 0 then false
    else if D(needle, h, i - 1, j) != MinusInf && (required || D(needle, h, i - 1, j) == M(needle, h, i - 1, j)) then
      var next := i > 1 && j > 0 && M(needle, h, i - 1, j) == D(needle, h, i - 2, j - 1).Plus(MATCH_CONSECUTIVE);
      LostAt(needle, h, i - 1, j) || Loses(needle, h, i - 1, j - 1, next)
    else Loses(needle, h, i, j - 1, required)
  }

  /** The score that the backtrace is after. */
  ghost function Target(needle: string, h: string, i: nat, j: nat, required: bool): Score
    requires 0 < i <= |needle| && j < |h|
  {
    if required then D(needle, h, i - 1, j) else M(needle, h, i - 1, j)
  }

  /** `pos` places the first i characters up to column j, and in that column if asked to or if it is the best. */
  ghost predicate Placed(needle: string, h: string, i: nat, j: nat, required: bool, pos: seq<nat>)
    requires 0 < i <= |needle| && j < |h|
  {
    && |pos| == i && Embeds(needle, h, pos) && pos[i - 1] <= j
    && (pos[i - 1] == j <==> required || D(needle, h, i - 1, j) == M(needle, h, i - 1, j))
  }

  /** Its score, with the gap up to column j. */
  ghost function Reached(needle: string, h: string, i: nat, j: nat, pos: seq<nat>): int
    requires 0 < i == |pos| <= |needle| && j < |h| && Embeds(needle, h, pos)
  {
    Partial(h, pos) + Gap(needle, i - 1) * (j - pos[i - 1])
  }

  /** The score is the target's exactly if nothing is lost, and never above it. */
  ghost predicate Hits(score: int, target: Score, loses: bool) {
    target.Finite? && score <= target.v && (score == target.v <==> !loses)
  }

  ghost predicate Reaches(needle: string, h: string, i: nat, j: nat, required: bool, pos: seq<nat>)
    requires 0 < i <= |needle| && j < |h|
  {
    && Placed(needle, h, i, j, required, pos)
    && Hits(Reached(needle, h, i, j, pos), Target(needle, h, i, j, required), Loses(needle, h, i, j, required))
  }

  /** The scores around a taken column: `d` and `m` of the column, `d'` and `m'` of its diagonal predecessor. */
  lemma TakenScore(d: Score, m: Score, d': Score, m': Score, bonus: int, next: bool, required: bool, at: bool,
    before: int, score: int, loses: bool)
    requires bonus < MATCH_CONSECUTIVE && d.Finite? && m.Finite? && !d'.PlusInf?
    requires !m.Less(d) && !m'.Less(d') && d == Max(m'.Plus(bonus), d'.Plus(MATCH_CONSECUTIVE))
    requires required || d == m
    requires next <==> m == d'.Plus(MATCH_CONSECUTIVE)
    requires Hits(before, if next then d' else m', loses) && (at <==> next || d' == m')
    requires score == before + if at then MATCH_CONSECUTIVE else bonus
    ensures Hits(score, if required then d else m, loses || (d != m && d' != m' && m'.Plus(bonus).Less(d)))
  {
  }

  lemma BehindPrefix(needle: string, h: string, i: nat, j: nat, prefix: seq<nat>)
    requires 0 < i == |prefix| < |needle| && 0 < j < |h| && Embeds(needle, h, prefix) && prefix[i - 1] < j
    requires Lower(needle[i]) == Lower(h[j])
    ensures Embeds(needle, h, prefix + [j])
    ensures Reached(needle, h, i + 1, j, prefix + [j])
      == Reached(needle, h, i, j - 1, prefix) + if prefix[i - 1] == j - 1 then MATCH_CONSECUTIVE else BonusAt(h, j)
  {
    var pos := Extend(needle, h, prefix, j);
  }

  lemma TakenLoses(needle: string, h: string, i: nat, j: nat, required: bool)
    requires 0 < i < |needle| && 0 < j < |h| && D(needle, h, i, j) != MinusInf
    requires required || D(needle, h, i, j) == M(needle, h, i, j)
    ensures Loses(needle, h, i + 1, j, required) <==>
      Loses(needle, h, i, j - 1, Consecutive(needle, h, i, j)) || LostAt(needle, h, i, j)
  {
  }

  /** Placing character i at column j behind a prefix that was followed back. */
  lemma TakenReaches(needle: string, h: string, i: nat, j: nat, required: bool, prefix: seq<nat>)
    requires 0 < i < |needle| && 0 < j < |h| && D(needle, h, i, j) != MinusInf
    requires required || D(needle, h, i, j) == M(needle, h, i, j)
    requires Reaches(needle, h, i, j - 1, Consecutive(needle, h, i, j), prefix)
    ensures Reaches(needle, h, i + 1, j, required, prefix + [j])
  {
    hide D, M, Loses, Embeds, Reached, Max, Hits;
    Cell(needle, h, i, j);
    MIsMax(needle, h, i, j);
    MIsMax(needle, h, i - 1, j - 1);
    BehindPrefix(needle, h, i, j, prefix);
    TakenLoses(needle, h, i, j, required);
    var next := Consecutive(needle, h, i, j);
    var at := prefix[i - 1] == j - 1;
    TakenScore(D(needle, h, i, j), M(needle, h, i, j), D(needle, h, i - 1, j - 1), M(needle, h, i - 1, j - 1),
      BonusAt(h, j), next, required, at, Reached(needle, h, i, j - 1, prefix),
      Reached(needle, h, i + 1, j, prefix + [j]), Loses(needle, h, i, j - 1, next));
  }

  lemma MIsMax(needle: string, h: string, i: nat, j: nat)
    requires i < |needle| && j < |h|
    ensures !D(needle, h, i, j).PlusInf? && !M(needle, h, i, j).PlusInf? && !M(needle, h, i, j).Less(D(needle, h, i, j))
    ensures D(needle, h, i, j).Finite? ==> M(needle, h, i, j).Finite?
  {
    FiniteScores(needle, h, i, j);
  }

  /** Passing over column j. */
  lemma SkipReaches(needle: string, h: string, i: nat, j: nat, pos: seq<nat>)
    requires 0 < i <= |needle| && 0 < j < |h|
    requires D(needle, h, i - 1, j) == MinusInf || D(needle, h, i - 1, j) != M(needle, h, i - 1, j)
    requires M(needle, h, i - 1, j) != MinusInf
    requires Reaches(needle, h, i, j - 1, false, pos)
    ensures Reaches(needle, h, i, j, false, pos)
  {
    assert Loses(needle, h, i, j, false) == Loses(needle, h, i, j - 1, false);
    assert M(needle, h, i - 1, j) == M(needle, h, i - 1, j - 1).Plus(Gap(needle, i - 1));
    assert D(needle, h, i - 1, j) != M(needle, h, i - 1, j);
    hide D, M, Loses, Embeds, Partial;
    assert Reached(needle, h, i, j, pos) == Reached(needle, h, i, j - 1, pos) + Gap(needle, i - 1);
  }

  /** The first character of all. */
  lemma FirstReaches(needle: string, h: string, j: nat, required: bool)
    requires needle != "" && j < |h| && D(needle, h, 0, j) != MinusInf
    requires required || D(needle, h, 0, j) == M(needle, h, 0, j)
    ensures Trace(needle, h, 1, j, required) == [j] && Reaches(needle, h, 1, j, required, [j])
  {
    assert !Loses(needle, h, 1, j, required);
  }

  lemma {:induction false} TraceReaches(needle: string, h: string, i: nat, j: nat, required: bool)
    requires 0 < i <= |needle| && j < |h| && WillFind(needle, h, i, j, required)
    ensures Reaches(needle, h, i, j, required, Trace(needle, h, i, j, required))
    decreases i, j
  {
    hide D, M, Reaches;
    if D(needle, h, i - 1, j) != MinusInf && (required || D(needle, h, i - 1, j) == M(needle, h, i - 1, j)) {
      TakeColumn(needle, h, i, j, required);
      if i > 1 {
        var next := Consecutive(needle, h, i - 1, j);
        TraceReaches(needle, h, i - 1, j - 1, next);
        TakenReaches(needle, h, i - 1, j, required, Trace(needle, h, i - 1, j - 1, next));
      } else {
        FirstReaches(needle, h, j, required);
      }
    } else {
      SkipColumn(needle, h, i, j, required);
      TraceReaches(needle, h, i, j - 1, required);
      SkipReaches(needle, h, i, j, Trace(needle, h, i, j - 1, required));
    }
  }

  /** An alignment with the best score of all. */
  ghost predicate Optimal(needle: string, h: string, pos: seq<nat>)
    requires needle != "" && h != ""
  {
    Alignment(needle, h, pos) && Finite(Total(h, pos)) == M(needle, h, |needle| - 1, |h| - 1)
  }

  /** The positions attain the best score exactly if the backtrace takes no column at which it loses score. */
  lemma TraceIsBestExactly(needle: string, h: string)
    requires needle != "" && h != "" && M(needle, h, |needle| - 1, |h| - 1) != MinusInf
    ensures Alignment(needle, h, Trace(needle, h, |needle|, |h| - 1, false))
    ensures Optimal(needle, h, Trace(needle, h, |needle|, |h| - 1, false))
      <==> !Loses(needle, h, |needle|, |h| - 1, false)
  {
    hide D, M, Loses, Trace, Reaches;
    TraceReaches(needle, h, |needle|, |h| - 1, false);
    WholeReached(needle, h, Trace(needle, h, |needle|, |h| - 1, false));
  }

  lemma WholeReached(needle: string, h: string, pos: seq<nat>)
    requires needle != "" && h != "" && Reaches(needle, h, |needle|, |h| - 1, false, pos)
    ensures Alignment(needle, h, pos)
    ensures Hits(Total(h, pos), M(needle, h, |needle| - 1, |h| - 1), Loses(needle, h, |needle|, |h| - 1, false))
  {
    hide D, M, Loses, Partial, Hits, Embeds;
  }

  /** Score is only lost at a character that the next one asked for. */
  lemma {:induction false} LosesAt(needle: string, h: string, i: nat, j: int, required: bool) returns (k: nat, c: nat)
    requires i <= |needle| && j < |h| && Loses(needle, h, i, j, required)
    ensures k < |needle| && c < |h| && D(needle, h, k, c) != MinusInf && LostAt(needle, h, k, c)
    ensures if required then k < i else k + 1 < i
    decreases i, j
  {
    if D(needle, h, i - 1, j) != MinusInf && (required || D(needle, h, i - 1, j) == M(needle, h, i - 1, j)) {
      if LostAt(needle, h, i - 1, j) {
        k, c := i - 1, j;
      } else {
        k, c := LosesAt(needle, h, i - 1, j - 1, Consecutive(needle, h, i - 1, j));
      }
    } else {
      k, c := LosesAt(needle, h, i, j - 1, required);
    }
  }

  /** Every character of the needle but the first and the last is at one place of the haystack only. */
  ghost predicate InnerOnce(needle: string, h: string) {
    forall i, j, k :: 0 < i < |needle| - 1 && 0 <= j < k < |h| && Lower(h[j]) == Lower(needle[i]) ==>
      Lower(h[k]) != Lower(needle[i])
  }

  /** So the positions are best whenever no inner character of the needle can be placed in two ways, and
      always for needles of one or two characters. */
  lemma TraceIsBest(needle: string, h: string)
    requires needle != "" && h != "" && M(needle, h, |needle| - 1, |h| - 1) != MinusInf
    requires |needle| <= 2 || InnerOnce(needle, h)
    ensures Optimal(needle, h, Trace(needle, h, |needle|, |h| - 1, false))
  {
    if Loses(needle, h, |needle|, |h| - 1, false) {
      var k, c := LosesAt(needle, h, |needle|, |h| - 1, false);
      TwoPlaces(needle, h, k, c);
    }
    TraceIsBestExactly(needle, h);
  }

  /** A character that is better placed before column c can be placed there. */
  lemma TwoPlaces(needle: string, h: string, i: nat, c: nat)
    requires i < |needle| && c < |h| && D(needle, h, i, c) != MinusInf && D(needle, h, i, c) != M(needle, h, i, c)
    ensures Lower(needle[i]) == Lower(h[c]) && exists j :: 0 <= j < c && Lower(h[j]) == Lower(needle[i])
  {
    hide D, M, Partial, Embeds;
    Cell(needle, h, i, c);
    MIsMax(needle, h, i, c);
    var pos := MAttained(needle, h, i, c);
    DBounds(needle, h, pos);
    PlacedAt(needle, h, pos, i);
    assert pos[i] < c && Lower(h[pos[i]]) == Lower(needle[i]);
  }

  lemma PlacedAt(needle: string, h: string, pos: seq<nat>, i: nat)
    requires Embeds(needle, h, pos) && i < |pos|
    ensures pos[i] < |h| && Lower(h[pos[i]]) == Lower(needle[i])
  {
  }

  // ---------------------------------------------------------------- and when it is not

  const NEEDLE := "abc"
  const HAYSTACK := "abxabc"

  lemma FirstRow()
    ensures D(NEEDLE, HAYSTACK, 0, 0) == M(NEEDLE, HAYSTACK, 0, 0) == Finite(900)
    ensures D(NEEDLE, HAYSTACK, 0, 1) == D(NEEDLE, HAYSTACK, 0, 2) == MinusInf
    ensures D(NEEDLE, HAYSTACK, 0, 3) == Finite(-15) && M(NEEDLE, HAYSTACK, 0, 3) == Finite(870)
  {
    assert M(NEEDLE, HAYSTACK, 0, 1) == Finite(890);
    assert M(NEEDLE, HAYSTACK, 0, 2) == Finite(880);
  }

  lemma SecondRow()
    ensures D(NEEDLE, HAYSTACK, 1, 4) == Finite(985) && M(NEEDLE, HAYSTACK, 1, 4) == Finite(1870)
  {
    FirstRow();
    assert M(NEEDLE, HAYSTACK, 1, 0) == MinusInf;
    assert M(NEEDLE, HAYSTACK, 1, 1) == Finite(1900);
    assert M(NEEDLE, HAYSTACK, 1, 2) == Finite(1890);
    assert M(NEEDLE, HAYSTACK, 1, 3) == Finite(1880);
  }

  lemma ThirdRow()
    ensures D(NEEDLE, HAYSTACK, 2, 5) == M(NEEDLE, HAYSTACK, 2, 5) == Finite(1985)
  {
    SecondRow();
    assert M(NEEDLE, HAYSTACK, 2, 0) == MinusInf;
    assert M(NEEDLE, HAYSTACK, 2, 1) == MinusInf;
    assert M(NEEDLE, HAYSTACK, 2, 2) == MinusInf;
    assert M(NEEDLE, HAYSTACK, 2, 3) == MinusInf;
    assert M(NEEDLE, HAYSTACK, 2, 4) == MinusInf;
  }

  /** Where a forced match is followed back, the backtrace asks the wrong matrix whether the one before is
      forced too, and here leaves the best alignment for a worse one. */
  lemma TraceMissesBest()
    ensures Loses(NEEDLE, HAYSTACK, 3, 5, false) && Trace(NEEDLE, HAYSTACK, 3, 5, false) == [0, 4, 5]
    ensures Total(HAYSTACK, [0, 4, 5]) == 1870 && M(NEEDLE, HAYSTACK, 2, 5) == Finite(1985)
  {
    TracedAll();
    TracedScore();
    ThirdRow();
    hide D, M, Trace, Loses, Partial;
    TraceIsBestExactly(NEEDLE, HAYSTACK);
  }

  lemma TracedScore()
    ensures Total(HAYSTACK, [0, 4, 5]) == 1870
  {
    hide D, M, Trace, Loses;
    assert [0, 4, 5][..2] == [0, 4] && [0, 4][..1] == [0];
    assert Partial(HAYSTACK, [0]) == 900 && Partial(HAYSTACK, [0, 4]) == 870;
  }

  lemma TracedAll()
    ensures Trace(NEEDLE, HAYSTACK, 3, 5, false) == [0, 4, 5]
  {
    TracedTail();
    SecondRow();
    ThirdRow();
    hide D, M;
  }

  lemma TracedTail()
    ensures Trace(NEEDLE, HAYSTACK, 2, 4, true) == [0, 4]
  {
    FirstRow();
    SecondRow();
    hide D, M;
    assert Trace(NEEDLE, HAYSTACK, 1, 0, false) == [0];
    assert Trace(NEEDLE, HAYSTACK, 1, 1, false) == [0];
    assert Trace(NEEDLE, HAYSTACK, 1, 2, false) == [0];
    assert Trace(NEEDLE, HAYSTACK, 1, 3, false) == [0];
  }
}
