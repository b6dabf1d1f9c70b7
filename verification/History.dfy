/** What src/history.c keeps, loads and writes, on sequences of entries. */
module HistorySpec {
  import opened DList
  import opened Indexed

  datatype Option<T> = None | Some(value: T)

  datatype Item = Item(prefix: string, line: string)
  datatype Entry = Entry(prefix: string, line: string, isNew: bool)

  function Place(es: seq<Entry>, line: string): (i: nat)
    ensures i <= |es| && (i < |es| ==> es[i].line == line)
    ensures forall k :: 0 <= k < i ==> es[k].line != line
  {
    if es == [] || es[0].line == line then 0 else 1 + Place(es[1..], line)
  }

  /** `append_or_move`. */
  function Move(es: seq<Entry>, it: Item, isNew: bool): seq<Entry> {
    var i := Place(es, it.line);
    if i < |es| then Without(es, i) + [es[i].(isNew := isNew)]
    else es + [Entry(it.prefix, it.line, isNew)]
  }

  function MoveAll(es: seq<Entry>, items: seq<Item>, isNew: bool): seq<Entry> {
    if items == [] then es else Move(MoveAll(es, items[..|items| - 1], isNew), items[|items| - 1], isNew)
  }

  /** `history_append`. */
  function Append(es: seq<Entry>, it: Item): seq<Entry> {
    if it.prefix == "" || it.line == "" then es else Move(es, it, true)
  }

  // ---------------------------------------------------------------- what any appends leave

  /** Every line is dropped that comes again later. */
  function KeepLast(lines: seq<string>): seq<string> {
    if lines == [] then []
    else if lines[0] in lines[1..] then KeepLast(lines[1..])
    else [lines[0]] + KeepLast(lines[1..])
  }

  function ItemLines(items: seq<Item>): (ls: seq<string>)
    ensures |ls| == |items| && forall i :: 0 <= i < |items| ==> ls[i] == items[i].line
  {
    seq(|items|, i requires 0 <= i < |items| => items[i].line)
  }

  function Items(es: seq<Entry>): (items: seq<Item>)
    ensures |items| == |es| && forall i :: 0 <= i < |es| ==> items[i] == Item(es[i].prefix, es[i].line)
  {
    seq(|es|, i requires 0 <= i < |es| => Item(es[i].prefix, es[i].line))
  }

  function Lines(es: seq<Entry>): (ls: seq<string>)
    ensures |ls| == |es| && forall i :: 0 <= i < |es| ==> ls[i] == es[i].line
  {
    ItemLines(Items(es))
  }

  /** The prefix a line first came with. */
  function FirstPrefix(items: seq<Item>, line: string): string {
    if items == [] then ""
    else if items[0].line == line then items[0].prefix
    else FirstPrefix(items[1..], line)
  }

  ghost predicate Distinct(es: seq<Entry>) {
    forall i, j :: 0 <= i < j < |es| ==> es[i].line != es[j].line
  }

  lemma {:induction false} KeepLastSnoc(lines: seq<string>, x: string)
    ensures KeepLast(lines + [x]) == Minus(KeepLast(lines), x) + [x]
  {
    if lines == [] {
      assert lines + [x] == [x];
    } else {
      KeepLastSnoc(lines[1..], x);
      assert (lines + [x])[1..] == lines[1..] + [x];
      assert lines[0] in lines[1..] + [x] <==> lines[0] in lines[1..] || lines[0] == x;
    }
  }

  lemma MoveLines(es: seq<Entry>, it: Item, isNew: bool)
    requires Distinct(es)
    ensures Lines(Move(es, it, isNew)) == Minus(Lines(es), it.line) + [it.line]
    ensures Distinct(Move(es, it, isNew))
  {
    var i := Place(es, it.line);
    if i < |es| {
      MinusAt(Lines(es), i);
    } else {
      MinusAbsent(Lines(es), it.line);
    }
  }

  lemma {:induction false} KeepLastDistinct(es: seq<Entry>)
    requires Distinct(es)
    ensures KeepLast(Lines(es)) == Lines(es)
  {
    if es != [] {
      assert Lines(es)[1..] == Lines(es[1..]);
      KeepLastDistinct(es[1..]);
    }
  }

  /** However lines are appended, each is kept where it came last. */
  lemma {:induction false} KeepsLast(es: seq<Entry>, items: seq<Item>, isNew: bool)
    requires Distinct(es)
    ensures Distinct(MoveAll(es, items, isNew))
    ensures Lines(MoveAll(es, items, isNew)) == KeepLast(Lines(es) + ItemLines(items))
  {
    if items == [] {
      KeepLastDistinct(es);
      assert Lines(es) + ItemLines(items) == Lines(es);
    } else {
      var front, it := items[..|items| - 1], items[|items| - 1];
      assert Lines(es) + ItemLines(items) == Lines(es) + ItemLines(front) + [it.line];
      assert MoveAll(es, items, isNew) == Move(MoveAll(es, front, isNew), it, isNew);
      hide *;
      KeepsLast(es, front, isNew);
      MoveLines(MoveAll(es, front, isNew), it, isNew);
      KeepLastSnoc(Lines(es) + ItemLines(front), it.line);
    }
  }

  lemma {:induction false} FirstPrefixSnoc(items: seq<Item>, it: Item, line: string)
    ensures FirstPrefix(items + [it], line) ==
      if line in ItemLines(items) then FirstPrefix(items, line) else if it.line == line then it.prefix else ""
  {
    if items == [] {
      assert items + [it] == [it];
    } else {
      FirstPrefixSnoc(items[1..], it, line);
      assert (items + [it])[1..] == items[1..] + [it];
      assert ItemLines(items)[1..] == ItemLines(items[1..]);
      assert ItemLines(items)[0] == items[0].line;
    }
  }

  /** The entry a moved or appended line comes from: `o` is it in the old list, if the line was there. */
  lemma MovedFrom(es: seq<Entry>, it: Item, isNew: bool, e: Entry) returns (o: Option<Entry>)
    requires Distinct(es) && e in Move(es, it, isNew)
    ensures e.line != it.line ==> o == Some(e)
    ensures e.line == it.line ==> e.isNew == isNew
    ensures match o
      case Some(x) => x in es && x.line in Lines(es) && x.line == e.line && x.prefix == e.prefix
      case None => e == Entry(it.prefix, it.line, isNew) && it.line !in Lines(es)
  {
    var i := Place(es, it.line);
    if e.line != it.line {
      MemberLines(es);
      o := Some(e);
    } else if i < |es| {
      assert Lines(es)[i] == it.line;
      o := Some(es[i]);
    } else {
      o := None;
    }
  }

  /** Each entry carries the prefix its line first came with, and is new exactly if it was appended as such,
      or not touched and new before. */
  lemma {:induction false} KeepsFirstPrefix(es: seq<Entry>, items: seq<Item>, isNew: bool, e: Entry)
    requires Distinct(es) && e in MoveAll(es, items, isNew)
    ensures e.prefix == FirstPrefix(Items(es) + items, e.line)
    ensures if e.line in ItemLines(items) then e.isNew == isNew else e in es
  {
    if items == [] {
      FirstPrefixOf(es, e);
      assert Items(es) + items == Items(es);
    } else {
      var front, it := items[..|items| - 1], items[|items| - 1];
      LastItem(es, items, isNew);
      hide *;
      KeepsLast(es, front, isNew);
      var o := MovedFrom(MoveAll(es, front, isNew), it, isNew, e);
      FirstPrefixSnoc(Items(es) + front, it, e.line);
      SameLines(es, front, isNew, e.line);
      if o.Some? {
        KeepsFirstPrefix(es, front, isNew, o.value);
      }
    }
  }

  lemma LastItem(es: seq<Entry>, items: seq<Item>, isNew: bool)
    requires items != []
    ensures var front, it := items[..|items| - 1], items[|items| - 1];
      && ItemLines(items) == ItemLines(front) + [it.line]
      && Items(es) + items == Items(es) + front + [it]
      && MoveAll(es, items, isNew) == Move(MoveAll(es, front, isNew), it, isNew)
  {
  }

  lemma MemberLines(es: seq<Entry>)
    ensures forall x :: x in es ==> x.line in Lines(es)
  {
    forall x | x in es
      ensures x.line in Lines(es)
    {
      var i :| 0 <= i < |es| && es[i] == x;
      assert Lines(es)[i] == x.line;
    }
  }

  lemma {:induction false} FirstPrefixOf(es: seq<Entry>, e: Entry)
    requires Distinct(es) && e in es
    ensures FirstPrefix(Items(es), e.line) == e.prefix
  {
    if e != es[0] {
      assert Items(es)[1..] == Items(es[1..]);
      FirstPrefixOf(es[1..], e);
    }
  }

  lemma SameLines(es: seq<Entry>, items: seq<Item>, isNew: bool, line: string)
    requires Distinct(es)
    ensures line in ItemLines(Items(es) + items) <==> line in Lines(MoveAll(es, items, isNew))
  {
    KeepsLast(es, items, isNew);
    KeepLastMembers(Lines(es) + ItemLines(items), line);
    assert ItemLines(Items(es) + items) == Lines(es) + ItemLines(items);
  }

  lemma {:induction false} KeepLastMembers(lines: seq<string>, line: string)
    ensures line in KeepLast(lines) <==> line in lines
  {
    if lines != [] { KeepLastMembers(lines[1..], line); }
  }

  function AppendAll(es: seq<Entry>, items: seq<Item>): seq<Entry> {
    if items == [] then es else Append(AppendAll(es, items[..|items| - 1]), items[|items| - 1])
  }

  function Usable(items: seq<Item>): seq<Item> {
    if items == [] then []
    else
      var it := items[|items| - 1];
      Usable(items[..|items| - 1]) + if it.prefix == "" || it.line == "" then [] else [it]
  }

  lemma {:induction false} AppendsAreMoves(es: seq<Entry>, items: seq<Item>)
    ensures AppendAll(es, items) == MoveAll(es, Usable(items), true)
  {
    if items != [] {
      var front, it := items[..|items| - 1], items[|items| - 1];
      AppendsAreMoves(es, front);
      assert Usable(front) + [] == Usable(front);
      assert (Usable(front) + [it])[..|Usable(front)|] == Usable(front);
    }
  }

  /** After any appends to an empty history: the lines appended, each once and where it came last, each with
      the prefix it first came with; items without prefix or line are ignored. */
  lemma AfterAnyAppends(items: seq<Item>)
    ensures var es := AppendAll([], items);
      && Distinct(es) && Lines(es) == KeepLast(ItemLines(Usable(items)))
      && forall e :: e in es ==> e.prefix == FirstPrefix(Usable(items), e.line) && e.isNew
  {
    var used := Usable(items);
    AppendsAreMoves([], items);
    KeepsLast([], used, true);
    assert Lines([]) + ItemLines(used) == ItemLines(used) && Items([]) + used == used;
    forall e | e in MoveAll([], used, true)
      ensures e.prefix == FirstPrefix(used, e.line) && e.isNew
    {
      KeepsFirstPrefix([], used, true, e);
    }
  }
}

/** The history file: one line per entry, prefix and line separated by a tab. */
module HistoryFile {
  import opened DList
  import opened HistorySpec

  /** Where `c` first occurs, or the length (`strchr`). */
  function IndexOf(s: string, c: char): (i: nat)
    ensures i <= |s| && (i < |s| ==> s[i] == c) && c !in s[..i]
  {
    if s == [] || s[0] == c then 0
    else
      var i := 1 + IndexOf(s[1..], c);
      assert s[..i] == [s[0]] + s[1..][..i - 1];
      i
  }

  /** What successive calls of `getline` read, newlines removed; the last line may lack one. */
  function SplitLines(text: string): seq<string>
    decreases |text|
  {
    var i := IndexOf(text, '\n');
    if text == "" then []
    else if i == |text| then [text]
    else [text[..i]] + SplitLines(text[i + 1..])
  }

  /** The entry on a line, unless the line is malformed. */
  function ParseLine(buf: string): (r: Option<Item>)
    ensures r.Some? && '\n' !in buf ==> ProperItem(r.value)
    ensures r.Some? ==> r.value.prefix != "" && r.value.line != ""
  {
    var i := IndexOf(buf, '\t');
    if i == |buf| || i == 0 || i + 1 == |buf| then None else Some(Item(buf[..i], buf[i + 1..]))
  }

  /** A line is an entry exactly if it has a tab, and text before the first tab and behind it; anything else is
      skipped. */
  lemma ParsedExactly(buf: string, it: Item)
    ensures ParseLine(buf) == Some(it) <==>
      it.prefix != "" && it.line != "" && '\t' !in it.prefix && buf == it.prefix + "\t" + it.line
    ensures '\t' !in buf ==> ParseLine(buf) == None
  {
    if it.prefix != "" && it.line != "" && '\t' !in it.prefix && buf == it.prefix + "\t" + it.line {
      assert buf[..|it.prefix|] == it.prefix && buf[|it.prefix| + 1..] == it.line;
      IndexIs(buf, '\t', |it.prefix|);
    }
    if ParseLine(buf) == Some(it) {
      var i := IndexOf(buf, '\t');
      assert buf == buf[..i] + [buf[i]] + buf[i + 1..];
    }
  }

  function ParseAll(lines: seq<string>): seq<Item> {
    if lines == [] then []
    else match ParseLine(lines[0])
      case Some(it) => [it] + ParseAll(lines[1..])
      case None => ParseAll(lines[1..])
  }

  /** `history_load`. */
  function Load(text: string): seq<Entry> {
    MoveAll([], ParseAll(SplitLines(text)), false)
  }

  /** `write_line`. */
  function Row(e: Entry): string {
    e.prefix + "\t" + e.line + "\n"
  }

  function Written(es: seq<Entry>): string {
    if es == [] then "" else Written(es[..|es| - 1]) + Row(es[|es| - 1])
  }

  /** The entries that the file format can express. */
  predicate ProperItem(it: Item) {
    it.prefix != "" && '\t' !in it.prefix && '\n' !in it.prefix && it.line != "" && '\n' !in it.line
  }

  predicate Proper(e: Entry) {
    ProperItem(Item(e.prefix, e.line))
  }

  function Olds(es: seq<Entry>): (os: seq<Entry>)
    ensures |os| == |es| && forall i :: 0 <= i < |es| ==> os[i] == es[i].(isNew := false)
  {
    seq(|es|, i requires 0 <= i < |es| => es[i].(isNew := false))
  }

  function LastOf<T>(s: seq<T>, n: int): seq<T> {
    if n >= |s| then s else if n <= 0 then [] else s[|s| - n..]
  }

  /** The entries that `history_write` takes over from memory: the new ones. */
  function NewItems(es: seq<Entry>): seq<Item> {
    if es == [] then []
    else
      var e := es[|es| - 1];
      var front := NewItems(es[..|es| - 1]);
      if e.isNew && e.prefix != "" && e.line != "" then front + [Item(e.prefix, e.line)] else front
  }

  /** What is on disk merged with what is new in memory. */
  function Merged(disk: string, own: seq<Entry>): seq<Entry> {
    MoveAll(Load(disk), NewItems(own), true)
  }

  // ---------------------------------------------------------------- round trips

  lemma {:induction false} IndexIs(s: string, c: char, n: nat)
    requires n < |s| && s[n] == c && c !in s[..n]
    ensures IndexOf(s, c) == n
  {
    if n > 0 {
      assert s[0] in s[..n] && s[1..][..n - 1] == s[..n][1..];
      IndexIs(s[1..], c, n - 1);
    }
  }

  lemma SplitRow(row: string, rest: string)
    requires '\n' !in row
    ensures SplitLines(row + "\n" + rest) == [row] + SplitLines(rest)
  {
    var text := row + "\n" + rest;
    assert text[..|row|] == row && text[|row| + 1..] == rest;
    IndexIs(text, '\n', |row|);
  }

  lemma ParseRow(prefix: string, line: string)
    requires ProperItem(Item(prefix, line))
    ensures ParseLine(prefix + "\t" + line) == Some(Item(prefix, line))
  {
    var buf := prefix + "\t" + line;
    assert buf[..|prefix|] == prefix && buf[|prefix| + 1..] == line;
    IndexIs(buf, '\t', |prefix|);
  }

  lemma {:induction false} ParseWritten(es: seq<Entry>, rest: string)
    requires forall e :: e in es ==> Proper(e)
    ensures ParseAll(SplitLines(Written(es) + rest)) == Items(es) + ParseAll(SplitLines(rest))
  {
    if es == [] {
      assert "" + rest == rest;
    } else {
      var front, e := es[..|es| - 1], es[|es| - 1];
      WrittenSnoc(es, rest);
      assert Proper(e) && forall x :: x in front ==> x in es;
      hide *;
      ParseWritten(front, Row(e) + rest);
      ParseFirst(e, rest);
      Regroup(Items(front), Item(e.prefix, e.line), ParseAll(SplitLines(rest)));
    }
  }

  lemma WrittenSnoc(es: seq<Entry>, rest: string)
    requires es != []
    ensures var front, e := es[..|es| - 1], es[|es| - 1];
      && Written(es) + rest == Written(front) + (Row(e) + rest)
      && Items(es) == Items(front) + [Item(e.prefix, e.line)]
  {
    hide Row;
  }

  lemma Regroup<T>(a: seq<T>, x: T, c: seq<T>)
    ensures a + ([x] + c) == a + [x] + c
  {
  }

  lemma ParseFirst(e: Entry, rest: string)
    requires Proper(e)
    ensures ParseAll(SplitLines(Row(e) + rest)) == [Item(e.prefix, e.line)] + ParseAll(SplitLines(rest))
  {
    var row := e.prefix + "\t" + e.line;
    assert Row(e) + rest == row + "\n" + rest;
    SplitRow(row, rest);
    ParseRow(e.prefix, e.line);
    hide SplitLines, ParseLine;
    assert ([row] + SplitLines(rest))[1..] == SplitLines(rest);
  }

  lemma MoveUnseen(es: seq<Entry>, n: nat)
    requires Distinct(es) && n == |es| - 1
    ensures Move(Olds(es[..n]), Items(es)[n], false) == Olds(es)
  {
    var was := Olds(es[..n]);
    assert forall k :: 0 <= k < n ==> was[k].line == es[k].line;
    assert Place(was, es[n].line) == n;
  }

  lemma {:induction false} MoveDistinct(es: seq<Entry>)
    requires Distinct(es)
    ensures MoveAll([], Items(es), false) == Olds(es)
  {
    if es != [] {
      var n := |es| - 1;
      MoveDistinct(es[..n]);
      assert Items(es)[..n] == Items(es[..n]);
      MoveUnseen(es, n);
    }
  }

  lemma {:induction false} SplitNoNewline(text: string)
    ensures forall l :: l in SplitLines(text) ==> '\n' !in l
    decreases |text|
  {
    var i := IndexOf(text, '\n');
    if i < |text| {
      SplitNoNewline(text[i + 1..]);
    } else {
      assert text[..i] == text;
    }
  }

  lemma {:induction false} ParsedProper(lines: seq<string>)
    requires forall l :: l in lines ==> '\n' !in l
    ensures forall it :: it in ParseAll(lines) ==> ProperItem(it)
  {
    if lines != [] {
      ParsedProper(lines[1..]);
      assert lines[0] in lines;
    }
  }

  lemma {:induction false} MovedProper(items: seq<Item>)
    requires forall it :: it in items ==> ProperItem(it)
    ensures forall e :: e in MoveAll([], items, false) ==> Proper(e) && !e.isNew
  {
    if items != [] { MovedProper(items[..|items| - 1]); }
  }

  /** A loaded history holds each line once, and only entries that can be written. */
  lemma Loaded(text: string)
    ensures Distinct(Load(text))
    ensures forall e :: e in Load(text) ==> Proper(e) && !e.isNew
  {
    var items := ParseAll(SplitLines(text));
    SplitNoNewline(text);
    ParsedProper(SplitLines(text));
    MovedProper(items);
    KeepsLast([], items, false);
  }

  /** A history without duplicates loads back unchanged from its file exactly if no prefix holds a tab or
      newline, no line holds a newline, and none is empty. */
  lemma LoadsBack(es: seq<Entry>)
    requires Distinct(es)
    ensures Load(Written(es)) == Olds(es) <==> forall e :: e in es ==> Proper(e)
  {
    if forall e :: e in es ==> Proper(e) {
      ParseWritten(es, "");
      assert Written(es) + "" == Written(es);
      assert Items(es) + [] == Items(es);
      MoveDistinct(es);
    } else {
      var e :| e in es && !Proper(e);
      var i :| 0 <= i < |es| && es[i] == e;
      Loaded(Written(es));
      assert Olds(es)[i] in Olds(es) && !Proper(Olds(es)[i]);
    }
  }

  /** Whether `history_append` accepts the entry. */
  predicate Accepted(e: Entry) {
    e.prefix != "" && e.line != ""
  }

  /** Only new entries are taken over, and all of them. */
  lemma {:induction false} NewItemsAre(own: seq<Entry>)
    ensures forall it :: it in NewItems(own) <==>
      exists o :: o in own && o.isNew && Accepted(o) && it == Item(o.prefix, o.line)
  {
    if own != [] {
      var front, e := own[..|own| - 1], own[|own| - 1];
      NewItemsAre(front);
      assert own == front + [e];
    }
  }

  /** What the merge holds: without new entries, the disk's; an entry marked new is one of memory's new lines, any
      other is on disk as it is; and every new line that is accepted is there, marked new. */
  lemma MergeExactly(disk: string, own: seq<Entry>)
    ensures (forall o :: o in own ==> !o.isNew) ==> Merged(disk, own) == Load(disk)
    ensures forall e :: e in Merged(disk, own) && e.isNew ==>
      exists o :: o in own && o.isNew && Accepted(o) && o.line == e.line
    ensures forall e :: e in Merged(disk, own) && !e.isNew ==> e in Load(disk)
    ensures forall o :: o in own && o.isNew && Accepted(o) ==>
      exists e :: e in Merged(disk, own) && e.isNew && e.line == o.line
  {
    if forall o :: o in own ==> !o.isNew { MergeNothing(disk, own); }
    hide Merged, Load;
    forall e | e in Merged(disk, own)
      ensures if e.isNew then exists o :: o in own && o.isNew && Accepted(o) && o.line == e.line else e in Load(disk)
    {
      MergedEntry(disk, own, e);
    }
    forall o | o in own && o.isNew && Accepted(o)
      ensures exists e :: e in Merged(disk, own) && e.isNew && e.line == o.line
    {
      MergedLine(disk, own, o);
    }
  }

  lemma MergeNothing(disk: string, own: seq<Entry>)
    requires forall o :: o in own ==> !o.isNew
    ensures Merged(disk, own) == Load(disk)
  {
    NewItemsAre(own);
    if NewItems(own) != [] { assert NewItems(own)[0] in NewItems(own); }
  }

  lemma MergedEntry(disk: string, own: seq<Entry>, e: Entry)
    requires e in Merged(disk, own)
    ensures if e.isNew then exists o :: o in own && o.isNew && Accepted(o) && o.line == e.line else e in Load(disk)
  {
    var items := NewItems(own);
    NewItemsAre(own);
    Loaded(disk);
    hide Load, NewItems;
    KeepsFirstPrefix(Load(disk), items, true, e);
    if e.isNew {
      assert e.line in ItemLines(items);
      var i :| 0 <= i < |items| && items[i].line == e.line;
      assert items[i] in items;
    }
  }

  lemma MergedLine(disk: string, own: seq<Entry>, o: Entry)
    requires o in own && o.isNew && Accepted(o)
    ensures exists e :: e in Merged(disk, own) && e.isNew && e.line == o.line
  {
    NewItemsAre(own);
    Loaded(disk);
    TakenIn(Load(disk), NewItems(own), Item(o.prefix, o.line));
  }

  lemma TakenIn(es: seq<Entry>, items: seq<Item>, it: Item)
    requires Distinct(es) && it in items
    ensures exists e :: e in MoveAll(es, items, true) && e.isNew && e.line == it.line
  {
    var merged := MoveAll(es, items, true);
    KeepsLast(es, items, true);
    var k :| 0 <= k < |items| && items[k] == it;
    assert ItemLines(items)[k] == it.line;
    KeepLastMembers(Lines(es) + ItemLines(items), it.line);
    assert (Lines(es) + ItemLines(items))[|es| + k] == it.line;
    var i :| 0 <= i < |Lines(merged)| && Lines(merged)[i] == it.line;
    KeepsFirstPrefix(es, items, true, merged[i]);
    assert merged[i] in merged && merged[i].line in ItemLines(items);
  }

  /** In a merge the old entries come first, and the new ones in the order of memory. */
  lemma MergeOrder(disk: string, own: seq<Entry>, i: nat, j: nat)
    requires Distinct(own) && i < j < |own|
    requires own[i].isNew && Accepted(own[i]) && own[j].isNew && Accepted(own[j])
    ensures exists a, b ::
      && 0 <= a < b < |Merged(disk, own)|
      && Merged(disk, own)[a].line == own[i].line && Merged(disk, own)[b].line == own[j].line
  {
    var items, ls := NewItems(own), Lines(Load(disk));
    Loaded(disk);
    KeepsLast(Load(disk), items, true);
    var a, b := NewItemsOrder(own, i, j);
    NewItemsDistinct(own);
    KeepLastSuffix(ls, ItemLines(items));
    var merged := Merged(disk, own);
    var n := |merged| - |items|;
    assert Lines(merged)[n..] == ItemLines(items);
    assert Lines(merged)[n + a] == ItemLines(items)[a] && Lines(merged)[n + b] == ItemLines(items)[b];
    assert merged[n + a].line == own[i].line && merged[n + b].line == own[j].line;
  }

  lemma {:induction false} NewItemsOrder(own: seq<Entry>, i: nat, j: nat) returns (a: nat, b: nat)
    requires i < j < |own|
    requires own[i].isNew && Accepted(own[i]) && own[j].isNew && Accepted(own[j])
    ensures a < b < |NewItems(own)|
    ensures NewItems(own)[a].line == own[i].line && NewItems(own)[b].line == own[j].line
  {
    var n := |own| - 1;
    if j < n {
      a, b := NewItemsOrder(own[..n], i, j);
    } else {
      NewItemsAre(own[..n]);
      assert own[..n][i] in own[..n];
      var it := Item(own[i].prefix, own[i].line);
      assert it in NewItems(own[..n]);
      a :| 0 <= a < |NewItems(own[..n])| && NewItems(own[..n])[a] == it;
      b := |NewItems(own[..n])|;
    }
  }

  lemma {:induction false} NewItemsDistinct(own: seq<Entry>)
    requires Distinct(own)
    ensures forall i, j :: 0 <= i < j < |NewItems(own)| ==> NewItems(own)[i].line != NewItems(own)[j].line
  {
    if own != [] {
      var front := own[..|own| - 1];
      NewItemsDistinct(front);
      NewItemsAre(front);
      forall i | 0 <= i < |NewItems(front)|
        ensures NewItems(front)[i].line != own[|own| - 1].line
      {
        assert NewItems(front)[i] in NewItems(front);
      }
    }
  }

  /** What comes last and without repetition is kept as it is. */
  lemma {:induction false} KeepLastSuffix(ls: seq<string>, ns: seq<string>)
    requires forall i, j :: 0 <= i < j < |ns| ==> ns[i] != ns[j]
    ensures |ns| <= |KeepLast(ls + ns)| && KeepLast(ls + ns)[|KeepLast(ls + ns)| - |ns|..] == ns
  {
    if ls == [] {
      assert ls + ns == ns;
      KeepLastAll(ns);
    } else {
      KeepLastSuffix(ls[1..], ns);
      assert (ls + ns)[1..] == ls[1..] + ns;
    }
  }

  lemma {:induction false} KeepLastAll(ns: seq<string>)
    requires forall i, j :: 0 <= i < j < |ns| ==> ns[i] != ns[j]
    ensures KeepLast(ns) == ns
  {
    if ns != [] {
      KeepLastAll(ns[1..]);
      assert ns == [ns[0]] + ns[1..];
    }
  }

  /** The last `n` entries: all if there are no more, none if `n` is not positive. */
  lemma LastOfExactly<T>(s: seq<T>, n: int)
    ensures var k := |LastOf(s, n)|;
      k == (if n <= 0 then 0 else if n < |s| then n else |s|) && LastOf(s, n) == s[|s| - k..]
  {
  }

  /** The file that `history_write` leaves: the last `histsize` entries of the merge, each line once and where
      it came last, and it loads back unchanged exactly if the new entries in it can be written. */
  lemma SavedLoads(disk: string, own: seq<Entry>, histsize: int)
    ensures var kept := LastOf(Merged(disk, own), histsize);
      && |kept| ==
        (if histsize <= 0 then 0 else if histsize < |Merged(disk, own)| then histsize else |Merged(disk, own)|)
      && Lines(Merged(disk, own)) == KeepLast(Lines(Load(disk)) + ItemLines(NewItems(own)))
      && (Load(Written(kept)) == Olds(kept) <==> forall e :: e in kept && e.isNew ==> Proper(e))
  {
    var merged := Merged(disk, own);
    var kept := LastOf(merged, histsize);
    Loaded(disk);
    KeepsLast(Load(disk), NewItems(own), true);
    LoadsBack(kept);
    forall e | e in kept && !e.isNew
      ensures Proper(e)
    {
      assert e in merged;
      KeepsFirstPrefix(Load(disk), NewItems(own), true, e);
    }
  }
}

/** `History` itself: the list of entries with a map from each line to its node. */
module History {
  import opened DList
  import opened Indexed
  import opened HistorySpec
  import opened HistoryFile

  class History {
    const list: List<Entry>
    var index: map<string, Node<Entry>>

    ghost predicate Valid()
      reads this, list, list.nodes
    {
      list.Valid() && Agrees(list.nodes, Lines(list.values), index)
    }

    ghost function Contents(): seq<Entry>
      reads list
    {
      list.values
    }

    constructor ()
      ensures Valid() && Contents() == [] && fresh(list) && list.nodes == []
    {
      list := new List();
      index := map[];
    }

    /** No line is listed twice. */
    lemma ListedOnce()
      requires Valid()
      ensures Distinct(Contents())
    {
      NoRepeats(list.nodes, Lines(list.values), index);
    }

    /** `_unlink_node` and `_push_back_node`, the map staying as it is. */
    method MoveToBack(line: string, node: Node<Entry>, ghost i: nat)
      requires Valid() && i < |Contents()| && line == Contents()[i].line && node == list.nodes[i]
      modifies list, list.nodes
      ensures Valid() && Contents() == Without(old(Contents()), i) + [old(Contents())[i]]
      ensures list.nodes == Without(old(list.nodes), i) + [node]
    {
      AgreesMoved(list.nodes, Lines(list.values), index, i);
      LinesMoved(list.values, i);
      hide Agrees, Lines, Without, Ring, Holds;
      list.MoveToBack(node, i);
    }

    /** A new node, and its place in the map. */
    method PushNew(e: Entry) returns (node: Node<Entry>)
      requires Valid() && e.line !in index
      modifies this, list, list.nodes
      ensures Valid() && Contents() == old(Contents()) + [e]
      ensures list.nodes == old(list.nodes) + [node] && fresh(node)
    {
      LinesPushed(list.values, e);
      hide Lines, Ring;
      node := list.PushBack(e);
      AgreesWith(old(list.nodes), Lines(old(list.values)), index, node, e.line);
      index := index[e.line := node];
    }

    /** The entry at the back takes its new flag. */
    method Mark(node: Node<Entry>, isNew: bool) returns (wasOld: bool)
      requires Valid() && Contents() != [] && node == list.nodes[|list.nodes| - 1]
      modifies list`values, node`value
      ensures Valid() && list.nodes == old(list.nodes)
      ensures var back := old(Contents())[|old(Contents())| - 1];
        wasOld == !back.isNew && Contents() == old(Contents())[|old(Contents())| - 1 := back.(isNew := isNew)]
    {
      assert node.value == list.values[|list.values| - 1];
      LinesMarked(list.values, isNew);
      wasOld := !node.value.isNew;
      hide Agrees, Lines, Ring, Holds;
      list.SetBack(node, node.value.(isNew := isNew));
    }

    method BringToBack(prefix: string, line: string) returns (node: Node<Entry>)
      requires Valid()
      modifies this, list, list.nodes
      ensures Valid() && Contents() == Brought(old(Contents()), Item(prefix, line))
      ensures list.nodes != [] && node == list.nodes[|list.nodes| - 1]
      ensures forall k :: 0 <= k < |list.nodes| ==> list.nodes[k] in old(list.nodes) || fresh(list.nodes[k])
    {
      ghost var i := Place(list.values, line);
      PlaceAgrees(line);
      if line in index {
        node := index[line];
        WithoutMembers(list.nodes, i);
        MoveToBack(line, node, i);
      } else {
        node := PushNew(Entry(prefix, line, true));
      }
    }

    /** `append_or_move`. It returns whether the entry was there and not new, also where its comment promises
        true for a new entry. */
    method AppendOrMove(prefix: string, line: string, isNew: bool) returns (wasOld: bool)
      requires Valid()
      modifies this, list, list.nodes
      ensures Valid() && Contents() == Move(old(Contents()), Item(prefix, line), isNew)
      ensures wasOld == WasOld(old(Contents()), line)
      ensures forall k :: 0 <= k < |list.nodes| ==> list.nodes[k] in old(list.nodes) || fresh(list.nodes[k])
    {
      MoveIsMark(list.values, Item(prefix, line), isNew);
      hide Place, Without, Move, WasOld, Lines, Agrees, Ring, Holds, Brought;
      var node := BringToBack(prefix, line);
      wasOld := Mark(node, isNew);
    }

    method HistoryAppend(prefix: string, line: string)
      requires Valid()
      modifies this, list, list.nodes
      ensures Valid() && Contents() == Append(old(Contents()), Item(prefix, line))
      ensures prefix == "" || line == "" ==> Contents() == old(Contents())
      ensures prefix != "" && line != "" ==>
        Contents() != [] && Contents()[|Contents()| - 1].line == line && Contents()[|Contents()| - 1].isNew
      ensures forall k :: 0 <= k < |list.nodes| ==> list.nodes[k] in old(list.nodes) || fresh(list.nodes[k])
    {
      if prefix != "" && line != "" {
        var _ := AppendOrMove(prefix, line, true);
      }
    }

    /** `history_size`, which asks the map. */
    method Size() returns (n: nat)
      requires Valid()
      ensures n == |Contents()|
    {
      NoRepeats(list.nodes, Lines(list.values), index);
      SizeOf(Lines(list.values), index.Keys);
      n := |index|;
    }

    /** One line of the file. */
    method LoadLine(buf: string)
      requires Valid()
      modifies this, list, list.nodes
      ensures Valid() && Contents() == LineLoaded(old(Contents()), buf)
      ensures forall k :: 0 <= k < |list.nodes| ==> list.nodes[k] in old(list.nodes) || fresh(list.nodes[k])
    {
      match ParseLine(buf)
      case None =>
      case Some(it) => var _ := AppendOrMove(it.prefix, it.line, false);
    }

    /** The loop of `history_load` over the text of a file. */
    method HistoryLoad(text: string)
      requires Valid() && Contents() == []
      modifies this, list, list.nodes
      ensures Valid() && Contents() == Load(text)
      ensures forall k :: 0 <= k < |list.nodes| ==> list.nodes[k] in old(list.nodes) || fresh(list.nodes[k])
    {
      var rest := text;
      NothingRead(text);
      hide *;
      while rest != ""
        invariant Valid() && LinesLoaded(Contents(), rest) == Load(text)
        invariant forall k :: 0 <= k < |list.nodes| ==> list.nodes[k] in old(list.nodes) || fresh(list.nodes[k])
        decreases |rest|
      {
        var i := IndexOf(rest, '\n');
        OneRead(Contents(), rest);
        LoadLine(rest[..i]);
        rest := if i < |rest| then rest[i + 1..] else "";
      }
      AllRead(Contents());
    }

    lemma Sizes()
      requires Valid()
      ensures Contents() == list.values && |list.values| == |list.nodes| && Written([]) == ""
    {
    }

    lemma ValueAt(k: nat)
      requires Valid() && k < |list.nodes|
      ensures k < |list.values| && list.nodes[k].value == list.values[k]
    {
    }

    /** `history_begin`. */
    method First() returns (node: Node?<Entry>)
      requires Valid()
      ensures node == if list.nodes == [] then null else list.nodes[0]
    {
      node := list.First();
    }

    /** `history_next`. */
    method Following(node: Node<Entry>, ghost k: nat) returns (next: Node?<Entry>)
      requires Valid() && k < |list.nodes| && node == list.nodes[k]
      ensures next == if k + 1 < |list.nodes| then list.nodes[k + 1] else null
    {
      next := list.Following(node, k);
    }

    method TakeOver(e: Entry)
      requires Valid()
      modifies this, list, list.nodes
      ensures Valid() && Contents() == TakenOver(old(Contents()), e)
      ensures forall k :: 0 <= k < |list.nodes| ==> list.nodes[k] in old(list.nodes) || fresh(list.nodes[k])
    {
      if e.isNew {
        HistoryAppend(e.prefix, e.line);
      }
    }

    /** The history that `history_write` loads from disk again. */
    static method Reload(disk: string) returns (onDisk: History)
      ensures onDisk.Valid() && onDisk.Contents() == Load(disk)
      ensures fresh(onDisk) && fresh(onDisk.list) && forall j :: 0 <= j < |onDisk.list.nodes| ==>
        fresh(onDisk.list.nodes[j])
    {
      onDisk := new History();
      hide *;
      onDisk.HistoryLoad(disk);
    }

    /** The first loop of `history_write`: the entries that are new here are appended to what is on disk. */
    method Merge(disk: string) returns (onDisk: History)
      requires Valid()
      ensures onDisk.Valid() && fresh(onDisk) && onDisk.Contents() == Merged(disk, Contents())
    {
      hide *;
      ghost var own := list.values;
      Sizes();
      MergedNone(disk);
      ghost var k: nat := 0;
      var node := First();
      onDisk := Reload(disk);
      while node != null
        invariant k <= |own| && node == (if k < |own| then list.nodes[k] else null)
        invariant onDisk.Valid() && fresh(onDisk) && fresh(onDisk.list) && forall j :: 0 <= j < |onDisk.list.nodes| ==>
          fresh(onDisk.list.nodes[j])
        invariant onDisk.Contents() == Merged(disk, own[..k])
        decreases |own| - k
      {
        ValueAt(k);
        MergedSnoc(disk, own, k);
        var e := node.value;
        node := Following(node, k);
        k := k + 1;
        onDisk.TakeOver(e);
      }
      assert own[..k] == own;
    }

    /** The second loop: all but the oldest entries are written. */
    method WriteLines(histsize: int) returns (text: string)
      requires Valid()
      ensures text == Written(LastOf(Contents(), histsize))
    {
      text := "";
      hide *;
      Sizes();
      var size := Size();
      var skip := size - histsize;
      ghost var k: nat := 0;
      ghost var first := if histsize >= size then 0 else if histsize <= 0 then size else size - histsize;
      var node := First();
      while node != null
        invariant k <= size && node == (if k < size then list.nodes[k] else null) && skip == size - histsize - k
        invariant text == Written(if k <= first then [] else list.values[first..k])
        decreases size - k
      {
        ValueAt(k);
        if skip <= 0 {
          WrittenOne(list.values, first, k);
          text := text + Row(node.value);
        }
        skip := skip - 1;
        node := Following(node, k);
        k := k + 1;
      }
      WrittenAll(list.values, histsize, first);
    }

    /** `history_write`: the new content of the file. */
    method HistoryWrite(disk: string, histsize: int) returns (text: string)
      requires Valid()
      ensures text == Written(LastOf(Merged(disk, Contents()), histsize))
    {
      var merged := Merge(disk);
      text := merged.WriteLines(histsize);
    }

    lemma PlaceAgrees(line: string)
      requires Valid()
      ensures line in index <==> Place(list.values, line) < |list.values|
      ensures line in index ==> index[line] == list.nodes[Place(list.values, line)]
    {
      assert forall i :: 0 <= i < |list.values| ==> Lines(list.values)[i] == list.values[i].line;
    }
  }

  function LineLoaded(es: seq<Entry>, buf: string): seq<Entry> {
    match ParseLine(buf)
    case None => es
    case Some(it) => Move(es, it, false)
  }

  /** The entries after reading the rest of a file as well. */
  function LinesLoaded(es: seq<Entry>, rest: string): seq<Entry> {
    MoveAll(es, ParseAll(SplitLines(rest)), false)
  }

  lemma NothingRead(text: string)
    ensures LinesLoaded([], text) == Load(text)
  {
  }

  lemma AllRead(es: seq<Entry>)
    ensures LinesLoaded(es, "") == es
  {
  }

  lemma {:induction false} MoveAllCons(es: seq<Entry>, it: Item, items: seq<Item>, isNew: bool)
    ensures MoveAll(es, [it] + items, isNew) == MoveAll(Move(es, it, isNew), items, isNew)
  {
    if items == [] {
      assert [it] + items == [it] && [it][..0] == [];
    } else {
      var n := |items| - 1;
      assert ([it] + items)[..n + 1] == [it] + items[..n];
      hide Move;
      MoveAllCons(es, it, items[..n], isNew);
    }
  }

  lemma MergedSnoc(disk: string, own: seq<Entry>, k: nat)
    requires k < |own|
    ensures Merged(disk, own[..k + 1]) == TakenOver(Merged(disk, own[..k]), own[k])
  {
    var items := NewItems(own[..k]);
    var it := Item(own[k].prefix, own[k].line);
    assert own[..k + 1][..k] == own[..k];
    assert (items + [it])[..|items|] == items;
  }

  function TakenOver(es: seq<Entry>, e: Entry): seq<Entry> {
    if e.isNew then Append(es, Item(e.prefix, e.line)) else es
  }

  lemma MergedNone(disk: string)
    ensures Merged(disk, []) == Load(disk)
  {
  }

  lemma WrittenAll(es: seq<Entry>, histsize: int, first: nat)
    requires first == if histsize >= |es| then 0 else if histsize <= 0 then |es| else |es| - histsize
    ensures Written(LastOf(es, histsize)) == Written(if |es| <= first then [] else es[first..|es|])
  {
    assert es[0..|es|] == es;
    assert es[first..] == es[first..|es|];
  }

  lemma WrittenOne(es: seq<Entry>, first: nat, k: nat)
    requires first <= k < |es|
    ensures Written(es[first..k + 1]) == Written(if k <= first then [] else es[first..k]) + Row(es[k])
  {
    assert es[first..k + 1][..k - first] == es[first..k];
  }

  lemma OneRead(es: seq<Entry>, rest: string)
    requires rest != ""
    ensures var i := IndexOf(rest, '\n');
      LinesLoaded(es, rest) == LinesLoaded(LineLoaded(es, rest[..i]), if i < |rest| then rest[i + 1..] else "")
  {
    var i := IndexOf(rest, '\n');
    var rest' := if i < |rest| then rest[i + 1..] else "";
    assert rest[..|rest|] == rest;
    assert SplitLines(rest) == [rest[..i]] + SplitLines(rest');
    assert SplitLines(rest)[1..] == SplitLines(rest');
    match ParseLine(rest[..i])
    case None =>
    case Some(it) => MoveAllCons(es, it, ParseAll(SplitLines(rest')), false);
  }

  predicate WasOld(es: seq<Entry>, line: string) {
    Place(es, line) < |es| && !es[Place(es, line)].isNew
  }

  /** `append_or_move` returns true exactly for a line that is there and not new. */
  lemma WasOldExactly(es: seq<Entry>, line: string)
    requires Distinct(es)
    ensures WasOld(es, line) <==> exists e :: e in es && e.line == line && !e.isNew
  {
    var i := Place(es, line);
    if i < |es| { assert es[i] in es; }
  }

  /** What `append_or_move` brings to the back, still with its old flag, or as a new entry. */
  function Brought(es: seq<Entry>, it: Item): (r: seq<Entry>)
    ensures r != []
  {
    var i := Place(es, it.line);
    if i < |es| then Without(es, i) + [es[i]] else es + [Entry(it.prefix, it.line, true)]
  }

  lemma MoveIsMark(es: seq<Entry>, it: Item, isNew: bool)
    ensures var r := Brought(es, it);
      && Move(es, it, isNew) == r[|r| - 1 := r[|r| - 1].(isNew := isNew)]
      && WasOld(es, it.line) == !r[|r| - 1].isNew
  {
  }

  lemma LinesMoved(es: seq<Entry>, i: nat)
    requires i < |es|
    ensures Lines(Without(es, i) + [es[i]]) == Without(Lines(es), i) + [Lines(es)[i]]
  {
  }

  lemma LinesPushed(es: seq<Entry>, e: Entry)
    ensures Lines(es + [e]) == Lines(es) + [e.line]
  {
  }

  lemma LinesMarked(es: seq<Entry>, isNew: bool)
    requires es != []
    ensures Lines(es[|es| - 1 := es[|es| - 1].(isNew := isNew)]) == Lines(es)
  {
  }
}
