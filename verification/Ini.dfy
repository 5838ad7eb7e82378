/** The INI parser of arm9/source/ini.c, built to pass line numbers to its handler and to stop
    on the first error: what it does to a line, and what it makes of a rendered document. */
module Ini {
  import opened Machine

  const MAX_LINE: nat := 200
  const MAX_SECTION: nat := 50
  const MAX_NAME: nat := 50

  // ----- the string helpers, on values -----

  predicate IsSpace(c: char) {
    c == ' ' || 9 <= c as int <= 13
  }

  function TrimRight(s: string): (r: string)
    ensures |r| <= |s| && (r == "" || !IsSpace(r[|r| - 1]))
  {
    if s == "" || !IsSpace(s[|s| - 1]) then s else TrimRight(s[..|s| - 1])
  }

  function TrimLeft(s: string): (r: string)
    ensures |r| <= |s| && (r == "" || !IsSpace(r[0]))
  {
    if s == "" || !IsSpace(s[0]) then s else TrimLeft(s[1..])
  }

  /** The first of the given characters, or of an inline comment: a semicolon after white
      space. */
  function Find(s: string, chars: string, wasSpace: bool): (i: nat)
    ensures i <= |s|
  {
    if s == "" || s[0] in chars || (wasSpace && s[0] == ';') then 0
    else 1 + Find(s[1..], chars, IsSpace(s[0]))
  }

  /** As much of a string as fits a buffer with its terminator. */
  function Cut(s: string, size: nat): (r: string)
    requires size > 0
    ensures r <= s && |r| == Min(|s|, size - 1)
  {
    if |s| < size then s else s[..size - 1]
  }

  predicate StartsWithBom(line: string) {
    |line| >= 3 && line[0] == 0xEF as char && line[1] == 0xBB as char && line[2] == 0xBF as char
  }

  // ----- one line -----

  datatype Call = Call(section: string, name: string, value: string, lineno: nat)

  /** The parser's variables, and the calls it has made. A handler may remember what it was
      told, so whether it accepts a call depends on all the calls so far. */
  datatype State = State(section: string, prevName: string, lineno: nat, error: nat, calls: seq<Call>)

  type Handler = seq<Call> -> bool

  const START: State := State("", "", 0, 0, [])

  function Report(st: State, name: string, value: string, handler: Handler): State {
    var calls := st.calls + [Call(st.section, name, value, st.lineno)];
    st.(calls := calls, error := if handler(calls) || st.error != 0 then st.error else st.lineno)
  }

  function Fail(st: State): State {
    if st.error != 0 then st else st.(error := st.lineno)
  }

  function SectionLine(st: State, t: string): State
    requires t != ""
  {
    var e := 1 + Find(t[1..], "]", false);
    if e < |t| && t[e] == ']' then st.(section := Cut(t[1..e], MAX_SECTION), prevName := "") else Fail(st)
  }

  function ValueOf(rest: string): string {
    TrimRight(TrimLeft(rest[..Find(rest, "", false)]))
  }

  function PairLine(st: State, t: string, handler: Handler): State {
    var e := Find(t, "=:", false);
    if e < |t| && (t[e] == '=' || t[e] == ':') then
      var name := TrimRight(t[..e]);
      Report(st.(prevName := Cut(name, MAX_NAME)), name, ValueOf(t[e + 1..]), handler)
    else Fail(st)
  }

  /** What the text of a line does; indented means that it does not begin at the first byte. */
  function TextLine(st: State, t: string, indented: bool, handler: Handler): State {
    if t == "" || t[0] == ';' || t[0] == '#' then st
    else if st.prevName != "" && indented then Report(st, st.prevName, t, handler)
    else if t[0] == '[' then SectionLine(st, t)
    else PairLine(st, t, handler)
  }

  function LineStep(st: State, line: string, handler: Handler): State {
    var next := st.(lineno := st.lineno + 1);
    var bom := next.lineno == 1 && StartsWithBom(line);
    var stripped := TrimRight(if bom then line[3..] else line);
    var t := TrimLeft(stripped);
    TextLine(next, t, bom || |t| < |stripped|, handler)
  }

  function ParseLines(st: State, lines: seq<string>, handler: Handler): State
    decreases |lines|
  {
    if lines == [] || st.error != 0 then st else ParseLines(LineStep(st, lines[0], handler), lines[1..], handler)
  }

  // ----- the reader -----

  /** The next line: up to and including a newline, and at most size characters. */
  function LineLength(text: string, size: nat): (n: nat)
    requires size > 0
    ensures n <= |text| && n <= size && (text != "" ==> n > 0)
    ensures forall k :: 0 <= k < n - 1 ==> text[k] != '\n'
    ensures n < |text| && n < size ==> n > 0 && text[n - 1] == '\n'
    decreases size
  {
    if text == "" then 0
    else if text[0] == '\n' || size == 1 then 1
    else 1 + LineLength(text[1..], size - 1)
  }

  function Lines(text: string): seq<string>
    decreases |text|
  {
    if text == "" then []
    else
      var n := LineLength(text, MAX_LINE - 1);
      [text[..n]] + Lines(text[n..])
  }

  /** Successive reads concatenate to the input. */
  lemma {:induction false} LinesConcatenate(text: string)
    ensures Concat(Lines(text)) == text
    decreases |text|
  {
    if text != "" {
      var n := LineLength(text, MAX_LINE - 1);
      hide LineLength;
      LinesConcatenate(text[n..]);
      ConcatFirst(text[..n], Lines(text[n..]));
      assert text == text[..n] + text[n..];
    }
  }

  /** No line is empty or overflows the buffer, and a newline can only be its last character. */
  lemma {:induction false} LinesFit(text: string, i: nat)
    requires i < |Lines(text)|
    ensures var l := Lines(text)[i]; 0 < |l| < 200 && forall k :: 0 <= k < |l| - 1 ==> l[k] != '\n'
    decreases |text|
  {
    var n := LineLength(text, MAX_LINE - 1);
    if i > 0 { LinesFit(text[n..], i - 1); }
  }

  lemma ConcatFirst(first: string, rest: seq<string>)
    ensures Concat([first] + rest) == first + Concat(rest)
  {
    assert ([first] + rest)[1..] == rest;
  }

  /** A line that is too long is read in pieces of 199 characters. */
  lemma {:induction false} LongLinesSplit(text: string, size: nat)
    requires 0 < size <= |text| && '\n' !in text[..size]
    ensures LineLength(text, size) == size
    ensures size == 199 ==> Lines(text) == [text[..199]] + Lines(text[199..])
    decreases size
  {
    assert text[0] == text[..size][0];
    if size > 1 {
      assert forall k :: 0 <= k < size - 1 ==> text[1..][k] == text[..size][k + 1];
      LongLinesSplit(text[1..], size - 1);
    }
  }

  function Parse(text: string, handler: Handler): State {
    ParseLines(START, Lines(text), handler)
  }

  // ----- rendered documents -----

  /** A line of a document: a section, a pair with '=' or ':' and an optional comment after it,
      the continuation of the value above, or a remark. */
  datatype Item =
    | Section(section: string)
    | Pair(name: string, colon: bool, value: string, comment: string)
    | More(text: string)
    | Remark(remark: string)

  function Separator(colon: bool): string {
    if colon then ":" else "="
  }

  function ItemText(i: Item): string {
    match i
    case Section(s) => "[" + s + "]"
    case Pair(n, colon, v, comment) => n + " " + Separator(colon) + (" " + v + comment)
    case More(t) => " " + t
    case Remark(t) => t
  }

  function Render(items: seq<Item>): string {
    if items == [] then "" else ItemText(items[0]) + "\n" + Render(items[1..])
  }

  predicate Tight(s: string) {
    s == "" || (!IsSpace(s[0]) && !IsSpace(s[|s| - 1]))
  }

  predicate NameWritable(n: string) {
    && n != "" && Tight(n) && Find(n, "=:", false) == |n|
    && n[0] != ';' && n[0] != '#' && n[0] != '[' && !StartsWithBom(n)
  }

  predicate ValueWritable(v: string) {
    Tight(v) && Find(v, "", true) == |v|
  }

  predicate CommentWritable(c: string) {
    c == "" || (|c| >= 2 && IsSpace(c[0]) && c[1] == ';')
  }

  /** What a document may contain: one line per item, which fits the buffer; no character or
      comment that would end a section, name or value early; names that do not look like
      something else; no blanks around names and values. */
  predicate Writable(i: Item) {
    && |ItemText(i)| + 1 < MAX_LINE && '\n' !in ItemText(i)
    && match i
       case Section(s) => Find(s, "]", false) == |s|
       case Pair(n, _, v, comment) => NameWritable(n) && ValueWritable(v) && CommentWritable(comment)
       case More(t) => t != "" && Tight(t) && t[0] != ';' && t[0] != '#'
       case Remark(t) => t == "" || t[0] == ';' || t[0] == '#'
  }

  function SectionAfter(i: Item, section: string): string {
    if i.Section? then Cut(i.section, MAX_SECTION) else section
  }

  /** The name that a continuation would extend. */
  function PrevAfter(i: Item, prev: string): string {
    match i
    case Section(_) => ""
    case Pair(n, _, _, _) => Cut(n, MAX_NAME)
    case _ => prev
  }

  function CallsOf(i: Item, section: string, prev: string, lineno: nat): seq<Call> {
    match i
    case Pair(n, _, v, _) => [Call(section, n, v, lineno)]
    case More(t) => [Call(section, prev, t, lineno)]
    case _ => []
  }

  /** The calls a document asks for, its first line having the given number. */
  function Expected(items: seq<Item>, section: string, prev: string, lineno: nat): seq<Call>
    decreases |items|
  {
    if items == [] then []
    else
      CallsOf(items[0], section, prev, lineno)
      + Expected(items[1..], SectionAfter(items[0], section), PrevAfter(items[0], prev), lineno + 1)
  }

  /** Every line fits, and a continuation has something to continue. */
  predicate Document(items: seq<Item>, prev: string) {
    items == [] ||
    (Writable(items[0]) && (items[0].More? ==> prev != "") && Document(items[1..], PrevAfter(items[0], prev)))
  }

  // ----- lemmas on the helpers -----

  lemma {:induction false} TrimRightAppend(a: string, b: string)
    requires a == "" || !IsSpace(a[|a| - 1])
    ensures TrimRight(a + b) == a + TrimRight(b)
    decreases |b|
  {
    if b == "" {
      assert a + b == a;
    } else if IsSpace(b[|b| - 1]) {
      assert (a + b)[..|a + b| - 1] == a + b[..|b| - 1];
      TrimRightAppend(a, b[..|b| - 1]);
    }
  }

  /** Whether the character before position |a| was white space. */
  function SpaceBefore(a: string, wasSpace: bool): bool {
    if a == "" then wasSpace else IsSpace(a[|a| - 1])
  }

  lemma {:induction false} FindSkips(a: string, b: string, chars: string, wasSpace: bool)
    requires Find(a, chars, wasSpace) == |a|
    ensures Find(a + b, chars, wasSpace) == |a| + Find(b, chars, SpaceBefore(a, wasSpace))
    decreases |a|
  {
    if a == "" {
      assert a + b == b;
    } else {
      assert (a + b)[1..] == a[1..] + b;
      FindSkips(a[1..], b, chars, IsSpace(a[0]));
      assert SpaceBefore(a, wasSpace) == SpaceBefore(a[1..], IsSpace(a[0]));
    }
  }

  lemma FindHere(b: string, chars: string, wasSpace: bool)
    requires b != "" && b[0] in chars
    ensures Find(b, chars, wasSpace) == 0
  {
  }

  // ----- one rendered line -----

  lemma SectionReads(st: State, s: string)
    requires Find(s, "]", false) == |s|
    ensures SectionLine(st, "[" + s + "]") == st.(section := Cut(s, MAX_SECTION), prevName := "")
  {
    hide Find, Cut;
    var t := "[" + s + "]";
    assert t[1..] == s + "]";
    FindSkips(s, "]", "]", false);
    FindHere("]", "]", SpaceBefore(s, false));
    assert t[1..1 + |s|] == s;
  }

  lemma BlankValue(v: string, c: char)
    requires Tight(v) && IsSpace(c)
    ensures TrimRight(TrimLeft(" " + v)) == v
    ensures TrimRight(TrimLeft(" " + v + [c])) == v
  {
    assert (" " + v)[1..] == v && (" " + v + [c])[1..] == v + [c];
    assert [c][..0] == "";
    TrimRightAppend(v, "");
    TrimRightAppend(v, [c]);
    assert v + "" == v;
    if v == "" {
      assert v + [c] == [c];
    } else {
      assert (v + [c])[0] == v[0];
    }
  }

  lemma NewlineTrims(a: string)
    requires a == "" || !IsSpace(a[|a| - 1])
    ensures TrimRight(a + "\n") == a
  {
    assert "\n"[..0] == "";
    TrimRightAppend(a, "\n");
    assert a + "" == a;
  }

  lemma NoValueReads()
    ensures ValueOf(TrimRight(" \n")) == ""
  {
    assert " \n"[..1] == " " && " "[..0] == "";
    assert TrimRight(" \n") == TrimRight(" ") == "";
  }

  /** A value without comment, as it is left once the line has been trimmed. */
  lemma BareValueReads(v: string)
    requires ValueWritable(v)
    ensures ValueOf(TrimRight(" " + v + "\n")) == v
  {
    if v == "" {
      NoValueReads();
      assert " " + v + "\n" == " \n";
    } else {
      var r := " " + v;
      BlankValue(v, ' ');
      assert r[1..] == v;
      assert Find(r, "", false) == |r|;
      hide TrimRight, TrimLeft, Find;
      assert r[|r| - 1] == v[|v| - 1];
      NewlineTrims(r);
      assert r[..|r|] == r;
    }
  }

  lemma FindComment(r: string, c: char, tail: string)
    requires Find(r, "", false) == |r| && IsSpace(c)
    ensures Find(r + [c] + ";" + tail, "", false) == |r| + 1
  {
    var after := [c] + (";" + tail);
    assert r + [c] + ";" + tail == r + after;
    FindSkips(r, after, "", false);
    assert after[0] == c && after[1..] == ";" + tail;
    assert c != ';';
    assert Find(after, "", SpaceBefore(r, false)) == 1 + Find(";" + tail, "", true);
  }

  /** A value with a comment: the comment goes, and the blank before it. */
  lemma CommentedValueReads(v: string, comment: string)
    requires ValueWritable(v) && CommentWritable(comment) && comment != ""
    ensures ValueOf(TrimRight(" " + v + comment + "\n")) == v
  {
    var r, c := " " + v, comment[0];
    var front, rest := r + [c] + ";", comment[2..] + "\n";
    assert r[1..] == v;
    assert Find(r, "", false) == |r|;
    BlankValue(v, c);
    hide Find, TrimRight, TrimLeft;
    assert front[|front| - 1] == ';';
    assert r + comment + "\n" == front + rest;
    TrimRightAppend(front, rest);
    FindComment(r, c, TrimRight(rest));
    assert (front + TrimRight(rest))[..|r| + 1] == r + [c];
  }

  lemma ValueReads(v: string, comment: string)
    requires ValueWritable(v) && CommentWritable(comment)
    ensures ValueOf(TrimRight(" " + v + comment + "\n")) == v
  {
    if comment == "" {
      assert " " + v + comment + "\n" == " " + v + "\n";
      BareValueReads(v);
    } else {
      CommentedValueReads(v, comment);
    }
  }

  lemma NameFound(n: string, colon: bool, tail: string)
    requires NameWritable(n)
    ensures Find(n + " " + Separator(colon) + tail, "=:", false) == |n| + 1
  {
    var rest := Separator(colon) + tail;
    FindSkips(n, " " + rest, "=:", false);
    assert (" " + rest)[1..] == rest && rest[0] in "=:";
    FindHere(rest, "=:", true);
    assert n + " " + Separator(colon) + tail == n + (" " + rest);
  }

  lemma NameTrimmed(n: string, rest: string)
    requires NameWritable(n)
    ensures TrimRight((n + " " + rest)[..|n| + 1]) == n
  {
    assert (n + " " + rest)[..|n| + 1] == n + " ";
    TrimRightAppend(n, " ");
    assert " "[..0] == "" && n + "" == n;
  }

  lemma NameReads(n: string, colon: bool, tail: string)
    requires NameWritable(n)
    ensures Find(n + " " + Separator(colon) + tail, "=:", false) == |n| + 1
    ensures TrimRight((n + " " + Separator(colon) + tail)[..|n| + 1]) == n
  {
    NameFound(n, colon, tail);
    NameTrimmed(n, Separator(colon) + tail);
    hide Find, TrimRight, NameWritable, Separator;
    assert n + " " + Separator(colon) + tail == n + " " + (Separator(colon) + tail);
  }

  lemma PairReads(st: State, n: string, colon: bool, v: string, comment: string, handler: Handler)
    requires NameWritable(n) && ValueWritable(v) && CommentWritable(comment)
    ensures PairLine(st, n + " " + Separator(colon) + TrimRight(" " + v + comment + "\n"), handler) ==
      Report(st.(prevName := Cut(n, MAX_NAME)), n, v, handler)
  {
    var tail := TrimRight(" " + v + comment + "\n");
    var t := n + " " + Separator(colon) + tail;
    NameReads(n, colon, tail);
    ValueReads(v, comment);
    assert t[|n| + 2..] == tail;
    assert t[|n| + 1] == Separator(colon)[0];
    hide Find, TrimRight, ValueOf, Report;
  }

  lemma PairTrims(n: string, colon: bool, rest: string)
    requires n != "" && Tight(n)
    ensures TrimRight(n + " " + Separator(colon) + rest) == n + " " + Separator(colon) + TrimRight(rest)
    ensures var t := n + " " + Separator(colon) + TrimRight(rest); TrimLeft(t) == t && t[0] == n[0]
  {
    var front := n + " " + Separator(colon);
    assert front[|front| - 1] == Separator(colon)[0];
    TrimRightAppend(front, rest);
    assert (front + TrimRight(rest))[0] == n[0];
  }

  lemma NoBom(n: string, rest: string)
    requires n != "" && !StartsWithBom(n)
    ensures !StartsWithBom(n + " " + rest)
  {
    assert (n + " " + rest)[|n|] == ' ';
  }

  /** What an item does to the parser. */
  function ItemStep(st: State, i: Item, handler: Handler): State {
    var cs := CallsOf(i, st.section, st.prevName, st.lineno + 1);
    var accepted := cs == [] || st.error != 0 || handler(st.calls + cs);
    State(SectionAfter(i, st.section), PrevAfter(i, st.prevName), st.lineno + 1,
      if accepted then st.error else st.lineno + 1, st.calls + cs)
  }

  lemma StepOf(st: State, line: string, t: string, stripped: string, handler: Handler)
    requires !StartsWithBom(line) && TrimRight(line) == stripped && TrimLeft(stripped) == t
    ensures LineStep(st, line, handler) == TextLine(st.(lineno := st.lineno + 1), t, |t| < |stripped|, handler)
  {
    hide TextLine, TrimRight, TrimLeft, StartsWithBom;
  }

  lemma SectionLineReads(st: State, s: string, handler: Handler)
    requires Writable(Section(s))
    ensures LineStep(st, "[" + s + "]" + "\n", handler) == ItemStep(st, Section(s), handler)
  {
    hide TrimRight, SectionLine, LineStep, Cut, Find;
    var t := "[" + s + "]";
    NewlineTrims(t);
    assert (t + "\n")[0] == '[' && TrimLeft(t) == t;
    StepOf(st, t + "\n", t, t, handler);
    SectionReads(st.(lineno := st.lineno + 1), s);
  }

  lemma PairLineReads(st: State, n: string, colon: bool, v: string, comment: string, handler: Handler)
    requires NameWritable(n) && ValueWritable(v) && CommentWritable(comment)
    ensures LineStep(st, n + " " + Separator(colon) + (" " + v + comment) + "\n", handler) ==
      ItemStep(st, Pair(n, colon, v, comment), handler)
  {
    var rest := " " + v + comment + "\n";
    var line := n + " " + Separator(colon) + (" " + v + comment) + "\n";
    assert line == n + " " + Separator(colon) + rest && line == n + " " + (Separator(colon) + rest);
    NoBom(n, Separator(colon) + rest);
    PairTrims(n, colon, rest);
    PairReads(st.(lineno := st.lineno + 1), n, colon, v, comment, handler);
    assert n[0] != ';' && n[0] != '#' && n[0] != '[';
    var t := n + " " + Separator(colon) + TrimRight(rest);
    assert t != "";
    hide TrimRight, TrimLeft, PairLine, LineStep, Cut, StartsWithBom, Separator;
    StepOf(st, line, t, t, handler);
  }

  lemma MoreLineReads(st: State, text: string, handler: Handler)
    requires Writable(More(text)) && st.prevName != ""
    ensures LineStep(st, " " + text + "\n", handler) == ItemStep(st, More(text), handler)
  {
    var stripped := " " + text;
    assert stripped[|stripped| - 1] == text[|text| - 1] && stripped[1..] == text;
    NewlineTrims(stripped);
    assert TrimLeft(stripped) == text;
    assert (stripped + "\n")[0] == ' ';
    hide TrimRight, TrimLeft, LineStep, SectionLine, PairLine;
    StepOf(st, stripped + "\n", text, stripped, handler);
  }

  lemma RemarkTrims(text: string)
    requires text == "" || text[0] == ';' || text[0] == '#'
    ensures var t := TrimRight(text + "\n"); TrimLeft(t) == t && (t == "" || t[0] == ';' || t[0] == '#')
  {
    if text == "" {
      NewlineTrims("");
      assert "" + "\n" == text + "\n";
    } else {
      assert text + "\n" == [text[0]] + (text[1..] + "\n");
      TrimRightAppend([text[0]], text[1..] + "\n");
    }
  }

  lemma RemarkLineReads(st: State, text: string, handler: Handler)
    requires Writable(Remark(text))
    ensures LineStep(st, text + "\n", handler) == ItemStep(st, Remark(text), handler)
  {
    hide TrimRight, TrimLeft, LineStep, SectionLine, PairLine;
    RemarkTrims(text);
    assert !StartsWithBom(text + "\n");
    assert st.calls + [] == st.calls;
    var t := TrimRight(text + "\n");
    StepOf(st, text + "\n", t, t, handler);
  }

  /** A rendered line does what its item says. */
  lemma LineReads(st: State, i: Item, handler: Handler)
    requires Writable(i) && (i.More? ==> st.prevName != "")
    ensures LineStep(st, ItemText(i) + "\n", handler) == ItemStep(st, i, handler)
  {
    hide LineStep, ItemStep;
    match i
    case Section(s) => SectionLineReads(st, s, handler);
    case Pair(n, colon, v, comment) => PairLineReads(st, n, colon, v, comment, handler);
    case More(t) => MoreLineReads(st, t, handler);
    case Remark(t) => RemarkLineReads(st, t, handler);
  }

  // ----- a whole document -----

  lemma {:induction false} LineLengthIs(a: string, b: string, size: nat)
    requires |a| < size && '\n' !in a
    ensures LineLength(a + "\n" + b, size) == |a| + 1
    decreases |a|
  {
    var t := a + "\n" + b;
    if a != "" {
      assert t[0] == a[0] && a[0] in a;
      assert t[1..] == a[1..] + "\n" + b;
      LineLengthIs(a[1..], b, size - 1);
    }
  }

  function ItemLines(items: seq<Item>): seq<string> {
    if items == [] then [] else [ItemText(items[0]) + "\n"] + ItemLines(items[1..])
  }

  /** The reader takes a document line by line. */
  lemma {:induction false} RenderedLines(items: seq<Item>, prev: string)
    requires Document(items, prev)
    ensures Lines(Render(items)) == ItemLines(items)
    decreases |items|
  {
    if items != [] {
      hide Writable, ItemText, LineLength, PrevAfter;
      var a, rest := ItemText(items[0]), Render(items[1..]);
      ItemFits(items[0]);
      LineLengthIs(a, rest, MAX_LINE - 1);
      var t := a + "\n" + rest;
      assert t[..|a| + 1] == a + "\n" && t[|a| + 1..] == rest;
      RenderedLines(items[1..], PrevAfter(items[0], prev));
    }
  }

  lemma ItemFits(i: Item)
    requires Writable(i)
    ensures |ItemText(i)| < MAX_LINE - 1 && '\n' !in ItemText(i)
  {
  }

  /** The first call from position k on that the handler rejects, or the number of calls. */
  function FirstRejected(calls: seq<Call>, k: nat, handler: Handler): (r: nat)
    requires k <= |calls|
    ensures k <= r <= |calls|
    ensures forall i :: k <= i < r ==> Accepts(calls, i, handler)
    ensures r < |calls| ==> !Accepts(calls, r, handler)
    decreases |calls| - k
  {
    if k == |calls| || !Accepts(calls, k, handler) then k else FirstRejected(calls, k + 1, handler)
  }

  /** The handler accepts the i-th call, having seen those before it. */
  predicate Accepts(calls: seq<Call>, i: nat, handler: Handler)
    requires i < |calls|
  {
    handler(calls[..i + 1])
  }

  /** The calls that are made, and the line reported, when the handler may reject one of the
      wanted calls. */
  predicate StopsAtFirstRejection(st: State, wanted: seq<Call>, done: nat, handler: Handler)
    requires done <= |wanted|
  {
    var r := FirstRejected(wanted, done, handler);
    if r < |wanted| then st.calls == wanted[..r + 1] && st.error == wanted[r].lineno
    else st.calls == wanted && st.error == 0
  }

  predicate LinesNumbered(calls: seq<Call>) {
    forall k :: 0 <= k < |calls| ==> calls[k].lineno > 0
  }

  lemma {:induction false} LinenosPositive(items: seq<Item>, section: string, prev: string, lineno: nat)
    requires lineno > 0
    ensures LinesNumbered(Expected(items, section, prev, lineno))
    decreases |items|
  {
    if items != [] {
      hide PrevAfter, SectionAfter;
      LinenosPositive(items[1..], SectionAfter(items[0], section), PrevAfter(items[0], prev), lineno + 1);
    }
  }

  function WantedFrom(st: State, items: seq<Item>): seq<Call> {
    st.calls + Expected(items, st.section, st.prevName, st.lineno + 1)
  }

  lemma {:induction false} ItemsParse(st: State, items: seq<Item>, handler: Handler)
    requires st.error == 0 && Document(items, st.prevName)
    ensures StopsAtFirstRejection(ParseLines(st, ItemLines(items), handler), WantedFrom(st, items), |st.calls|, handler)
    decreases |items|
  {
    hide Writable, LineStep, CallsOf, PrevAfter, SectionAfter, StopsAtFirstRejection, Expected, FirstRejected;
    if items == [] {
      NothingWanted(st, handler);
    } else {
      var next := ItemStep(st, items[0], handler);
      LineReads(st, items[0], handler);
      assert ParseLines(st, ItemLines(items), handler) == ParseLines(next, ItemLines(items[1..]), handler);
      if next.error == 0 {
        ItemsParse(next, items[1..], handler);
        WantedAgree(st, items, handler, ParseLines(next, ItemLines(items[1..]), handler));
      } else {
        RejectedHere(st, items, handler);
      }
    }
  }

  lemma NothingWanted(st: State, handler: Handler)
    requires st.error == 0
    ensures StopsAtFirstRejection(st, WantedFrom(st, []), |st.calls|, handler)
  {
    assert st.calls + [] == st.calls;
  }

  lemma RejectedHere(st: State, items: seq<Item>, handler: Handler)
    requires items != [] && st.error == 0 && ItemStep(st, items[0], handler).error != 0
    ensures StopsAtFirstRejection(ItemStep(st, items[0], handler), WantedFrom(st, items), |st.calls|, handler)
  {
    hide PrevAfter, SectionAfter;
    var cs := CallsOf(items[0], st.section, st.prevName, st.lineno + 1);
    var wanted := WantedFrom(st, items);
    assert |cs| == 1 && cs[0].lineno == st.lineno + 1;
    assert wanted[..|st.calls| + 1] == st.calls + cs && wanted[|st.calls|] == cs[0];
    assert FirstRejected(wanted, |st.calls|, handler) == |st.calls|;
  }

  /** One accepted item moves its call from the wanted calls to the calls made. */
  lemma WantedAgree(st: State, items: seq<Item>, handler: Handler, end: State)
    requires items != [] && st.error == 0
    requires ItemStep(st, items[0], handler).error == 0
    requires var next := ItemStep(st, items[0], handler);
      StopsAtFirstRejection(end, WantedFrom(next, items[1..]), |next.calls|, handler)
    ensures StopsAtFirstRejection(end, WantedFrom(st, items), |st.calls|, handler)
  {
    hide StopsAtFirstRejection, Expected, ItemStep, WantedFrom;
    NextWanted(st, items, handler);
    if |ItemStep(st, items[0], handler).calls| > |st.calls| {
      StopsLater(end, WantedFrom(st, items), |st.calls|, handler);
    }
  }

  lemma NextWanted(st: State, items: seq<Item>, handler: Handler)
    requires items != [] && st.error == 0 && ItemStep(st, items[0], handler).error == 0
    ensures var next := ItemStep(st, items[0], handler);
      && WantedFrom(st, items) == WantedFrom(next, items[1..])
      && |st.calls| <= |next.calls| <= |st.calls| + 1 && |next.calls| <= |WantedFrom(st, items)|
      && (|st.calls| < |next.calls| ==> Accepts(WantedFrom(st, items), |st.calls|, handler))
  {
    hide PrevAfter, SectionAfter, Accepts;
    var cs := CallsOf(items[0], st.section, st.prevName, st.lineno + 1);
    var next := ItemStep(st, items[0], handler);
    var rest := Expected(items[1..], next.section, next.prevName, next.lineno + 1);
    AppendAssoc(st.calls, cs, rest);
    if cs != [] {
      assert cs == [cs[0]];
      LastAccepted(st.calls, cs[0], rest, handler);
    }
  }

  lemma LastAccepted(calls: seq<Call>, c: Call, rest: seq<Call>, handler: Handler)
    requires handler(calls + [c])
    ensures Accepts(calls + [c] + rest, |calls|, handler)
  {
    assert (calls + [c] + rest)[..|calls| + 1] == calls + [c];
  }

  lemma StopsLater(end: State, wanted: seq<Call>, k: nat, handler: Handler)
    requires k < |wanted| && Accepts(wanted, k, handler) && StopsAtFirstRejection(end, wanted, k + 1, handler)
    ensures StopsAtFirstRejection(end, wanted, k, handler)
  {
    hide Accepts;
  }

  /** Parsing a rendered document calls the handler with exactly its pairs and continuations,
      each with its section, name and line number, in order, up to the first one that is
      rejected; the line of that one is the result, or 0 if there is none. */
  lemma RenderedDocumentParses(items: seq<Item>, handler: Handler)
    requires Document(items, "")
    ensures StopsAtFirstRejection(Parse(Render(items), handler), Expected(items, "", "", 1), 0, handler)
    ensures LinesNumbered(Expected(items, "", "", 1))
  {
    hide Lines, Render, ItemLines, ParseLines, StopsAtFirstRejection, Document, Expected;
    RenderedLines(items, "");
    ItemsParse(START, items, handler);
    LinenosPositive(items, "", "", 1);
    assert [] + Expected(items, "", "", 1) == Expected(items, "", "", 1);
  }

  /** The calls a document asks for, in its own words: every pair and continuation with the text
      of the last section above it, a continuation with the name of the pair above it. */
  function Wanted(items: seq<Item>, section: string, name: string, lineno: nat): seq<Call>
    decreases |items|
  {
    if items == [] then []
    else
      match items[0]
      case Section(s) => Wanted(items[1..], s, "", lineno + 1)
      case Pair(n, _, v, _) => [Call(section, n, v, lineno)] + Wanted(items[1..], section, n, lineno + 1)
      case More(t) => [Call(section, name, t, lineno)] + Wanted(items[1..], section, name, lineno + 1)
      case Remark(_) => Wanted(items[1..], section, name, lineno + 1)
  }

  /** Section names and option names of less than 50 characters are reported whole. */
  lemma {:induction false} ShortNamesStay(items: seq<Item>, section: string, name: string, lineno: nat)
    requires forall i <- items :: (i.Section? ==> |i.section| < 50) && (i.Pair? ==> |i.name| < 50)
    ensures Expected(items, section, name, lineno) == Wanted(items, section, name, lineno)
    decreases |items|
  {
    if items != [] {
      var i := items[0];
      assert i in items && forall j <- items[1..] :: j in items;
      ShortNamesStay(items[1..], SectionAfter(i, section), PrevAfter(i, name), lineno + 1);
      hide Cut;
      if i.Section? { CutFits(i.section); } else if i.Pair? { CutFits(i.name); }
    }
  }

  /** Longer ones are cut to 49 characters. */
  lemma LongNamesCut(s: string)
    requires |s| >= 50
    ensures Cut(s, MAX_SECTION) == s[..49] == Cut(s, MAX_NAME)
  {
  }

  lemma CutFits(s: string)
    requires |s| < 50
    ensures Cut(s, MAX_SECTION) == s == Cut(s, MAX_NAME)
  {
  }

  lemma {:induction false} FindsNothing(s: string, chars: string, wasSpace: bool)
    requires forall c <- s :: c !in chars && c != ';'
    ensures Find(s, chars, wasSpace) == |s|
  {
    if s != "" {
      assert s[0] in s && forall c <- s[1..] :: c in s;
      FindsNothing(s[1..], chars, IsSpace(s[0]));
    }
  }

  /** Documents that can be written in any case: a semicolon begins a comment only after white
      space, which is a blank or one of the characters from 9 to 13; text begins and ends with
      something else; separators and closing brackets only stand where they end something. */
  lemma PlainIsWritable(i: Item)
    requires |ItemText(i)| < 199 && '\n' !in ItemText(i)
    requires match i
             case Section(s) => forall c <- s :: c !in "];"
             case Pair(n, _, v, c) =>
               && n != "" && (forall c <- n :: c !in "=:;") && n[0] !in "#[" && n[0] as int != 0xEF
               && n[0] as int !in {9, 10, 11, 12, 13, 32} && n[|n| - 1] as int !in {9, 10, 11, 12, 13, 32}
               && (forall c <- v :: c != ';')
               && (v == "" || v[0] as int !in {9, 10, 11, 12, 13, 32})
               && (v == "" || v[|v| - 1] as int !in {9, 10, 11, 12, 13, 32})
               && (c == "" || (|c| >= 2 && c[0] as int in {9, 10, 11, 12, 13, 32} && c[1] == ';'))
             case More(t) =>
               && t != "" && t[0] !in ";#"
               && t[0] as int !in {9, 10, 11, 12, 13, 32} && t[|t| - 1] as int !in {9, 10, 11, 12, 13, 32}
             case Remark(t) => t == "" || t[0] in ";#"
    ensures Writable(i)
  {
    match i {
      case Section(s) => FindsNothing(s, "]", false);
      case Pair(n, _, v, c) =>
        FindsNothing(n, "=:", false);
        FindsNothing(v, "", true);
        assert n[0] in n;
        assert v != "" ==> v[0] in v;
      case _ =>
    }
  }

  /** A list of such items is a document if continuations follow pairs or other continuations. */
  lemma {:induction false} ItemsAreDocument(items: seq<Item>, prev: string)
    requires forall i <- items :: Writable(i)
    requires items != [] && items[0].More? ==> prev != ""
    requires forall k :: 0 < k < |items| && items[k].More? ==> items[k - 1].Pair? || items[k - 1].More?
    ensures Document(items, prev)
    decreases |items|
  {
    if items != [] {
      var i, rest, next := items[0], items[1..], PrevAfter(items[0], prev);
      assert i in items && Writable(i);
      assert i.Pair? ==> |Cut(i.name, MAX_NAME)| > 0;
      hide Writable, Cut;
      if rest != [] && rest[0].More? { assert items[1].More?; }
      forall k | 0 < k < |rest| && rest[k].More? ensures rest[k - 1].Pair? || rest[k - 1].More? {
        assert items[k + 1].More?;
      }
      assert forall j <- rest :: j in items;
      ItemsAreDocument(rest, next);
    }
  }

  // ----- the line buffer -----

  /** The string at position i of the buffer, up to its terminator, is t. */
  predicate At(b: seq<char>, i: nat, t: string) {
    i + |t| < |b| && b[i + |t|] == '\0' && forall k :: 0 <= k < |t| ==> b[i + k] == t[k] && t[k] != '\0'
  }

  lemma CharAt(b: seq<char>, s: nat, t: string, n: nat)
    requires At(b, s, t) && n <= |t|
    ensures s + n < |b| && b[s + n] == if n < |t| then t[n] else '\0'
    ensures n < |t| ==> t[n] != '\0'
  {
  }

  /** Writing a terminator inside a string cuts it there. */
  lemma CutString(b: seq<char>, i: nat, t: string, n: nat)
    requires At(b, i, t) && n <= |t|
    ensures At(b[i + n := '\0'], i, t[..n])
  {
  }

  lemma SuffixString(b: seq<char>, i: nat, t: string, n: nat)
    requires At(b, i, t) && n <= |t|
    ensures At(b, i + n, t[n..])
  {
  }

  /** Only what a string consists of matters to it. */
  lemma SameString(b: seq<char>, c: seq<char>, i: nat, t: string)
    requires At(b, i, t) && |b| == |c| && forall k :: i <= k <= i + |t| ==> c[k] == b[k]
    ensures At(c, i, t)
  {
  }

  /** Two buffers differ at most in positions lo to hi - 1. */
  predicate SameOutside(b: seq<char>, c: seq<char>, lo: nat, hi: nat) {
    |b| == |c| && forall k :: 0 <= k < |b| && !(lo <= k < hi) ==> c[k] == b[k]
  }

  lemma TrimOne(s: string)
    requires s != "" && IsSpace(s[|s| - 1])
    ensures TrimRight(s) == TrimRight(s[..|s| - 1])
  {
  }

  lemma TrimNone(s: string)
    requires s == "" || !IsSpace(s[|s| - 1])
    ensures TrimRight(s) == s
  {
  }

  lemma SkipOne(s: string)
    requires s != "" && IsSpace(s[0])
    ensures TrimLeft(s) == TrimLeft(s[1..])
  {
  }

  lemma SkipNone(s: string)
    requires s == "" || !IsSpace(s[0])
    ensures TrimLeft(s) == s
  {
  }

  lemma FindOne(s: string, chars: string, wasSpace: bool)
    requires s != "" && s[0] !in chars && !(wasSpace && s[0] == ';')
    ensures Find(s, chars, wasSpace) == 1 + Find(s[1..], chars, IsSpace(s[0]))
  {
  }

  lemma FindNone(s: string, chars: string, wasSpace: bool)
    requires s == "" || s[0] in chars || (wasSpace && s[0] == ';')
    ensures Find(s, chars, wasSpace) == 0
  {
  }

  method StrLen(line: array<char>, s: nat, ghost t: string) returns (p: nat)
    requires At(line[..], s, t)
    ensures p == s + |t|
  {
    p := s;
    while line[p] != '\0'
      invariant s <= p <= s + |t|
      invariant p < s + |t| ==> line[p] == t[p - s] && t[p - s] != '\0'
      decreases s + |t| - p
    {
      p := p + 1;
      assert p < s + |t| ==> line[..][s + (p - s)] == t[p - s];
    }
  }

  /** Strip white space off the end, writing terminators over it. */
  method RStrip(line: array<char>, s: nat, ghost t: string)
    requires At(line[..], s, t)
    modifies line
    ensures At(line[..], s, TrimRight(t)) && SameOutside(old(line[..]), line[..], s, s + |t|)
  {
    hide TrimRight, IsSpace;
    ghost var b := line[..];
    var p := StrLen(line, s, t);
    assert t[..|t|] == t;
    while p > s && IsSpace(line[p - 1])
      invariant s <= p <= s + |t| && At(line[..], s, t[..p - s]) && TrimRight(t[..p - s]) == TrimRight(t)
      invariant SameOutside(b, line[..], s, s + |t|)
    {
      assert line[..][s + (p - 1 - s)] == line[p - 1];
      TrimOne(t[..p - s]);
      assert t[..p - s][..p - s - 1] == t[..p - s - 1];
      CutString(line[..], s, t[..p - s], p - s - 1);
      p := p - 1;
      line[p] := '\0';
    }
    if p > s { assert line[..][s + (p - 1 - s)] == line[p - 1]; }
    TrimNone(t[..p - s]);
  }

  method LSkip(line: array<char>, s: nat, ghost t: string) returns (p: nat)
    requires At(line[..], s, t)
    ensures p == s + (|t| - |TrimLeft(t)|) && At(line[..], p, TrimLeft(t))
  {
    hide TrimLeft, IsSpace, At;
    p := s;
    ghost var b := line[..];
    CharAt(b, s, t, 0);
    while line[p] != '\0' && IsSpace(line[p])
      invariant s <= p <= s + |t| && p < line.Length && TrimLeft(t) == TrimLeft(t[p - s..])
      invariant line[p] == if p - s < |t| then t[p - s] else '\0'
      decreases s + |t| - p
    {
      SkipOne(t[p - s..]);
      assert t[p - s..][1..] == t[p + 1 - s..];
      p := p + 1;
      CharAt(b, s, t, p - s);
    }
    CharAt(b, s, t, p - s);
    SkipNone(t[p - s..]);
    SuffixString(b, s, t, p - s);
  }

  method FindCharsOrComment(line: array<char>, s: nat, chars: string, ghost t: string) returns (p: nat)
    requires At(line[..], s, t)
    ensures p == s + Find(t, chars, false)
  {
    hide Find, IsSpace, At;
    p := s;
    ghost var b := line[..];
    CharAt(b, s, t, 0);
    var wasSpace := false;
    while line[p] != '\0' && line[p] !in chars && !(wasSpace && line[p] == ';')
      invariant s <= p <= s + |t| && p < line.Length && line[p] == if p - s < |t| then t[p - s] else '\0'
      invariant Find(t, chars, false) == p - s + Find(t[p - s..], chars, wasSpace)
      decreases s + |t| - p
    {
      FindOne(t[p - s..], chars, wasSpace);
      assert t[p - s..][1..] == t[p + 1 - s..];
      wasSpace := IsSpace(line[p]);
      p := p + 1;
      CharAt(b, s, t, p - s);
    }
    CharAt(b, s, t, p - s);
    FindNone(t[p - s..], chars, wasSpace);
  }

  /** The string at a position, as a value that a callee receives. */
  method Text(line: array<char>, s: nat, ghost t: string) returns (r: string)
    requires At(line[..], s, t)
    ensures r == t
  {
    var e := StrLen(line, s, t);
    r := line[s..e];
    assert forall k :: 0 <= k < |t| ==> r[k] == line[..][s + k];
  }

  method Terminate(line: array<char>, s: nat, n: nat, ghost t: string)
    requires At(line[..], s, t) && n <= |t|
    modifies line
    ensures At(line[..], s, t[..n]) && SameOutside(old(line[..]), line[..], s + n, s + n + 1)
    ensures n < |t| ==> At(line[..], s + n + 1, t[n + 1..])
  {
    ghost var b := line[..];
    CutString(b, s, t, n);
    line[s + n] := '\0';
    if n < |t| {
      SuffixString(b, s, t, n + 1);
      SameString(b, line[..], s + n + 1, t[n + 1..]);
    }
  }

  /** Split a pair in place: the name stays at its start, the value is at the returned
      position. */
  method SplitPair(line: array<char>, start: nat, n: nat, ghost t: string) returns (value: nat)
    requires At(line[..], start, t) && n < |t|
    modifies line
    ensures At(line[..], start, TrimRight(t[..n])) && At(line[..], value, ValueOf(t[n + 1..]))
  {
    hide TrimRight, TrimLeft, Find, At;
    ghost var rest, name := t[n + 1..], TrimRight(t[..n]);
    Terminate(line, start, n, t);
    ghost var b := line[..];
    RStrip(line, start, t[..n]);
    KeepsAfter(b, line[..], start, t[..n], start + n + 1, rest);
    value := start + n + 1;
    value := CutValue(line, start, value, rest, name);
  }

  /** Drop an inline comment and the blanks around a value that follows a name. */
  method CutValue(line: array<char>, start: nat, first: nat,
                  ghost rest: string, ghost name: string) returns (value: nat)
    requires At(line[..], first, rest) && At(line[..], start, name) && start + |name| < first
    modifies line
    ensures At(line[..], start, name) && At(line[..], value, ValueOf(rest))
  {
    hide TrimRight, TrimLeft, Find, At;
    ghost var b0 := line[..];
    var end := FindCharsOrComment(line, first, "", rest);
    Terminate(line, first, end - first, rest);
    KeepsBefore(b0, line[..], start, name, end, end + 1);
    ghost var v := rest[..end - first];
    value := LSkip(line, first, v);
    ghost var b1 := line[..];
    RStrip(line, value, TrimLeft(v));
    KeepsBefore(b1, line[..], start, name, value, value + |TrimLeft(v)|);
  }

  lemma KeepsAfter(b: seq<char>, c: seq<char>, i: nat, t: string, j: nat, u: string)
    requires SameOutside(b, c, i, i + |t|) && i + |t| <= j && At(b, j, u)
    ensures At(c, j, u)
  {
  }

  lemma KeepsBefore(b: seq<char>, c: seq<char>, i: nat, t: string, lo: nat, hi: nat)
    requires SameOutside(b, c, lo, hi) && i + |t| < lo && At(b, i, t)
    ensures At(c, i, t)
  {
  }

  // ----- the parser -----

  class Parser {
    var section: string
    var prevName: string
    var lineno: nat
    var error: nat
    var calls: seq<Call>

    constructor ()
      ensures Value() == START
    {
      section, prevName, lineno, error, calls := "", "", 0, 0, [];
    }

    function Value(): State
      reads this
    {
      State(section, prevName, lineno, error, calls)
    }

    method CallHandler(name: string, value: string, handler: Handler)
      modifies this`error, this`calls
      ensures Value() == Report(old(Value()), name, value, handler)
    {
      calls := calls + [Call(section, name, value, lineno)];
      var ok := handler(calls);
      if !ok && error == 0 { error := lineno; }
    }

    method ReadSection(line: array<char>, start: nat, ghost t: string)
      requires At(line[..], start, t) && t != ""
      modifies line, this
      ensures Value() == SectionLine(old(Value()), t)
    {
      hide Find, Cut;
      SuffixString(line[..], start, t, 1);
      ghost var rest := t[1..];
      var end := FindCharsOrComment(line, start + 1, "]", rest);
      CharAt(line[..], start + 1, rest, end - start - 1);
      hide At;
      if line[end] == ']' {
        Terminate(line, start + 1, end - start - 1, rest);
        var name := Text(line, start + 1, rest[..end - start - 1]);
        assert name == t[1..end - start];
        section := Cut(name, MAX_SECTION);
        prevName := "";
      } else if error == 0 {
        error := lineno;
      }
    }

    method ReadPair(line: array<char>, start: nat, ghost t: string, handler: Handler)
      requires At(line[..], start, t)
      modifies line, this
      ensures Value() == PairLine(old(Value()), t, handler)
    {
      hide Find, Cut, Report, TrimRight, ValueOf;
      var end := FindCharsOrComment(line, start, "=:", t);
      CharAt(line[..], start, t, end - start);
      hide At;
      if line[end] == '=' || line[end] == ':' {
        var at := SplitPair(line, start, end - start, t);
        var name := Text(line, start, TrimRight(t[..end - start]));
        var value := Text(line, at, ValueOf(t[end - start + 1..]));
        prevName := Cut(name, MAX_NAME);
        CallHandler(name, value, handler);
      } else if error == 0 {
        error := lineno;
      }
    }

    method ReadText(line: array<char>, start: nat, ghost t: string, handler: Handler)
      requires At(line[..], start, t)
      modifies line, this
      ensures Value() == TextLine(old(Value()), t, start > 0, handler)
    {
      hide SectionLine, PairLine, Report;
      CharAt(line[..], start, t, 0);
      hide At;
      if line[start] == ';' || line[start] == '#' || line[start] == '\0' {
      } else if prevName != "" && start > 0 {
        var value := Text(line, start, t);
        CallHandler(prevName, value, handler);
      } else if line[start] == '[' {
        ReadSection(line, start, t);
      } else {
        ReadPair(line, start, t, handler);
      }
    }

    /** One round of the parsing loop. */
    method ReadLine(line: array<char>, ghost text: string, handler: Handler)
      requires At(line[..], 0, text) && line.Length == MAX_LINE
      modifies line, this
      ensures Value() == LineStep(old(Value()), text, handler)
    {
      hide TrimRight, TrimLeft, TextLine, At, StartsWithBom;
      lineno := lineno + 1;
      var start := 0;
      if lineno == 1 { start := SkipBom(line, text); }
      ghost var first := text[start..];
      assert text[0..] == text;
      RStrip(line, start, first);
      start := LSkip(line, start, TrimRight(first));
      ReadText(line, start, TrimLeft(TrimRight(first)), handler);
    }
  }

  /** The position after a byte-order mark. */
  method SkipBom(line: array<char>, ghost text: string) returns (start: nat)
    requires At(line[..], 0, text) && line.Length == MAX_LINE
    ensures start == if StartsWithBom(text) then 3 else 0
    ensures start <= |text| && At(line[..], start, text[start..])
  {
    BomIsFirst(line[..], text);
    start := 0;
    if line[0] == 0xEF as char && line[1] == 0xBB as char && line[2] == 0xBF as char { start := 3; }
    SuffixString(line[..], 0, text, start);
  }

  lemma BomIsFirst(b: seq<char>, text: string)
    requires At(b, 0, text) && |b| >= 3
    ensures StartsWithBom(text) <==> b[0] == 0xEF as char && b[1] == 0xBB as char && b[2] == 0xBF as char
  {
    if |text| > 0 { CharAt(b, 0, text, 0); }
    if |text| > 1 { CharAt(b, 0, text, 1); }
    if |text| > 2 { CharAt(b, 0, text, 2); }
  }

  /** A text without terminators, read line by line. */
  class Reader {
    const text: string
    var pos: nat

    constructor (text: string)
      ensures this.text == text && pos == 0
    {
      this.text, pos := text, 0;
    }

    ghost predicate Valid()
      reads this
    {
      pos <= |text| && '\0' !in text
    }

    function Rest(): string
      requires pos <= |text|
      reads this
    {
      text[pos..]
    }

    /** Copy characters up to a newline, the end, or num - 1 of them, and a terminator. */
    method Read(line: array<char>, num: nat) returns (more: bool)
      requires Valid() && num <= line.Length
      modifies this`pos, line
      ensures Valid() && more == (old(Rest()) != "" && num >= 2)
      ensures !more ==> pos == old(pos)
      ensures more ==>
        var n := LineLength(old(Rest()), num - 1);
        Rest() == old(Rest())[n..] && At(line[..], 0, old(Rest())[..n])
    {
      hide LineLength, At;
      if pos == |text| || num < 2 { return false; }
      var n := CopyLine(line, num, Rest());
      pos := pos + n;
      more := true;
    }
  }

  /** The copying loop; the number of characters copied. */
  method CopyLine(line: array<char>, num: nat, rest: string) returns (strp: nat)
    requires 2 <= num <= line.Length && rest != "" && '\0' !in rest
    modifies line
    ensures strp == LineLength(rest, num - 1) && At(line[..], 0, rest[..strp])
  {
    hide LineLength, At;
    var left := num;
    strp := 0;
    var done := false;
    while left > 1 && strp < |rest| && !done
      invariant strp <= |rest| && strp < num && left == num - strp + if done then 1 else 0
      invariant line[..strp] == rest[..strp]
      invariant LineLength(rest, num - 1) == strp + StillToCome(rest[strp..], left - 1, done)
      decreases |rest| - strp, !done
    {
      LengthStep(rest[strp..], left - 1);
      assert rest[strp..][1..] == rest[strp + 1..];
      var c := rest[strp];
      line[strp] := c;
      assert line[..strp + 1] == rest[..strp] + [c];
      strp := strp + 1;
      if c == '\n' { done := true; } else { left := left - 1; }
    }
    line[strp] := '\0';
    CopiedString(line[..], rest[..strp]);
  }

  /** How much of a line is still to come. */
  function StillToCome(rest: string, size: nat, done: bool): nat {
    if done || size == 0 || rest == "" then 0 else LineLength(rest, size)
  }

  lemma CopiedString(b: seq<char>, t: string)
    requires |t| < |b| && b[..|t|] == t && b[|t|] == '\0' && '\0' !in t
    ensures At(b, 0, t)
  {
    forall k | 0 <= k < |t| ensures b[k] == t[k] && t[k] != '\0' { assert b[..|t|][k] == b[k] && t[k] in t; }
  }

  lemma LengthStep(s: string, size: nat)
    requires s != "" && size > 0
    ensures LineLength(s, size) == 1 + StillToCome(s[1..], size - 1, s[0] == '\n')
  {
  }

  /** Parse a whole text; the result is the number of the first bad line, or 0. */
  method ParseString(text: string, handler: Handler) returns (error: nat, calls: seq<Call>)
    requires '\0' !in text
    ensures error == Parse(text, handler).error && calls == Parse(text, handler).calls
  {
    hide LineStep, At, LineLength, ParseLines, Lines;
    var reader := new Reader(text);
    var parser := new Parser();
    var line := new char[MAX_LINE];
    assert text[0..] == text;
    var more := true;
    while more
      invariant reader.Valid() && reader.text == text
      invariant more ==> parser.error == 0
      invariant more ==> ParseLines(parser.Value(), Lines(reader.Rest()), handler) == Parse(text, handler)
      invariant !more ==> parser.Value() == Parse(text, handler)
      decreases |text| - reader.pos, more
    {
      hide Parse;
      more := Round(reader, parser, line, handler);
    }
    error, calls := parser.error, parser.calls;
  }

  /** A rendered document, put through the reader and the parser: the calls are the expected
      ones up to the first that is rejected, and the result is its line, or 0. For names that
      are short enough, the expected calls are those that the document asks for in its own words. */
  method ParseDocument(items: seq<Item>, handler: Handler) returns (error: nat, calls: seq<Call>)
    requires Document(items, "") && '\0' !in Render(items)
    ensures var wanted := Expected(items, "", "", 1);
      var r := FirstRejected(wanted, 0, handler);
      if r < |wanted| then calls == wanted[..r + 1] && error == wanted[r].lineno > 0
      else calls == wanted && error == 0
    ensures (forall i <- items :: (i.Section? ==> |i.section| < 50) && (i.Pair? ==> |i.name| < 50)) ==>
      Expected(items, "", "", 1) == Wanted(items, "", "", 1)
  {
    hide Parse, Document, Render, Expected, FirstRejected, Wanted;
    error, calls := ParseString(Render(items), handler);
    RenderedDocumentParses(items, handler);
    if forall i <- items :: (i.Section? ==> |i.section| < 50) && (i.Pair? ==> |i.name| < 50) {
      ShortNamesStay(items, "", "", 1);
    }
  }

  /** Read a line and parse it; false at the end of the text or after an error. */
  method Round(reader: Reader, parser: Parser, line: array<char>, handler: Handler) returns (more: bool)
    requires reader.Valid() && parser.error == 0 && line.Length == MAX_LINE
    modifies reader`pos, parser, line
    ensures reader.Valid() && (more ==> parser.error == 0 && reader.pos > old(reader.pos))
    ensures reader.pos >= old(reader.pos)
    ensures var all := old(ParseLines(parser.Value(), Lines(reader.Rest()), handler));
      if more then ParseLines(parser.Value(), Lines(reader.Rest()), handler) == all else parser.Value() == all
  {
    hide LineStep, At, ParseLines, Lines, LineLength;
    ghost var rest := reader.Rest();
    LinesStep(parser.Value(), rest, handler);
    more := reader.Read(line, MAX_LINE);
    if more {
      parser.ReadLine(line, rest[..LineLength(rest, MAX_LINE - 1)], handler);
      LinesStep(parser.Value(), reader.Rest(), handler);
      if parser.error != 0 { more := false; }
    }
  }

  lemma LinesStep(st: State, rest: string, handler: Handler)
    ensures var n := LineLength(rest, MAX_LINE - 1);
      ParseLines(st, Lines(rest), handler) ==
        if rest == "" || st.error != 0 then st
        else ParseLines(LineStep(st, rest[..n], handler), Lines(rest[n..]), handler)
  {
    hide LineStep;
  }
}
