/** The text side of the PDF writer: escaping, line wrapping, paging, and the content stream of a
    page, each with the reading that undoes it. */
module PdfText {
  import opened Optional
  import opened Text

  // ---------------------------------------------------------------- literal strings

  /** `s.replace(c, by)` for a single character. */
  function Replace(s: string, c: char, sub: string): string {
    if s == "" then "" else (if s[0] == c then sub else [s[0]]) + Replace(s[1..], c, sub)
  }

  /** `pdf_escape`: three passes. */
  function PdfEscape(text: string): string {
    Replace(Replace(Replace(text, '\\', "\\\\"), '(', "\\("), ')', "\\)")
  }

  predicate NeedsEscape(c: char) { c == '\\' || c == '(' || c == ')' }

  /** One pass that puts a backslash before each special character. */
  function EscapeOnce(text: string): string {
    if text == "" then ""
    else (if NeedsEscape(text[0]) then ['\\', text[0]] else [text[0]]) + EscapeOnce(text[1..])
  }

  lemma {:induction false} ReplaceConcat(a: string, b: string, c: char, sub: string)
    ensures Replace(a + b, c, sub) == Replace(a, c, sub) + Replace(b, c, sub)
  {
    if a == "" {
      assert a + b == b;
    } else {
      ReplaceConcat(a[1..], b, c, sub);
      assert (a + b)[1..] == a[1..] + b && (a + b)[0] == a[0];
      var head := if a[0] == c then sub else [a[0]];
      Reassociate(head, Replace(a[1..], c, sub), Replace(b, c, sub));
    }
  }

  lemma {:induction false} ReplaceAbsent(s: string, c: char, sub: string)
    requires c !in s
    ensures Replace(s, c, sub) == s
  {
    if s != "" {
      ReplaceAbsent(s[1..], c, sub);
    }
  }

  lemma ReplaceOne(c: char, sub: string)
    ensures Replace([c], c, sub) == sub
  {
    assert [c][1..] == "" && sub + "" == sub;
  }

  lemma PassesOnChar(c: char)
    ensures PdfEscape([c]) == if NeedsEscape(c) then ['\\', c] else [c]
  {
    var afterFirst := if c == '\\' then "\\\\" else [c];
    if c == '\\' { ReplaceOne(c, "\\\\"); } else { ReplaceAbsent([c], '\\', "\\\\"); }
    var afterSecond := if c == '(' then "\\(" else afterFirst;
    if c == '(' { ReplaceOne(c, "\\("); } else { ReplaceAbsent(afterFirst, '(', "\\("); }
    if c == ')' { ReplaceOne(c, "\\)"); } else { ReplaceAbsent(afterSecond, ')', "\\)"); }
  }

  /** The order of the three passes is right: backslashes first, so that none is escaped twice. */
  lemma {:induction false} ThreePassesAreOne(text: string)
    ensures PdfEscape(text) == EscapeOnce(text)
  {
    if text != "" {
      var c, rest := [text[0]], text[1..];
      assert text == c + rest;
      ReplaceConcat(c, rest, '\\', "\\\\");
      var c1, r1 := Replace(c, '\\', "\\\\"), Replace(rest, '\\', "\\\\");
      ReplaceConcat(c1, r1, '(', "\\(");
      ReplaceConcat(Replace(c1, '(', "\\("), Replace(r1, '(', "\\("), ')', "\\)");
      PassesOnChar(text[0]);
      ThreePassesAreOne(rest);
    }
  }

  /** What a backslash and the character after it stand for in a literal string (section 7.3.4.2 of
      ISO 32000-1); octal codes are not used by the writer. */
  function Unescaped(c: char): char {
    if c == 'n' then '\n' else if c == 'r' then '\r' else if c == 't' then '\t'
    else if c == 'b' then '\U{8}' else if c == 'f' then '\U{C}' else c
  }

  /** Reading a literal string up to its closing parenthesis: its text and what follows. A bare
      carriage return reads as a line feed; an opening parenthesis must be escaped. */
  function ReadLiteral(s: string): (r: Option<(string, string)>)
    ensures r.Some? ==> |r.value.1| < |s|
  {
    if s == "" || s[0] == '(' then None
    else if s[0] == ')' then Some(("", s[1..]))
    else if s[0] == '\\' then
      if |s| == 1 then None else Prepend(Unescaped(s[1]), ReadLiteral(s[2..]))
    else Prepend(if s[0] == '\r' then '\n' else s[0], ReadLiteral(s[1..]))
  }

  function Prepend(c: char, r: Option<(string, string)>): Option<(string, string)> {
    if r.None? then None else Some(([c] + r.value.0, r.value.1))
  }

  /** Reading undoes escaping, for every text without a carriage return. */
  lemma {:induction false} ReadEscaped(text: string, rest: string)
    requires forall i :: 0 <= i < |text| ==> text[i] != '\r'
    ensures ReadLiteral(EscapeOnce(text) + ")" + rest) == Some((text, rest))
  {
    var s := EscapeOnce(text) + ")" + rest;
    if text == "" {
      assert s[1..] == rest;
    } else {
      ReadEscaped(text[1..], rest);
      var tail := EscapeOnce(text[1..]) + ")" + rest;
      if NeedsEscape(text[0]) {
        assert s[2..] == tail;
      } else {
        assert s[1..] == tail;
      }
      assert [text[0]] + text[1..] == text;
    }
  }

  // ---------------------------------------------------------------- latin-1

  /** `encode("latin-1", errors="replace")` of one character. */
  function Latin1Char(c: char): char { if c as int < 256 then c else '?' }

  function Latin1(s: string): (t: string)
    ensures |t| == |s|
  {
    if s == "" then "" else [Latin1Char(s[0])] + Latin1(s[1..])
  }

  lemma {:induction false} Latin1Concat(a: string, b: string)
    ensures Latin1(a + b) == Latin1(a) + Latin1(b)
  {
    if a == "" {
      assert a + b == b;
    } else {
      Latin1Concat(a[1..], b);
      assert (a + b)[1..] == a[1..] + b && (a + b)[0] == a[0];
      Reassociate([Latin1Char(a[0])], Latin1(a[1..]), Latin1(b));
    }
  }

  /** Characters up to number 255 stay, and any other becomes a question mark. */
  lemma {:induction false} Latin1At(s: string, i: nat)
    requires i < |s|
    ensures Latin1(s)[i] == if s[i] <= '\U{FF}' then s[i] else '?'
  {
    if i > 0 {
      Latin1At(s[1..], i - 1);
    }
  }

  predicate IsAscii(s: string) {
    s != "" ==> s[0] as int < 128 && IsAscii(s[1..])
  }

  lemma {:induction false} Latin1OfAscii(s: string)
    requires IsAscii(s)
    ensures Latin1(s) == s
  {
    if s != "" {
      Latin1OfAscii(s[1..]);
    }
  }

  /** Replacing characters outside Latin-1 before or after escaping makes no difference. */
  lemma {:induction false} Latin1Escape(text: string)
    ensures Latin1(EscapeOnce(text)) == EscapeOnce(Latin1(text))
  {
    if text != "" {
      Latin1Escape(text[1..]);
      var head := if NeedsEscape(text[0]) then ['\\', text[0]] else [text[0]];
      Latin1Concat(head, EscapeOnce(text[1..]));
      assert ['\\', text[0]][1..] == [text[0]] && [text[0]][1..] == "";
      assert Latin1(text)[0] == Latin1Char(text[0]) && Latin1(text)[1..] == Latin1(text[1..]);
    }
  }

  lemma {:induction false} Latin1NoReturn(s: string)
    requires forall i :: 0 <= i < |s| ==> s[i] != '\r'
    ensures forall i :: 0 <= i < |s| ==> Latin1(s)[i] != '\r'
  {
    if s != "" {
      Latin1NoReturn(s[1..]);
    }
  }

  // ---------------------------------------------------------------- content streams

  /** The parts, each followed by a line feed. */
  function Each(parts: seq<string>): string {
    if parts == [] then "" else parts[0] + "\n" + Each(parts[1..])
  }

  lemma {:induction false} JoinLast(parts: seq<string>, last: string)
    ensures Join("\n", parts + [last]) == Each(parts) + last
  {
    if parts == [] {
      assert parts + [last] == [last];
    } else {
      JoinLast(parts[1..], last);
      assert (parts + [last])[1..] == parts[1..] + [last];
    }
  }

  lemma {:induction false} EachConcat(a: seq<string>, b: seq<string>)
    ensures Each(a + b) == Each(a) + Each(b)
  {
    if a == [] {
      assert a + b == b;
    } else {
      EachConcat(a[1..], b);
      assert (a + b)[1..] == a[1..] + b;
    }
  }

  const PRELUDE: seq<string> := ["BT", "/F1 10 Tf", "50 790 Td", "14 TL"]

  /** The two operators that show one line. */
  function ShowLine(line: string): seq<string> {
    ["(" + PdfEscape(line) + ") Tj", "T*"]
  }

  function ShowLines(lines: seq<string>): seq<string> {
    if lines == [] then [] else ShowLines(lines[..|lines| - 1]) + ShowLine(lines[|lines| - 1])
  }

  function StreamText(lines: seq<string>): string {
    Join("\n", PRELUDE + ShowLines(lines) + ["ET"])
  }

  /** The content stream of a page, as bytes. */
  function Stream(lines: seq<string>): string {
    Latin1(StreamText(lines))
  }

  /** The loop over the lines of a page. */
  method WriteStream(lines: seq<string>) returns (stream: string)
    ensures stream == Stream(lines)
  {
    var streamLines := PRELUDE;
    for i := 0 to |lines|
      invariant streamLines == PRELUDE + ShowLines(lines[..i])
    {
      assert lines[..i + 1][..i] == lines[..i];
      streamLines := streamLines + ["(" + PdfEscape(lines[i]) + ") Tj"];
      streamLines := streamLines + ["T*"];
    }
    assert lines[..|lines|] == lines;
    streamLines := streamLines + ["ET"];
    stream := Latin1(Join("\n", streamLines));
  }

  /** What follows the prelude: the lines shown one after the other. */
  function Shown(lines: seq<string>): string {
    if lines == [] then "ET" else "(" + EscapeOnce(lines[0]) + ")" + " Tj\nT*\n" + Shown(lines[1..])
  }

  lemma {:induction false} EachShown(lines: seq<string>)
    ensures Each(ShowLines(lines)) + "ET" == Shown(lines)
  {
    ShowLinesFront(lines);
    if lines != [] {
      var rest := ShowLines(lines[1..]);
      EachShown(lines[1..]);
      EachConcat(ShowLine(lines[0]), rest);
      ThreePassesAreOne(lines[0]);
      EachOfShow(lines[0]);
    }
  }

  lemma EachOfShow(line: string)
    ensures Each(ShowLine(line)) == "(" + PdfEscape(line) + ")" + " Tj\nT*\n"
  {
    var a, b := "(" + PdfEscape(line) + ") Tj", "T*";
    assert [a, b][1..] == [b] && [b][1..] == [];
    assert Each([b]) == b + "\n" + "";
    assert Each([a, b]) == a + "\n" + Each([b]);
    assert ") Tj" + "\n" + "T*" + "\n" == ")" + " Tj\nT*\n";
  }

  lemma {:induction false} ShowLinesFront(lines: seq<string>)
    ensures lines != [] ==> ShowLines(lines) == ShowLine(lines[0]) + ShowLines(lines[1..])
  {
    if |lines| > 1 {
      ShowLinesFront(lines[..|lines| - 1]);
      assert lines[..|lines| - 1][1..] == lines[1..][..|lines| - 2];
    } else if |lines| == 1 {
      assert lines[..0] == [] && lines[1..] == [];
    }
  }

  function Latin1All(lines: seq<string>): (r: seq<string>)
    ensures |r| == |lines|
  {
    if lines == [] then [] else [Latin1(lines[0])] + Latin1All(lines[1..])
  }

  lemma Latin1Pieces(a: string, b: string, c: string, d: string, e: string)
    ensures Latin1(a + b + c + d + e) == Latin1(a) + Latin1(b) + Latin1(c) + Latin1(d) + Latin1(e)
  {
    Latin1Concat(a + b + c + d, e);
    Latin1Concat(a + b + c, d);
    Latin1Concat(a + b, c);
    Latin1Concat(a, b);
  }

  lemma {:induction false} Latin1Shown(lines: seq<string>)
    ensures Latin1(Shown(lines)) == Shown(Latin1All(lines))
  {
    if lines == [] {
      Latin1OfAscii("ET");
    } else {
      Latin1Shown(lines[1..]);
      Latin1Escape(lines[0]);
      Latin1Pieces("(", EscapeOnce(lines[0]), ")", " Tj\nT*\n", Shown(lines[1..]));
      Latin1OfAscii("(");
      Latin1OfAscii(")");
      OperatorsAreAscii();
      Latin1OfAscii(" Tj\nT*\n");
      assert Latin1All(lines)[1..] == Latin1All(lines[1..]);
    }
  }

  lemma OperatorsAreAscii()
    ensures IsAscii(" Tj\nT*\n")
  {
    var s := " Tj\nT*\n";
    assert s[1..] == "Tj\nT*\n" && s[1..][1..] == "j\nT*\n" && s[1..][1..][1..] == "\nT*\n";
    assert "\nT*\n"[1..] == "T*\n" && "T*\n"[1..] == "*\n" && "*\n"[1..] == "\n" && "\n"[1..] == "";
  }

  /** Reading the lines shown by a content stream after its prelude. */
  function ReadShown(s: string): Option<seq<string>>
    decreases |s|
  {
    if s == "ET" then Some([])
    else if s == "" || s[0] != '(' then None
    else
      var r := ReadLiteral(s[1..]);
      if r.None? || !(" Tj\nT*\n" <= r.value.1) then None
      else
        var more := ReadShown(r.value.1[7..]);
        if more.None? then None else Some([r.value.0] + more.value)
  }

  ghost predicate NoReturns(lines: seq<string>) {
    forall line :: line in lines ==> forall i :: 0 <= i < |line| ==> line[i] != '\r'
  }

  lemma ReadShownStep(line: string, rest: string, op: string)
    requires op == " Tj\nT*\n" && forall i :: 0 <= i < |line| ==> line[i] != '\r'
    requires ReadShown(rest).Some?
    ensures ReadShown("(" + EscapeOnce(line) + ")" + op + rest) == Some([line] + ReadShown(rest).value)
  {
    var s, after := "(" + EscapeOnce(line) + ")" + op + rest, op + rest;
    assert s[1..] == EscapeOnce(line) + ")" + after;
    ReadEscaped(line, after);
    assert after[7..] == rest && op <= after;
    assert s[0] == '(' && s != "ET";
  }

  lemma {:induction false} ReadShownLines(lines: seq<string>)
    requires NoReturns(lines)
    ensures ReadShown(Shown(lines)) == Some(lines)
  {
    if lines != [] {
      assert lines[0] in lines;
      ReadShownLines(lines[1..]);
      ReadShownStep(lines[0], Shown(lines[1..]), " Tj\nT*\n");
      assert [lines[0]] + lines[1..] == lines;
    }
  }

  /** The bytes before the first line. */
  function PreludeText(): string { Each(PRELUDE) }

  /** A page's content stream is the prelude followed by something that reads back as the page's
      lines, with the characters outside Latin-1 replaced. */
  lemma StreamReadsBack(lines: seq<string>)
    requires NoReturns(lines)
    ensures Stream(lines) == Latin1(PreludeText()) + Shown(Latin1All(lines))
    ensures ReadShown(Stream(lines)[|PreludeText()|..]) == Some(Latin1All(lines))
  {
    StreamTextIs(PRELUDE, lines);
    var prelude := PreludeText();
    Latin1Concat(prelude, Shown(lines));
    Latin1Shown(lines);
    Latin1AllNoReturns(lines);
    ReadShownLines(Latin1All(lines));
    SuffixIs(Latin1(prelude), Shown(Latin1All(lines)));
  }

  lemma SuffixIs(a: string, b: string)
    ensures (a + b)[|a|..] == b
  {}

  lemma StreamTextIs(prelude: seq<string>, lines: seq<string>)
    ensures Join("\n", prelude + ShowLines(lines) + ["ET"]) == Each(prelude) + Shown(lines)
  {
    var ops := prelude + ShowLines(lines);
    JoinLast(ops, "ET");
    EachConcat(prelude, ShowLines(lines));
    EachShown(lines);
    assert Each(ops) + "ET" == Each(prelude) + (Each(ShowLines(lines)) + "ET");
  }

  lemma {:induction false} Latin1AllNoReturns(lines: seq<string>)
    requires NoReturns(lines)
    ensures NoReturns(Latin1All(lines))
  {
    if lines != [] {
      assert lines[0] in lines;
      Latin1NoReturn(lines[0]);
      Latin1AllNoReturns(lines[1..]);
    }
  }

  // ---------------------------------------------------------------- lines and pages

  /** Pieces of 105 characters and a shorter last one. */
  function Wrap(line: string): seq<string> {
    if |line| > 105 then [line[..105]] + Wrap(line[105..]) else [line]
  }

  function WrapAll(raws: seq<string>): seq<string> {
    if raws == [] then [] else WrapAll(raws[..|raws| - 1]) + Wrap(Strip(raws[|raws| - 1]))
  }

  /** The first loop of the writer. */
  method WrapLines(text: string) returns (lines: seq<string>)
    ensures lines == WrapAll(SplitLines(text))
  {
    lines := [];
    var raws := SplitLines(text);
    for i := 0 to |raws|
      invariant lines == WrapAll(raws[..i])
    {
      assert raws[..i + 1][..i] == raws[..i];
      var line := Strip(raws[i]);
      ghost var before := lines;
      if |line| > 105 {
        while |line| > 105
          invariant lines + Wrap(line) == before + Wrap(Strip(raws[i]))
        {
          lines := lines + [line[..105]];
          line := line[105..];
        }
      }
      lines := lines + [line];
    }
    assert raws[..|raws|] == raws;
  }

  function Concat(parts: seq<string>): string {
    if parts == [] then "" else parts[0] + Concat(parts[1..])
  }

  /** Wrapping splits a line without losing a character, into pieces of 105 and a last one that is not longer, and
      is empty only if the line is. */
  lemma {:induction false} WrapFacts(line: string)
    ensures Concat(Wrap(line)) == line && Wrap(line) != []
    ensures var last := |Wrap(line)| - 1;
      (forall i :: 0 <= i < last ==> |Wrap(line)[i]| == 105) && |Wrap(line)[last]| <= 105
    ensures Wrap(line)[|Wrap(line)| - 1] == "" <==> line == ""
  {
    if |line| > 105 {
      WrapFacts(line[105..]);
      assert Wrap(line)[1..] == Wrap(line[105..]);
    } else {
      assert [line][1..] == [] && Concat([line]) == line + "";
    }
  }

  /** The pieces of all lines, in order, are the lines without the white space around them. */
  lemma {:induction false} WrapAllKeeps(raws: seq<string>)
    ensures Concat(WrapAll(raws)) == Concat(seq(|raws|, i requires 0 <= i < |raws| => Strip(raws[i])))
  {
    if raws != [] {
      var init, last := raws[..|raws| - 1], Strip(raws[|raws| - 1]);
      var strips := seq(|init|, i requires 0 <= i < |init| => Strip(init[i]));
      WrapAllKeeps(init);
      assert seq(|raws|, i requires 0 <= i < |raws| => Strip(raws[i])) == strips + [last];
      WrappedLast(WrapAll(init), strips, last);
    }
  }

  lemma WrappedLast(pieces: seq<string>, strips: seq<string>, last: string)
    requires Concat(pieces) == Concat(strips)
    ensures Concat(pieces + Wrap(last)) == Concat(strips + [last])
  {
    ConcatAppend(pieces, Wrap(last));
    ConcatAppend(strips, [last]);
    WrapFacts(last);
    assert [last][1..] == [] && Concat([last]) == last + "";
  }

  lemma {:induction false} ConcatAppend(a: seq<string>, b: seq<string>)
    ensures Concat(a + b) == Concat(a) + Concat(b)
  {
    if a == [] {
      assert a + b == b;
    } else {
      ConcatAppend(a[1..], b);
      assert (a + b)[1..] == a[1..] + b && (a + b)[0] == a[0];
      Reassociate(a[0], Concat(a[1..]), Concat(b));
    }
  }

  /** Pages of 42 lines. */
  function Paginate(lines: seq<string>, from: nat): seq<seq<string>>
    requires from <= |lines|
    decreases |lines| - from
  {
    if from == |lines| then []
    else if from + 42 >= |lines| then [lines[from..]]
    else [lines[from..from + 42]] + Paginate(lines, from + 42)
  }

  function PagesOf(text: string): seq<seq<string>> {
    var pages := Paginate(WrapAll(SplitLines(text)), 0);
    if pages == [] then [["Empty"]] else pages
  }

  lemma NextPage(pages: seq<seq<string>>, lines: seq<string>, i: nat, end: nat)
    requires i < |lines| && end == if i + 42 < |lines| then i + 42 else |lines|
    ensures pages + Paginate(lines, i) == pages + [lines[i..end]] + Paginate(lines, end)
  {
    assert lines[i..|lines|] == lines[i..];
    var page := lines[i..end];
    assert Paginate(lines, i) == [page] + Paginate(lines, end);
  }

  method SplitPages(lines: seq<string>) returns (pages: seq<seq<string>>)
    ensures pages == if lines == [] then [["Empty"]] else Paginate(lines, 0)
  {
    pages := [];
    var i := 0;
    while i < |lines|
      invariant 0 <= i && (i > 0 ==> pages != [])
      invariant pages + Paginate(lines, if i < |lines| then i else |lines|) == Paginate(lines, 0)
    {
      var end := if i + 42 < |lines| then i + 42 else |lines|;
      NextPage(pages, lines, i, end);
      pages := pages + [lines[i..end]];
      i := i + 42;
    }
    if pages == [] {
      pages := [["Empty"]];
    }
  }

  function Flatten(pages: seq<seq<string>>): seq<string> {
    if pages == [] then [] else pages[0] + Flatten(pages[1..])
  }

  /** Paging loses no line; a page holds between 1 and 42, and all but the last hold 42. */
  lemma {:induction false} PaginateFacts(lines: seq<string>, from: nat)
    requires from <= |lines|
    ensures Flatten(Paginate(lines, from)) == lines[from..]
    ensures forall p :: p in Paginate(lines, from) ==> 1 <= |p| <= 42
    ensures forall i :: 0 <= i < |Paginate(lines, from)| - 1 ==> |Paginate(lines, from)[i]| == 42
    decreases |lines| - from
  {
    if from + 42 < |lines| {
      PaginateFacts(lines, from + 42);
      assert Paginate(lines, from)[1..] == Paginate(lines, from + 42);
      assert lines[from..from + 42] + lines[from + 42..] == lines[from..];
    } else if from < |lines| {
      assert [lines[from..]][1..] == [] && Flatten([lines[from..]]) == lines[from..] + [];
    }
  }

  /** The lines that end up in the file contain no line break. */
  lemma {:induction false} WrappedHaveNoReturns(raws: seq<string>)
    requires forall raw :: raw in raws ==> NoBreak(raw)
    ensures NoReturns(WrapAll(raws))
  {
    if raws != [] {
      var init, raw := raws[..|raws| - 1], raws[|raws| - 1];
      assert raw in raws && forall r :: r in init ==> r in raws;
      WrappedHaveNoReturns(init);
      StripFacts(raw);
      WrapNoReturns(Strip(raw));
    }
  }

  lemma {:induction false} WrapNoReturns(line: string)
    requires forall i :: 0 <= i < |line| ==> line[i] != '\r'
    ensures NoReturns(Wrap(line))
  {
    if |line| > 105 {
      WrapNoReturns(line[105..]);
    }
  }

  lemma {:induction false} PagesHaveNoReturns(lines: seq<string>, from: nat)
    requires NoReturns(lines) && from <= |lines|
    ensures forall p :: p in Paginate(lines, from) ==> NoReturns(p)
    decreases |lines| - from
  {
    if from + 42 < |lines| {
      PagesHaveNoReturns(lines, from + 42);
    }
  }

  lemma PageLines(text: string)
    ensures forall p :: p in PagesOf(text) ==> NoReturns(p)
    ensures PagesOf(text) != []
  {
    LinesHaveNoBreak(text);
    WrappedHaveNoReturns(SplitLines(text));
    PagesHaveNoReturns(WrapAll(SplitLines(text)), 0);
  }
}
