/** The Markdown headings that are detected in a text, and a family of texts whose heading is indented, so
    that the chunks of its section do not stand at their offsets. */
module MarkdownHeadings {
  import opened Optional
  import opened Text
  import opened Normalize
  import opened Sorting
  import opened Deduplication
  import opened Windows
  import opened Headings
  import opened MarkdownSections
  import opened SectionChunks
  import opened RenderedNormal

  // ---------------------------------------------------------------- the detector

  /** The number of leading `#`. */
  function Hashes(line: string): (n: nat)
    ensures n <= |line|
  {
    if line == "" || line[0] != '#' then 0 else 1 + Hashes(line[1..])
  }

  /** `^(#{1,6})\s+(.+)$` on a stripped line: its level and its title. */
  function HeadingOf(clean: string): Option<(nat, string)> {
    var n := Hashes(clean);
    if 1 <= n <= 6 && n < |clean| && IsSpace(clean[n]) && Strip(clean[n..]) != ""
    then Some((n, Strip(clean[n..])))
    else None
  }

  /** `re.match` on the stripped line. */
  function MarkdownHeading(line: string): Option<(nat, string)> { HeadingOf(Strip(line)) }

  /** `n` hash signs. */
  function HashSigns(n: nat): (s: string)
    ensures |s| == n
  {
    if n == 0 then "" else "#" + HashSigns(n - 1)
  }

  lemma {:induction false} HashesOf(n: nat, rest: string)
    requires rest != "" ==> rest[0] != '#'
    ensures Hashes(HashSigns(n) + rest) == n && (HashSigns(n) + rest)[n..] == rest
  {
    if n > 0 {
      HashesOf(n - 1, rest);
      assert (HashSigns(n) + rest)[1..] == HashSigns(n - 1) + rest;
    } else {
      assert HashSigns(0) + rest == rest;
    }
  }

  /** A heading is one to six hash signs, white space and a title, with any white space around it. */
  lemma HeadingIsRead(a: string, n: nat, blank: string, title: string, b: string)
    requires AllSpace(a) && n > 0 && AllSpace(blank) && blank != "" && AllSpace(b) && title != "" && IsTrimmed(title)
    ensures MarkdownHeading(a + (HashSigns(n) + (blank + title)) + b) == if n <= 6 then Some((n, title)) else None
  {
    var clean := HashSigns(n) + (blank + title);
    assert clean[0] == '#' && clean[|clean| - 1] == title[|title| - 1];
    StripSurrounded(a, clean, b);
    HashesOf(n, blank + title);
    StripSurrounded(blank, title, "");
    assert blank + title + "" == blank + title && clean[n] == blank[0];
  }

  /** And nothing else is read as one. */
  lemma HeadingHasShape(line: string) returns (a: string, blank: string, b: string)
    requires MarkdownHeading(line).Some?
    ensures var (n, title) := MarkdownHeading(line).value;
      && 1 <= n <= 6 && AllSpace(a) && AllSpace(blank) && blank != "" && AllSpace(b) && title != "" && IsTrimmed(title)
      && line == a + (HashSigns(n) + (blank + title)) + b
  {
    StripFacts(line);
    a, b := Around(line);
    blank := TitleBehind(Strip(line));
  }

  lemma TitleBehind(clean: string) returns (blank: string)
    requires HeadingOf(clean).Some? && IsTrimmed(clean)
    ensures var (n, title) := HeadingOf(clean).value;
      && 1 <= n <= 6 && AllSpace(blank) && blank != "" && title != "" && IsTrimmed(title)
      && clean == HashSigns(n) + (blank + title)
  {
    var n := Hashes(clean);
    var rest := clean[n..];
    HashesAre(clean);
    assert clean == clean[..n] + rest;
    assert rest[|rest| - 1] == clean[|clean| - 1] && rest[0] == clean[n];
    blank := Leading(rest);
  }

  lemma Leading(rest: string) returns (blank: string)
    requires rest != "" && IsSpace(rest[0]) && !IsSpace(rest[|rest| - 1])
    ensures AllSpace(blank) && blank != "" && rest == blank + Strip(rest) && Strip(rest) != "" && IsTrimmed(Strip(rest))
  {
    StripFacts(rest);
    LeadSpaceIs(rest, LeadSpace(rest));
    TrimEndIs(rest, |rest|);
    blank := rest[..LeadSpace(rest)];
  }

  lemma Around(s: string) returns (a: string, b: string)
    requires Strip(s) != ""
    ensures AllSpace(a) && AllSpace(b) && s == a + Strip(s) + b && IsTrimmed(Strip(s)) && |a| == LeadSpace(s)
  {
    StripFacts(s);
    LeadSpaceIs(s, LeadSpace(s));
    TrimEndIs(s, TrimEnd(s));
    a, b := s[..LeadSpace(s)], s[TrimEnd(s)..];
  }

  lemma {:induction false} HashesAre(s: string)
    ensures s[..Hashes(s)] == HashSigns(Hashes(s))
  {
    if s != "" && s[0] == '#' {
      HashesAre(s[1..]);
      assert s[..Hashes(s)] == "#" + s[1..][..Hashes(s[1..])];
    }
  }

  /** Where the next line begins. */
  function NextLine(rest: string): (n: nat)
    requires rest != ""
    ensures 0 < n <= |rest|
  {
    var e := LineEnd(rest);
    if e == |rest| then e else e + BreakLength(rest, e)
  }

  function FirstOf(rest: string): string { rest[..LineEnd(rest)] }

  function Behind(rest: string): (r: string)
    requires rest != ""
    ensures |r| < |rest|
  {
    rest[NextLine(rest)..]
  }

  /** What the lines yield from `offset` on, where `rest` begins. */
  function ScanLines<T>(row: (string, nat) -> seq<T>, rest: string, offset: nat): seq<T>
    decreases |rest|
  {
    if rest == "" then []
    else row(FirstOf(rest), offset) + ScanLines(row, Behind(rest), offset + |rest| - |Behind(rest)|)
  }

  /** A mark is where its line begins. */
  function MarkAt(line: string, offset: nat): seq<Mark> {
    match MarkdownHeading(line)
    case None => []
    case Some((level, title)) => [Mark(offset, level, title)]
  }

  function MarkdownMarks(text: string): seq<Mark> { ScanLines(MarkAt, text, 0) }

  /** Marks of levels from one to six inside a range. */
  ghost predicate Within(ms: seq<Mark>, lo: nat, hi: nat) {
    forall m :: m in ms ==> 1 <= m.level <= 6 && lo <= m.start < hi
  }

  lemma WithinBoth(a: seq<Mark>, b: seq<Mark>, lo: nat, next: nat, hi: nat)
    requires Within(a, lo, hi) && Within(b, next, hi) && lo <= next
    ensures Within(a + b, lo, hi)
  {}

  ghost predicate StayWithin(row: (string, nat) -> seq<Mark>, hi: nat) {
    forall line, offset: nat :: offset < hi ==> Within(row(line, offset), offset, hi)
  }

  lemma {:induction false} ScanWithin(row: (string, nat) -> seq<Mark>, rest: string, offset: nat, hi: nat)
    requires StayWithin(row, hi) && hi == offset + |rest|
    ensures Within(ScanLines(row, rest, offset), offset, hi)
    decreases |rest|
  {
    if rest != "" {
      var first, tail := FirstOf(rest), Behind(rest);
      var next := offset + |rest| - |tail|;
      ScanWithin(row, tail, next, hi);
      WithinBoth(row(first, offset), ScanLines(row, tail, next), offset, next, hi);
    }
  }

  /** The detected marks are levels from one to six at positions of the text, as the splitter demands. */
  lemma MarkdownMarksAre(text: string)
    ensures forall m :: m in MarkdownMarks(text) ==> 1 <= m.level <= 6 && m.start < |text|
  {
    ScanWithin(MarkAt, text, 0, |text|);
  }

  lemma {:induction false} LineEndAt(line: string, rest: string)
    requires NoBreak(line) && (rest != "" ==> IsBreak(rest[0]))
    ensures LineEnd(line + rest) == |line|
  {
    if line == "" {
      assert line + rest == rest;
    } else {
      assert (line + rest)[1..] == line[1..] + rest;
      assert NoBreak(line[1..]);
      LineEndAt(line[1..], rest);
    }
  }

  /** The first line of a text, and what is behind its line feed. */
  predicate IsFirstLine(text: string, line: string, more: string) {
    text != "" && FirstOf(text) == line && Behind(text) == more && |text| == |line| + 1 + |more|
  }

  lemma CutFirstLine(text: string, line: string, more: string)
    requires NoBreak(line) && text == line + ("\n" + more)
    ensures IsFirstLine(text, line, more) && LineEnd(text) == |line| && text[|line|] == '\n'
  {
    LineEndAt(line, "\n" + more);
    assert text[|line|] == '\n';
  }

  /** The last line of a text, without a line break behind it. */
  lemma CutLastLine(line: string)
    requires NoBreak(line) && line != ""
    ensures LineEnd(line) == |line| && FirstOf(line) == line && Behind(line) == ""
  {
    LineEndAt(line, "");
    assert line + "" == line;
  }

  lemma SplitScan<T>(row: (string, nat) -> seq<T>, text: string, offset: nat)
    requires text != ""
    ensures ScanLines(row, text, offset) ==
      row(FirstOf(text), offset) + ScanLines(row, Behind(text), offset + |text| - |Behind(text)|)
  {}

  lemma LastLine<T>(row: (string, nat) -> seq<T>, line: string, offset: nat)
    requires NoBreak(line) && line != ""
    ensures ScanLines(row, line, offset) == row(line, offset)
  {
    CutLastLine(line);
    SplitScan(row, line, offset);
    BetweenNothing([], row(line, offset), ScanLines(row, "", offset + |line|));
  }

  lemma BetweenNothing<T>(a: seq<T>, b: seq<T>, c: seq<T>)
    requires a == [] && c == []
    ensures b + c == b && a + (b + c) == b
  {}

  /** What three lines yield of which the first and the last yield nothing. */
  lemma MiddleLine<T>(row: (string, nat) -> seq<T>, text: string, tail: string, more: string, intro: string,
                      line: string, second: nat, third: nat)
    requires IsFirstLine(text, intro, tail) && IsFirstLine(tail, line, more) && NoBreak(more) && more != ""
    requires second == |intro| + 1 && third == second + |line| + 1 && row(intro, 0) == [] && row(more, third) == []
    ensures ScanLines(row, text, 0) == row(line, second)
  {
    SplitScan(row, text, 0);
    SplitScan(row, tail, second);
    LastLine(row, more, third);
    BetweenNothing(row(intro, 0), row(line, second), row(more, third));
  }

  lemma TwoHashes(clean: string, title: string)
    requires clean == "## " + title && title != "" && IsTrimmed(title)
    ensures HeadingOf(clean) == Some((2, title))
  {
    assert clean[1..] == "# " + title && clean[1..][1..] == " " + title && clean[2..] == " " + title;
    assert Hashes(" " + title) == 0;
    assert Hashes("# " + title) == 1;
    StripIndent(" ", title);
  }

  lemma HeadingLine(indent: string, core: string, title: string)
    requires AllSpace(indent) && NoBreak(indent) && NoBreak(title) && title != "" && IsTrimmed(title)
      && core == "## " + title
    ensures NoBreak(indent + core) && HeadingOf(Strip(indent + core)) == Some((2, title))
  {
    assert core[0] == '#' && core[|core| - 1] == title[|title| - 1];
    NoBreakConcat(indent, "## ");
    NoBreakConcat(indent + "## ", title);
    Reassociate(indent, "## ", title);
    StripIndent(indent, core);
    TwoHashes(core, title);
  }

  lemma NoBreakConcat(a: string, b: string)
    requires NoBreak(a) && NoBreak(b)
    ensures NoBreak(a + b)
  {}

  lemma StripIndent(indent: string, core: string)
    requires AllSpace(indent) && core != "" && IsTrimmed(core)
    ensures Strip(indent + core) == core
  {
    var s := indent + core;
    assert forall i :: 0 <= i < |indent| ==> s[i] == indent[i];
    assert s[|indent|] == core[0] && s[|s| - 1] == core[|core| - 1];
    LeadSpaceIs(s, |indent|);
    TrimEndIs(s, |s|);
    assert s[|indent|..|s|] == core;
  }

  // ---------------------------------------------------------------- normal texts of three lines

  /** A line that can stand in a normalised text. */
  predicate IsLine(s: string) {
    s != "" && IsNormal(s) && NoBreak(s)
  }

  lemma LastTrail(s: string, p: char -> bool)
    requires s != "" && !p(s[|s| - 1])
    ensures Trail(s, p) == 0
  {
    var init, last := s[..|s| - 1], [s[|s| - 1]];
    assert s == init + last && last[1..] == "";
    assert RunLength(last, p) == 0 && Trail("", p) == 0;
    TrailOfConcat(init, last, p);
  }

  /** A trimmed text neither starts nor ends with a blank or a line feed. */
  lemma LineEnds(s: string)
    requires s != "" && IsTrimmed(s)
    ensures RunLength(s, IsBlank) == RunLength(s, IsNewline) == Trail(s, IsBlank) == Trail(s, IsNewline) == 0
  {
    assert IsSpace(' ') && IsSpace('\n');
    LastTrail(s, IsBlank);
    LastTrail(s, IsNewline);
  }

  /** A line feed and a trimmed, clean text. */
  lemma LineBehind(s: string)
    requires s != "" && Clean(s) && RunLength(s, IsNewline) == 0 && RunLength(s, IsBlank) <= 1
    ensures Clean("\n" + s) && RunLength("\n" + s, IsNewline) == 1 && RunLength("\n" + s, IsBlank) == 0
  {
    LoneCharacter('\n');
    CleanConcat("\n", s);
    RunOfConcat("\n", s, IsNewline);
    RunOfConcat("\n", s, IsBlank);
  }

  lemma LoneRun(c: char, p: char -> bool)
    ensures RunLength([c], p) == Trail([c], p) == if p(c) then 1 else 0
    ensures forall min :: min > 1 ==> NoLongRun([c], p, min)
  {
    var s := [c];
    assert s[1..] == "" && s[0] == c;
    assert RunLength("", p) == Trail("", p) == 0;
  }

  lemma LoneCharacter(c: char)
    ensures Clean([c]) <==> !IsTab(c) && !IsReturn(c)
    ensures RunLength([c], IsBlank) == Trail([c], IsBlank) == if IsBlank(c) then 1 else 0
    ensures RunLength([c], IsNewline) == Trail([c], IsNewline) == if IsNewline(c) then 1 else 0
  {
    var s := [c];
    assert s[1..] == "" && s[0] == c;
    LoneRun(c, IsBlank);
    LoneRun(c, IsNewline);
    assert NoLongRun(s, IsBlank, 2) && NoLongRun(s, IsNewline, 3);
  }

  /** A line in front of what follows a line feed. */
  lemma LineBefore(line: string, rest: string)
    requires line != "" && IsTrimmed(line) && Clean(line) && Clean(rest)
    requires RunLength(rest, IsNewline) <= 1 && RunLength(rest, IsBlank) == 0
    ensures Clean(line + rest) && RunLength(line + rest, IsNewline) == RunLength(line + rest, IsBlank) == 0
  {
    LineEnds(line);
    CleanConcat(line, rest);
    RunOfConcat(line, rest, IsNewline);
    RunOfConcat(line, rest, IsBlank);
  }

  /** A blank in front of a trimmed, clean text. */
  lemma Indented(s: string)
    requires s != "" && Clean(s) && RunLength(s, IsNewline) == RunLength(s, IsBlank) == 0
    ensures Clean(" " + s) && RunLength(" " + s, IsNewline) == 0 && RunLength(" " + s, IsBlank) == 1
  {
    LoneCharacter(' ');
    CleanConcat(" ", s);
    RunOfConcat(" ", s, IsNewline);
    RunOfConcat(" ", s, IsBlank);
  }

  lemma ThreeLinesNormal(intro: string, core: string, more: string)
    requires IsLine(intro) && IsLine(more) && core != "" && IsNormal(core)
    ensures IsNormal(intro + ("\n" + (" " + (core + ("\n" + more)))))
  {
    LineEnds(more);
    LineBehind(more);
    LineBefore(core, "\n" + more);
    Indented(core + ("\n" + more));
    LineBehind(" " + (core + ("\n" + more)));
    LineBefore(intro, "\n" + (" " + (core + ("\n" + more))));
    EndsOf(intro, "\n" + (" " + (core + ("\n" + more))), more);
  }

  lemma EndsOf(intro: string, rest: string, more: string)
    requires intro != "" && IsTrimmed(intro) && more != "" && IsTrimmed(more) && |rest| >= |more|
      && rest[|rest| - 1] == more[|more| - 1]
    ensures IsTrimmed(intro + rest)
  {}

  lemma HeadingIsNormal(title: string)
    requires IsLine(title)
    ensures IsNormal("## " + title) && NoBreak("## " + title)
  {
    LineEnds(title);
    Indented(title);
    LoneCharacter('#');
    CleanConcat("#", " " + title);
    RunOfConcat("#", " " + title, IsNewline);
    RunOfConcat("#", " " + title, IsBlank);
    CleanConcat("#", "#" + (" " + title));
    assert "## " + title == "#" + ("#" + (" " + title));
    NoBreakConcat("## ", title);
  }

  // ---------------------------------------------------------------- an indented heading

  /** An intro, a heading that one blank indents, and a line of text. */
  function IndentedText(intro: string, title: string, more: string): string {
    intro + ("\n" + (" " + (("## " + title) + ("\n" + more))))
  }

  lemma OneFirst<T, K>(row: T, key: T -> K)
    ensures Firsts([row], key, {}) == [row]
  {
    var rows := [row];
    assert rows[1..] == [] && Firsts(rows[1..], key, {} + {key(row)}) == [];
  }

  lemma OneMark(m: Mark)
    ensures MarksOf([m]) == [m]
  {
    var found := [m];
    assert found[1..] == [] && Insert(m, [], ByPlace) == found;
    assert Sort(found, ByPlace) == found;
    OneFirst(m, StartOf);
  }

  lemma IndentedMarks(intro: string, title: string, more: string)
    requires IsLine(intro) && IsLine(title) && IsLine(more) && MarkdownHeading(intro).None?
      && MarkdownHeading(more).None?
    ensures MarkdownMarks(IndentedText(intro, title, more)) == [Mark(|intro| + 1, 2, title)]
  {
    var line := " " + ("## " + title);
    HeadingLine(" ", "## " + title, title);
    IndentedCuts(intro, "## " + title, more, IndentedText(intro, title, more), line + ("\n" + more));
    MiddleLine(MarkAt, IndentedText(intro, title, more), line + ("\n" + more), more, intro, line,
               |intro| + 1, |intro| + 1 + |line| + 1);
  }

  lemma IndentedCuts(intro: string, core: string, more: string, text: string, tail: string)
    requires NoBreak(intro) && NoBreak(" " + core)
    requires text == intro + ("\n" + (" " + (core + ("\n" + more)))) && tail == (" " + core) + ("\n" + more)
    ensures IsFirstLine(text, intro, tail) && IsFirstLine(tail, " " + core, more)
  {
    Reassociate(" ", core, "\n" + more);
    CutFirstLine(text, intro, tail);
    CutFirstLine(tail, " " + core, more);
  }

  /** The section of such a heading has a body. */
  lemma IndentedBody(core: string, more: string)
    requires core != "" && IsTrimmed(core) && NoBreak(core) && IsLine(more)
    ensures Strip(" " + (core + ("\n" + more))) == core + ("\n" + more) && HasBody(core + ("\n" + more))
  {
    var content := core + ("\n" + more);
    assert IsTrimmed(content);
    StripIndent(" ", content);
    TwoLines(core, more, content);
    StripFacts(more);
    HasBodyExactlyWhen(content);
    assert more in SplitLines(content)[1..] && !IsSpace(more[0]);
  }

  lemma TwoLines(first: string, second: string, text: string)
    requires NoBreak(first) && NoBreak(second) && second != "" && text == first + ("\n" + second)
    ensures SplitLines(text) == [first, second]
  {
    CutFirstLine(text, first, second);
    CutLastLine(second);
    assert BreakLength(text, |first|) == 1;
    assert SplitLines(second) == [second];
  }

  /** A normalised text with an indented heading: its section is kept, and whatever pieces it is cut into, not
      all of its chunks stand at their offsets. */
  lemma IndentedHeadingShifts(intro: string, title: string, more: string, defaultTitle: string, rows: seq<Row>,
                              cuts: seq<seq<Piece>>, prefix: seq<string> -> string)
    requires IsLine(intro) && IsLine(title) && IsLine(more) && MarkdownHeading(intro).None?
      && MarkdownHeading(more).None?
    requires rows ==
      RowsBefore(IndentedText(intro, title, more), [Mark(|intro| + 1, 2, title)], defaultTitle, HasBody, 1)
    requires |cuts| == |rows| && forall i :: 0 <= i < |rows| ==> CutOf(rows[i].content, cuts[i])
    ensures NormalizeText(IndentedText(intro, title, more)) == IndentedText(intro, title, more)
    ensures MarksOf(MarkdownMarks(IndentedText(intro, title, more))) == [Mark(|intro| + 1, 2, title)]
    ensures !AllExact(IndentedText(intro, title, more), rows, cuts, prefix)
  {
    var text, core := IndentedText(intro, title, more), "## " + title;
    HeadingIsNormal(title);
    ThreeLinesNormal(intro, core, more);
    NormalizeFixedPoints(text);
    IndentedMarks(intro, title, more);
    OneMark(Mark(|intro| + 1, 2, title));
    IndentedSection(intro, core, more, text, [Mark(|intro| + 1, 2, title)]);
    DocumentExactExactlyWhen(text, MarkdownMarks(text), defaultTitle, rows, cuts, prefix);
  }

  lemma IndentedSection(intro: string, core: string, more: string, text: string, ms: seq<Mark>)
    requires text == intro + ("\n" + (" " + (core + ("\n" + more)))) && |ms| == 1 && ms[0].start == |intro| + 1
      && ms[0].level >= 1
    requires core != "" && IsTrimmed(core) && NoBreak(core) && IsLine(more)
    ensures Marks(ms, |text|) && HasBody(Content(text, ms, 0)) && IsSpace(text[ms[0].start])
  {
    IndentedBody(core, more);
    BehindBreak(intro, " " + (core + ("\n" + more)), text);
    OnlyContent(text, ms);
  }

  lemma BehindBreak(intro: string, section: string, text: string)
    requires text == intro + ("\n" + section) && section != ""
    ensures |text| > |intro| + 1 && text[|intro| + 1] == section[0] && text[|intro| + 1..] == section
  {}

  lemma OnlyContent(text: string, ms: seq<Mark>)
    requires |ms| == 1 && ms[0].start < |text| && ms[0].level >= 1
    ensures Marks(ms, |text|) && Content(text, ms, 0) == Strip(text[ms[0].start..])
  {
    assert text[ms[0].start..|text|] == text[ms[0].start..];
  }

  /** What stands before the heading is dropped when it has fewer than 80 characters. */
  lemma ShortIntroIsDropped(intro: string, title: string, more: string, defaultTitle: string, i: nat)
    requires IsLine(intro) && IsLine(title) && IsLine(more) && |intro| < 80 && i <= |intro|
    requires MarkdownHeading(intro).None? && MarkdownHeading(more).None?
    ensures var text, ms := IndentedText(intro, title, more), [Mark(|intro| + 1, 2, title)];
      MarksOf(MarkdownMarks(text)) == ms && !Held(RowsBefore(text, ms, defaultTitle, HasBody, 1), i)
  {
    var text, m := IndentedText(intro, title, more), Mark(|intro| + 1, 2, title);
    IndentedMarks(intro, title, more);
    OneMark(m);
    HeldExactlyWhen(text, MarkdownMarks(text), defaultTitle, i);
    ShortPreface(intro, " " + (("## " + title) + ("\n" + more)), text);
  }

  lemma ShortPreface(intro: string, section: string, text: string)
    requires intro != "" && IsTrimmed(intro) && |intro| < 80 && text == intro + ("\n" + section)
    ensures !HasPreface(text, |intro| + 1)
  {
    var s := intro + "\n";
    assert text[..|intro| + 1] == s;
    TrimEndIs(s, |intro|);
    StripFacts(s);
  }
}
