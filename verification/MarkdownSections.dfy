/** Splitting a text at its headings: the marks that the detectors found are reduced to one per position,
    and every heading that has a body becomes a row with the titles of the sections around it. Which marks
    the detectors find is a parameter. */
module MarkdownSections {
  import opened Text
  import opened Sorting
  import opened Deduplication
  import opened Headings

  // ---------------------------------------------------------------- one mark per position

  predicate ByPlace(a: Mark, b: Mark) {
    a.start < b.start || (a.start == b.start && a.level <= b.level)
  }

  predicate ByStart(a: Mark, b: Mark) { a.start <= b.start }

  function StartOf(m: Mark): nat { m.start }

  /** In order of position, the mark of the highest rank at each. */
  function MarksOf(found: seq<Mark>): seq<Mark> {
    Firsts(Sort(found, ByPlace), StartOf, {})
  }

  lemma {:induction false} FirstsKeepOrder(rows: seq<Mark>, seen: set<nat>)
    requires SortedBy(ByPlace, rows)
    ensures SortedBy(ByPlace, Firsts(rows, StartOf, seen))
  {
    if rows != [] {
      var more := if rows[0].start in seen then seen else seen + {rows[0].start};
      forall i, j | 0 <= i < j < |rows[1..]| ensures ByPlace(rows[1..][i], rows[1..][j]) {
        assert ByPlace(rows[i + 1], rows[j + 1]);
      }
      FirstsKeepOrder(rows[1..], more);
      FirstsAreDistinct(rows[1..], StartOf, more);
      forall m | m in Firsts(rows[1..], StartOf, more) ensures ByPlace(rows[0], m) {
        var k :| 0 <= k < |rows[1..]| && rows[1..][k] == m;
        assert ByPlace(rows[0], rows[k + 1]);
      }
    }
  }

  lemma SortedByPlace(found: seq<Mark>)
    ensures SortedBy(ByPlace, Sort(found, ByPlace)) && SortedBy(ByPlace, MarksOf(found))
    ensures forall m :: m in MarksOf(found) ==> m in found
  {
    assert TotalOrder(ByPlace);
    SortSorts(found, ByPlace);
    SortKeepsMembers(found, ByPlace);
    FirstsKeepOrder(Sort(found, ByPlace), {});
    FirstsAreDistinct(Sort(found, ByPlace), StartOf, {});
  }

  /** Positions are distinct and in text order. */
  lemma MarksAreMarks(found: seq<Mark>, n: nat)
    requires forall m :: m in found ==> m.level >= 1 && m.start < n
    ensures Marks(MarksOf(found), n)
  {
    var ms := MarksOf(found);
    SortedByPlace(found);
    FirstsAreDistinct(Sort(found, ByPlace), StartOf, {});
    forall i | 0 <= i < |ms| ensures ms[i].level >= 1 && ms[i].start < n {
      assert ms[i] in found;
    }
    forall i, j | 0 <= i < j < |ms| ensures ms[i].start < ms[j].start {
      assert ByPlace(ms[i], ms[j]) && StartOf(ms[i]) != StartOf(ms[j]);
    }
  }

  /** Every position that was found has a mark, and no mark found there has a higher rank. */
  lemma HighestRankIsKept(found: seq<Mark>, m: Mark) returns (best: Mark)
    requires m in found
    ensures best in MarksOf(found) && best.start == m.start && best.level <= m.level
  {
    var sorted := Sort(found, ByPlace);
    SortedByPlace(found);
    SortKeepsMembers(found, ByPlace);
    var k :| 0 <= k < |sorted| && sorted[k] == m;
    var i := FirstWithStart(sorted, m.start, k);
    FirstsAreFirst(sorted, StartOf, {}, i);
    best := sorted[i];
    assert i < k ==> ByPlace(sorted[i], sorted[k]);
  }

  lemma {:induction false} FirstWithStart(rows: seq<Mark>, start: nat, k: nat) returns (i: nat)
    requires k < |rows| && rows[k].start == start
    ensures i <= k && rows[i].start == start && IsFirst(rows, StartOf, i)
    decreases k
  {
    if j :| 0 <= j < k && rows[j].start == start {
      i := FirstWithStart(rows, start, j);
    } else {
      i := k;
    }
  }

  /** The marks of a position that have been met, by position. */
  ghost predicate Kept(byStart: map<nat, Mark>, sorted: seq<Mark>, n: nat)
    requires n <= |sorted|
  {
    forall p :: p in byStart ==> byStart[p].start == p && byStart[p] in sorted[..n]
  }

  lemma NoBetterLater(byStart: map<nat, Mark>, sorted: seq<Mark>, n: nat)
    requires n < |sorted| && Kept(byStart, sorted, n) && SortedBy(ByPlace, sorted)
    ensures sorted[n].start in byStart ==> byStart[sorted[n].start].level <= sorted[n].level
  {
    if sorted[n].start in byStart {
      var i :| 0 <= i < n && sorted[i] == byStart[sorted[n].start];
      assert ByPlace(sorted[i], sorted[n]);
    }
  }

  lemma KeptNext(byStart: map<nat, Mark>, sorted: seq<Mark>, n: nat)
    requires n < |sorted| && Kept(byStart, sorted, n)
    ensures Kept(byStart, sorted, n + 1) && Kept(byStart[sorted[n].start := sorted[n]], sorted, n + 1)
    ensures byStart[sorted[n].start := sorted[n]].Keys == byStart.Keys + {StartOf(sorted[n])}
  {
    assert sorted[..n + 1] == sorted[..n] + [sorted[n]];
  }

  /** How far the loop over the sorted marks has come. */
  ghost predicate Deduped(sorted: seq<Mark>, byStart: map<nat, Mark>, ms: seq<Mark>, n: nat)
    requires n <= |sorted|
  {
    Kept(byStart, sorted, n) && Firsts(sorted, StartOf, {}) == ms + Firsts(sorted[n..], StartOf, byStart.Keys)
  }

  lemma DedupedNext(sorted: seq<Mark>, byStart: map<nat, Mark>, ms: seq<Mark>, n: nat)
    requires SortedBy(ByPlace, sorted) && n < |sorted| && Deduped(sorted, byStart, ms, n)
    ensures var m := sorted[n];
      if m.start in byStart then byStart[m.start].level <= m.level && Deduped(sorted, byStart, ms, n + 1)
      else Deduped(sorted, byStart[m.start := m], ms + [m], n + 1)
  {
    NextFirst(ms, sorted, StartOf, n, byStart.Keys);
    NoBetterLater(byStart, sorted, n);
    KeptNext(byStart, sorted, n);
  }

  /** The marks by position. */
  method DedupeMarks(found: seq<Mark>) returns (ms: seq<Mark>)
    ensures ms == MarksOf(found)
  {
    SortedByPlace(found);
    ms := FirstOfEach(Sort(found, ByPlace));
    InOrder(found);
    ms := Sort(ms, ByStart);
  }

  /** The loop over the sorted marks. A mark never replaces an earlier one at its position. */
  method FirstOfEach(sorted: seq<Mark>) returns (ms: seq<Mark>)
    requires SortedBy(ByPlace, sorted)
    ensures ms == Firsts(sorted, StartOf, {})
  {
    var byStart: map<nat, Mark> := map[];
    ms := [];
    assert sorted[0..] == sorted && byStart.Keys == {};
    for i := 0 to |sorted|
      invariant Deduped(sorted, byStart, ms, i)
    {
      var m := sorted[i];
      DedupedNext(sorted, byStart, ms, i);
      if m.start in byStart {
        if m.level < byStart[m.start].level {
          assert false;
        }
        assert Deduped(sorted, byStart, ms, i + 1);
        continue;
      }
      byStart, ms := byStart[m.start := m], ms + [m];
    }
    assert sorted[|sorted|..] == [] && ms + [] == ms;
  }

  lemma InOrder(found: seq<Mark>)
    ensures Sort(MarksOf(found), ByStart) == MarksOf(found)
  {
    var ms := MarksOf(found);
    SortedByPlace(found);
    assert forall i, j :: 0 <= i < j < |ms| ==> ByPlace(ms[i], ms[j]);
    SortOfSorted(ms, ByStart);
  }

  // ---------------------------------------------------------------- the body of a section

  predicate IsColon(c: char) { c == ':' || c == '\U{FF1A}' }

  function FirstColon(line: string): (n: nat)
    ensures n <= |line|
  {
    if line == "" || IsColon(line[0]) then 0 else 1 + FirstColon(line[1..])
  }

  /** What follows the label on the heading line: a label has 1 to 30 characters and ends with a colon. */
  function InlineBody(line: string): string {
    var c := FirstColon(line);
    if 1 <= c <= 30 && c < |line| then Strip(line[c + 1..]) else ""
  }

  /** What a section holds besides its heading. */
  function Body(content: string): string {
    var lines := SplitLines(content);
    if lines == [] then "" else Strip(InlineBody(lines[0]) + "\n" + Join("\n", lines[1..]))
  }

  function HasBody(content: string): bool { content != "" && Body(content) != "" }

  lemma AllSpaceConcat(a: string, b: string)
    ensures AllSpace(a + b) <==> AllSpace(a) && AllSpace(b)
  {
    assert forall i :: 0 <= i < |a| ==> (a + b)[i] == a[i];
    assert forall i :: 0 <= i < |b| ==> (a + b)[|a| + i] == b[i];
  }

  lemma {:induction false} AllSpaceJoin(parts: seq<string>)
    ensures AllSpace(Join("\n", parts)) <==> forall p :: p in parts ==> AllSpace(p)
  {
    if |parts| > 1 {
      AllSpaceJoin(parts[1..]);
      AllSpaceConcat(parts[0], "\n");
      AllSpaceConcat(parts[0] + "\n", Join("\n", parts[1..]));
      assert parts == [parts[0]] + parts[1..];
    }
  }

  /** A section has a body exactly when something follows the label on its first line or a further line
      is not blank. */
  lemma HasBodyExactlyWhen(content: string)
    ensures HasBody(content) <==>
      var lines := SplitLines(content);
      lines != [] && (InlineBody(lines[0]) != "" || exists line :: line in lines[1..] && !AllSpace(line))
  {
    var lines := SplitLines(content);
    if lines != [] {
      var inline, rest := InlineBody(lines[0]), Join("\n", lines[1..]);
      AllSpaceJoin(lines[1..]);
      AllSpaceConcat(inline, "\n");
      AllSpaceConcat(inline + "\n", rest);
      StripFacts(inline + "\n" + rest);
      InlineBodyIsTrimmed(lines[0]);
    }
  }

  lemma InlineBodyIsTrimmed(line: string)
    ensures AllSpace(InlineBody(line)) <==> InlineBody(line) == ""
  {
    var c := FirstColon(line);
    if 1 <= c <= 30 && c < |line| {
      BlankIfEmpty(line[c + 1..]);
    }
  }

  lemma BlankIfEmpty(s: string)
    ensures AllSpace(Strip(s)) <==> Strip(s) == ""
  {
    StripFacts(s);
    if Strip(s) != "" {
      assert !IsSpace(Strip(s)[0]);
    }
  }

  // ---------------------------------------------------------------- sections with paths

  function Titles(ms: seq<Mark>, path: seq<nat>): seq<string> {
    if path == [] then []
    else [if path[0] < |ms| then ms[path[0]].title else ""] + Titles(ms, path[1..])
  }

  datatype Row = Row(path: seq<string>, content: string, start: nat, end: nat)

  function NextStart(ms: seq<Mark>, n: nat, j: nat): nat {
    if j + 1 < |ms| then ms[j + 1].start else n
  }

  /** The stripped text from heading `j` up to the next heading of any level. */
  function Content(text: string, ms: seq<Mark>, j: nat): string
    requires Marks(ms, |text|) && j < |ms|
  {
    Strip(text[ms[j].start..NextStart(ms, |text|, j)])
  }

  /** The row of heading `j`: the default title and the titles of all sections that enclose it, and its
      own text. */
  function RowOf(text: string, ms: seq<Mark>, defaultTitle: string, j: nat): Row
    requires Marks(ms, |text|) && j < |ms|
  {
    Row([defaultTitle] + Titles(ms, Enclosing(ms, |text|, j, |ms|)), Content(text, ms, j), ms[j].start,
      NextStart(ms, |text|, j))
  }

  /** A text before the first heading is kept if 80 characters of it remain. */
  predicate HasPreface(text: string, first: nat)
    requires first <= |text|
  {
    first > 0 && |Strip(text[..first])| >= 80
  }

  /** The rows up to heading `m`, of the sections that are kept. */
  function RowsBefore(text: string, ms: seq<Mark>, defaultTitle: string, keep: string -> bool, m: nat): seq<Row>
    requires Marks(ms, |text|) && ms != [] && m <= |ms|
  {
    if m == 0 then
      var first := ms[0].start;
      if HasPreface(text, first) then [Row([defaultTitle], Strip(text[..first]), 0, first)] else []
    else
      RowsBefore(text, ms, defaultTitle, keep, m - 1) +
      (if keep(Content(text, ms, m - 1)) then [RowOf(text, ms, defaultTitle, m - 1)] else [])
  }

  /** `split_markdown_sections` on normalised text. */
  method SplitSections(text: string, found: seq<Mark>, defaultTitle: string) returns (rows: seq<Row>)
    requires forall m :: m in found ==> 1 <= m.level <= 6 && m.start < |text|
    ensures Marks(MarksOf(found), |text|)
    ensures rows == if found == [] then [Row([defaultTitle], text, 0, |text|)]
      else RowsBefore(text, MarksOf(found), defaultTitle, HasBody, |MarksOf(found)|)
  {
    var ms := DedupeMarks(found);
    MarksAreMarks(found, |text|);
    SomeMark(found);
    if ms == [] {
      return [Row([defaultTitle], text, 0, |text|)];
    }
    LevelsOf(found);
    rows := SectionRows(text, ms, defaultTitle, HasBody);
  }

  lemma LevelsOf(found: seq<Mark>)
    requires forall m :: m in found ==> m.level <= 6
    ensures forall i :: 0 <= i < |MarksOf(found)| ==> MarksOf(found)[i].level <= 6
  {
    SortedByPlace(found);
    forall i | 0 <= i < |MarksOf(found)| ensures MarksOf(found)[i].level <= 6 {
      assert MarksOf(found)[i] in found;
    }
  }

  /** The preface and the loop over the headings, with the stack of titles. */
  method SectionRows(text: string, ms: seq<Mark>, defaultTitle: string, keep: string -> bool) returns (rows: seq<Row>)
    requires Marks(ms, |text|) && ms != [] && forall i :: 0 <= i < |ms| ==> ms[i].level <= 6
    ensures rows == RowsBefore(text, ms, defaultTitle, keep, |ms|)
  {
    rows := [];
    var first := ms[0].start;
    if first > 0 && Strip(text[..first]) != "" && |Strip(text[..first])| >= 80 {
      rows := [Row([defaultTitle], Strip(text[..first]), 0, first)];
    }
    var stack: map<nat, nat> := map[];
    for j := 0 to |ms|
      invariant stack == Stack(ms, j)
      invariant rows == RowsBefore(text, ms, defaultTitle, keep, j)
    {
      NextRow(text, ms, defaultTitle, keep, j);
      stack := Push(stack, ms[j].level, j);
      var row := RowAt(text, ms, defaultTitle, stack, j);
      if keep(row.content) {
        rows := rows + [row];
      }
    }
  }

  /** The row of heading `j` as the loop makes it, from the stack of titles. */
  function RowAt(text: string, ms: seq<Mark>, defaultTitle: string, stack: map<nat, nat>, j: nat): Row
    requires Marks(ms, |text|) && j < |ms|
  {
    Row([defaultTitle] + Titles(ms, Path(stack, 7)), Content(text, ms, j), ms[j].start, NextStart(ms, |text|, j))
  }

  lemma NextRow(text: string, ms: seq<Mark>, defaultTitle: string, keep: string -> bool, j: nat)
    requires Marks(ms, |text|) && j < |ms| && forall i :: 0 <= i < |ms| ==> ms[i].level <= 6
    ensures Stack(ms, j + 1) == Push(Stack(ms, j), ms[j].level, j)
    ensures var row := RowAt(text, ms, defaultTitle, Stack(ms, j + 1), j);
      RowsBefore(text, ms, defaultTitle, keep, j + 1) ==
        RowsBefore(text, ms, defaultTitle, keep, j) + if keep(row.content) then [row] else []
  {
    PathIsEnclosingSections(ms, |text|, j, 7);
  }

  lemma SomeMark(found: seq<Mark>)
    ensures MarksOf(found) == [] <==> found == []
  {
    if found != [] {
      var best := HighestRankIsKept(found, found[0]);
    }
    SortedByPlace(found);
    if MarksOf(found) != [] {
      assert MarksOf(found)[0] in found;
    }
  }

  // ---------------------------------------------------------------- what the rows hold

  predicate InRow(r: Row, i: int) { r.start <= i < r.end }

  ghost predicate Held(rows: seq<Row>, i: int) {
    exists r :: r in rows && InRow(r, i)
  }

  /** The last heading before heading `m` that starts at or before position `i`. */
  function Owner(ms: seq<Mark>, i: nat, m: nat): (j: nat)
    requires 1 <= m <= |ms| && ms[0].start <= i
    ensures j < m && ms[j].start <= i && (j + 1 < m ==> i < ms[j + 1].start)
  {
    if ms[m - 1].start <= i then m - 1 else Owner(ms, i, m - 1)
  }

  lemma OwnRow(text: string, ms: seq<Mark>, defaultTitle: string, j: nat, i: nat)
    requires Marks(ms, |text|) && j < |ms| && i < |text|
    ensures InRow(RowOf(text, ms, defaultTitle, j), i) <==> ms[0].start <= i && Owner(ms, i, |ms|) == j
  {
    assert j > 0 ==> ms[0].start < ms[j].start;
    if ms[0].start <= i {
      var k := Owner(ms, i, |ms|);
      assert k < j ==> k + 1 == j || ms[k + 1].start < ms[j].start;
      assert j < k ==> j + 1 == k || ms[j + 1].start < ms[k].start;
    }
  }

  lemma HeldSnoc(rows: seq<Row>, r: Row, i: int)
    ensures Held(rows + [r], i) <==> Held(rows, i) || InRow(r, i)
    ensures Held(rows + [], i) <==> Held(rows, i)
  {
    if InRow(r, i) {
      assert r in rows + [r];
    }
    if Held(rows, i) {
      var q :| q in rows && InRow(q, i);
      assert q in rows + [r];
    }
    assert rows + [] == rows;
  }

  lemma {:induction false} HeldUpTo(text: string, ms: seq<Mark>, defaultTitle: string, keep: string -> bool, m: nat,
                                    i: nat)
    requires Marks(ms, |text|) && ms != [] && m <= |ms| && i < |text|
    ensures Held(RowsBefore(text, ms, defaultTitle, keep, m), i) <==>
      if i < ms[0].start then HasPreface(text, ms[0].start)
      else Owner(ms, i, |ms|) < m && keep(Content(text, ms, Owner(ms, i, |ms|)))
  {
    if m == 0 {
      HeldPreface(text, ms, defaultTitle, keep, i);
    } else {
      HeldUpTo(text, ms, defaultTitle, keep, m - 1, i);
      OwnRow(text, ms, defaultTitle, m - 1, i);
      HeldNext(text, ms, defaultTitle, keep, m, i);
      if i >= ms[0].start {
        OwnerNext(Owner(ms, i, |ms|), m, keep(Content(text, ms, m - 1)), keep(Content(text, ms, Owner(ms, i, |ms|))));
      }
    }
  }

  lemma OwnerNext(owner: nat, m: nat, now: bool, own: bool)
    requires m > 0 && (owner == m - 1 ==> now == own)
    ensures owner < m && own <==> (owner < m - 1 && own) || (now && owner == m - 1)
  {}

  lemma HeldPreface(text: string, ms: seq<Mark>, defaultTitle: string, keep: string -> bool, i: nat)
    requires Marks(ms, |text|) && ms != []
    ensures Held(RowsBefore(text, ms, defaultTitle, keep, 0), i) <==> HasPreface(text, ms[0].start) && i < ms[0].start
  {
    var preface := Row([defaultTitle], Strip(text[..ms[0].start]), 0, ms[0].start);
    assert [] + [preface] == [preface];
    HeldSnoc([], preface, i);
  }

  lemma HeldNext(text: string, ms: seq<Mark>, defaultTitle: string, keep: string -> bool, m: nat, i: nat)
    requires Marks(ms, |text|) && ms != [] && 0 < m <= |ms|
    ensures Held(RowsBefore(text, ms, defaultTitle, keep, m), i) <==>
      || Held(RowsBefore(text, ms, defaultTitle, keep, m - 1), i)
      || (keep(Content(text, ms, m - 1)) && InRow(RowOf(text, ms, defaultTitle, m - 1), i))
  {
    HeldSnoc(RowsBefore(text, ms, defaultTitle, keep, m - 1), RowOf(text, ms, defaultTitle, m - 1), i);
  }

  /** What the splitter keeps: a position before the first heading lies in a row exactly when the text
      before it still has 80 characters once stripped, and any other exactly when the section it belongs to
      has a body. */
  lemma HeldExactlyWhen(text: string, found: seq<Mark>, defaultTitle: string, i: nat)
    requires forall m :: m in found ==> 1 <= m.level <= 6 && m.start < |text|
    requires found != [] && i < |text|
    ensures var ms := MarksOf(found);
      Marks(ms, |text|) && ms != [] &&
      (Held(RowsBefore(text, ms, defaultTitle, HasBody, |ms|), i) <==>
        if i < ms[0].start then HasPreface(text, ms[0].start) else HasBody(Content(text, ms, Owner(ms, i, |ms|))))
  {
    MarksAreMarks(found, |text|);
    SomeMark(found);
    HeldUpTo(text, MarksOf(found), defaultTitle, HasBody, |MarksOf(found)|, i);
  }

  /** A row holds the stripped text of its own range, which ends before the next heading starts. */
  lemma {:induction false} RowsAreExact(text: string, ms: seq<Mark>, defaultTitle: string, keep: string -> bool, m: nat,
                                        r: Row)
    requires Marks(ms, |text|) && ms != [] && m <= |ms| && r in RowsBefore(text, ms, defaultTitle, keep, m)
    ensures IsExact(text, r) && r.end <= (if m < |ms| then ms[m].start else |text|)
  {
    if m > 0 {
      assert m < |ms| ==> ms[m - 1].start < ms[m].start;
      if r in RowsBefore(text, ms, defaultTitle, keep, m - 1) {
        RowsAreExact(text, ms, defaultTitle, keep, m - 1, r);
      }
    }
  }

  predicate IsExact(text: string, r: Row) {
    r.start < r.end <= |text| && r.content == Strip(text[r.start..r.end])
  }
}
