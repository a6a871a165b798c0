/** What a rendered resume case looks like and how its chunks are labelled, told without the running cursor: the four
    layouts, the noise of the fourth, and the sections that a chunk has characters of. */
module ResumeRules {
  import opened Reals
  import opened Text
  import Intervals
  import opened ResumeCase

  // ---------------------------------------------------------------- the text of a case

  /** The layouts take turns. */
  lemma LayoutsTakeTurns(k: nat)
    ensures CohortOf(4 * k) == BlankParagraphs && CohortOf(4 * k + 1) == LineOnly
    ensures CohortOf(4 * k + 2) == CompressedOneLine && CohortOf(4 * k + 3) == OcrNoisy
  {}

  /** What is made of every section. */
  function Each(sections: seq<Section>, f: Section -> string): seq<string> {
    seq(|sections|, k requires 0 <= k < |sections| => f(sections[k]))
  }

  /** A section as the layout writes it, without what separates it from the next one. */
  function Bare(layout: Layout): Section -> string {
    (s: Section) => layout.prefix(s.title) + layout.body(s.content)
  }

  lemma {:induction false} LeadThenRest(layout: Layout, sections: seq<Section>, m: nat)
    requires m < |sections|
    ensures Lead(layout, sections, m) + Join(layout.suffix, Each(sections, Bare(layout))[m..]) ==
      Join(layout.suffix, Each(sections, Bare(layout)))
  {
    var parts := Each(sections, Bare(layout));
    if m == 0 {
      assert parts[0..] == parts;
    } else {
      LeadThenRest(layout, sections, m - 1);
      JoinNext(layout.suffix, parts, m - 1);
      Shift(Lead(layout, sections, m - 1), parts[m - 1], layout.suffix, Join(layout.suffix, parts[m..]));
    }
  }

  lemma JoinNext(sep: string, parts: seq<string>, m: nat)
    requires m + 1 < |parts|
    ensures Join(sep, parts[m..]) == parts[m] + sep + Join(sep, parts[m + 1..])
  {
    assert parts[m..][1..] == parts[m + 1..] && parts[m..][0] == parts[m];
  }

  lemma Shift(a: string, b: string, c: string, d: string)
    ensures (a + (b + c)) + d == a + (b + c + d)
  {}

  /** The text is the sections joined by what the layout puts between them. */
  lemma RenderedIsJoined(layout: Layout, sections: seq<Section>)
    ensures Lead(layout, sections, |sections|) == Join(layout.suffix, Each(sections, Bare(layout)))
  {
    if sections != [] {
      var n := |sections| - 1;
      var parts := Each(sections, Bare(layout));
      LeadThenRest(layout, sections, n);
      assert parts[n..] == [parts[n]];
      assert Piece(layout, sections, n) == parts[n] + "";
      assert parts[n] + "" == parts[n];
    }
  }

  function TitledAbove(): Section -> string { (s: Section) => s.title + "\U{FF1A}\n" + s.content }

  function TitledInFront(): Section -> string { (s: Section) => s.title + "\U{FF1A}" + s.content }

  function SpacedAndWrapped(): Section -> string {
    (s: Section) => Spaced(s.title) + " :\n" + HardWrap(Ascii(s.content))
  }

  /** The four layouts: a title on a line of its own above the content, with a blank line between sections; or in
      front of it, with a line end or a semicolon between them; or spaced out above the wrapped content in ASCII
      punctuation. */
  lemma RenderedText(cohort: Cohort, sections: seq<Section>)
    ensures var text := Lead(LayoutOf(cohort), sections, |sections|);
      match cohort
      case BlankParagraphs => text == Join("\n\n", Each(sections, TitledAbove()))
      case LineOnly => text == Join("\n", Each(sections, TitledInFront()))
      case CompressedOneLine => text == Join("\U{FF1B}", Each(sections, TitledInFront()))
      case OcrNoisy => text == Join("\n", Each(sections, SpacedAndWrapped()))
  {
    RenderedIsJoined(LayoutOf(cohort), sections);
    match cohort
    case BlankParagraphs => SameEach(sections, Bare(LayoutOf(cohort)), TitledAbove());
    case LineOnly => SameEach(sections, Bare(LayoutOf(cohort)), TitledInFront());
    case CompressedOneLine => SameEach(sections, Bare(LayoutOf(cohort)), TitledInFront());
    case OcrNoisy => SameEach(sections, Bare(LayoutOf(cohort)), SpacedAndWrapped());
  }

  lemma SameEach(sections: seq<Section>, f: Section -> string, g: Section -> string)
    requires forall s :: f(s) == g(s)
    ensures Each(sections, f) == Each(sections, g)
  {}

  /** A spaced title has a blank between every two of its characters. */
  lemma {:induction false} SpacedAt(title: string, i: nat)
    requires title != ""
    ensures |Spaced(title)| == 2 * |title| - 1
    ensures i < |title| ==> Spaced(title)[2 * i] == title[i]
    ensures i < |title| - 1 ==> Spaced(title)[2 * i + 1] == ' '
  {
    if |title| > 1 {
      SpacedAt(title[1..], if i > 0 then i - 1 else 0);
    }
  }

  /** Three full-width marks become ASCII, character by character. */
  lemma {:induction false} AsciiAt(content: string, i: nat)
    ensures |Ascii(content)| == |content|
    ensures i < |content| ==>
      var c, d := content[i], Ascii(content)[i];
      && (c == '\U{FF0C}' ==> d == ',') && (c == '\U{3002}' ==> d == '.') && (c == '\U{FF1A}' ==> d == ':')
      && (c !in "\U{FF0C}\U{3002}\U{FF1A}" ==> d == c)
  {
    if content != "" {
      AsciiAt(content[1..], if i > 0 then i - 1 else 0);
    }
  }

  /** A wrapped content has a line feed behind every 72 characters that are not the last. */
  lemma {:induction false} WrappedAt(content: string, k: nat)
    requires k < |content|
    ensures |HardWrap(content)| == |content| + (|content| - 1) / 72
    ensures k + k / 72 < |HardWrap(content)| && HardWrap(content)[k + k / 72] == content[k]
    ensures k > 0 && k % 72 == 0 ==> HardWrap(content)[k + k / 72 - 1] == '\n'
  {
    if |content| > 72 {
      var head, rest := content[..72], content[72..];
      WrappedAt(rest, if k >= 72 then k - 72 else 0);
      assert HardWrap(content) == head + "\n" + HardWrap(rest);
      if k >= 72 {
        assert (k - 72) / 72 == k / 72 - 1 && (k - 72) % 72 == k % 72;
        assert HardWrap(content)[k + k / 72] == HardWrap(rest)[k - 72 + (k - 72) / 72];
      }
    }
  }

  // ---------------------------------------------------------------- labels

  predicate InBoth(c: Chunk, r: Range, x: int) { c.start <= x < c.end && r.start <= x < r.end }

  /** The positions that a chunk and a range share. */
  ghost function SharedPlaces(c: Chunk, r: Range): set<int> {
    set x | c.start <= x < c.end && InBoth(c, r, x)
  }

  lemma OverlapCounts(c: Chunk, r: Range)
    ensures Overlap(c, r) == |SharedPlaces(c, r)|
  {
    var low, high := if c.start < r.start then r.start else c.start, if c.end < r.end then c.end else r.end;
    if low < high {
      Intervals.RangeSize(Intervals.Interval(low, high));
      assert SharedPlaces(c, r) == Intervals.Range(Intervals.Interval(low, high));
    } else {
      assert SharedPlaces(c, r) == {};
    }
  }

  /** The label is the section of the first range that shares the most positions with the chunk, of those that share
      any. */
  lemma {:induction false} BestIsFirst(c: Chunk, ranges: seq<Range>)
    ensures Best(c, ranges).None? <==> forall k :: 0 <= k < |ranges| ==> Overlap(c, ranges[k]) == 0
    ensures Best(c, ranges).Some? ==> exists k :: IsFirstBest(c, ranges, k) && ranges[k] == Best(c, ranges).value
  {
    if ranges != [] {
      var init, n := ranges[..|ranges| - 1], |ranges| - 1;
      BestIsFirst(c, init);
      if Best(c, init).Some? {
        var k :| IsFirstBest(c, init, k) && init[k] == Best(c, init).value;
        FirstBestNext(c, ranges, k);
      } else if Overlap(c, ranges[n]) > 0 {
        assert forall j :: 0 <= j < n ==> ranges[j] == init[j];
        assert IsFirstBest(c, ranges, n);
      } else {
        assert forall j :: 0 <= j < n ==> ranges[j] == init[j];
      }
    }
  }

  /** Range `k` overlaps, more than any before it and no less than any behind it. */
  predicate IsFirstBest(c: Chunk, ranges: seq<Range>, k: int) {
    && 0 <= k < |ranges| && Overlap(c, ranges[k]) > 0
    && (forall j :: 0 <= j < k ==> Overlap(c, ranges[j]) < Overlap(c, ranges[k]))
    && (forall j :: k < j < |ranges| ==> Overlap(c, ranges[j]) <= Overlap(c, ranges[k]))
  }

  lemma FirstBestNext(c: Chunk, ranges: seq<Range>, k: int)
    requires ranges != [] && IsFirstBest(c, ranges[..|ranges| - 1], k)
    ensures var n := |ranges| - 1;
      IsFirstBest(c, ranges, if Overlap(c, ranges[n]) > Overlap(c, ranges[k]) then n else k)
  {
    var init := ranges[..|ranges| - 1];
    assert forall j :: 0 <= j < |init| ==> init[j] == ranges[j];
  }

  /** A recorded share is the rounded part of the chunk's characters that lie in ranges of the section. */
  lemma ShareIs(round6: Rounding, c: Chunk, ranges: seq<Range>, id: string) returns (part: real)
    ensures Share(round6, c, ranges, id) == round6(part)
    ensures IsPart(part, OverlapWith(c, ranges, id), if c.start < c.end then c.end - c.start else 1)
  {
    part := OverlapWith(c, ranges, id) as real / Chars(c) as real;
    PartIs(OverlapWith(c, ranges, id), Chars(c));
  }

  lemma PartIs(some: nat, all: nat)
    requires all > 0
    ensures IsPart(some as real / all as real, some, all)
  {
    Quotient(some as real, all as real);
  }

  predicate IsPart(part: real, some: nat, all: nat) { part * all as real == some as real }
}
