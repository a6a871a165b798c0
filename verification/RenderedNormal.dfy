/** When a rendered resume case is already normalised, so that its recorded ranges are also ranges of the
    text that is chunked. The gold builder refuses a case otherwise. */
module RenderedNormal {
  import opened Text
  import opened Normalize
  import opened ResumeCase

  /** Normal but for white space at its ends. */
  predicate Clean(s: string) {
    NoneOf(s, IsReturn) && NoneOf(s, IsTab) && NoLongRun(s, IsBlank, 2) && NoLongRun(s, IsNewline, 3)
  }

  /** Length of the trailing run of characters of class `p`. */
  function Trail(s: string, p: char -> bool): (n: nat)
    ensures n <= |s|
  {
    if RunLength(s, p) == |s| then |s| else Trail(s[1..], p)
  }

  /** Two texts can be joined: no run across the seam is too long. */
  predicate Seam(a: string, b: string) {
    Trail(a, IsBlank) + RunLength(b, IsBlank) < 2 && Trail(a, IsNewline) + RunLength(b, IsNewline) < 3
  }

  lemma {:induction false} RunOfConcat(a: string, b: string, p: char -> bool)
    ensures RunLength(a + b, p) == if RunLength(a, p) == |a| then |a| + RunLength(b, p) else RunLength(a, p)
  {
    if a == "" {
      assert a + b == b;
    } else {
      assert (a + b)[1..] == a[1..] + b;
      RunOfConcat(a[1..], b, p);
    }
  }

  /** A join has no long run exactly when its parts have none and the runs at the seam add up to less. */
  lemma {:induction false} LongRunOfConcat(a: string, b: string, p: char -> bool, min: nat)
    requires min > 0
    ensures NoLongRun(a + b, p, min) <==>
      NoLongRun(a, p, min) && NoLongRun(b, p, min) && Trail(a, p) + RunLength(b, p) < min
  {
    if a == "" {
      assert a + b == b;
    } else {
      assert (a + b)[1..] == a[1..] + b;
      RunOfConcat(a, b, p);
      LongRunOfConcat(a[1..], b, p, min);
      TrailOfTail(a, p);
    }
  }

  lemma TrailOfTail(a: string, p: char -> bool)
    requires a != ""
    ensures Trail(a[1..], p) == if RunLength(a, p) == |a| then |a| - 1 else Trail(a, p)
  {}

  lemma NoneOfConcat(a: string, b: string, p: char -> bool)
    ensures NoneOf(a + b, p) <==> NoneOf(a, p) && NoneOf(b, p)
  {
    assert forall i :: 0 <= i < |a| ==> (a + b)[i] == a[i];
    assert forall i :: 0 <= i < |b| ==> (a + b)[|a| + i] == b[i];
  }

  lemma CleanConcat(a: string, b: string)
    ensures Clean(a + b) <==> Clean(a) && Clean(b) && Seam(a, b)
  {
    NoneOfConcat(a, b, IsReturn);
    NoneOfConcat(a, b, IsTab);
    LongRunOfConcat(a, b, IsBlank, 2);
    LongRunOfConcat(a, b, IsNewline, 3);
  }

  // ---------------------------------------------------------------- pieces

  /** Some character is neither a blank nor a line feed. */
  predicate Solid(s: string) {
    exists i :: 0 <= i < |s| && !IsBlank(s[i]) && !IsNewline(s[i])
  }

  lemma {:induction false} ShortRun(s: string, p: char -> bool, i: nat)
    requires i < |s| && !p(s[i])
    ensures RunLength(s, p) <= i
  {
    if i > 0 {
      ShortRun(s[1..], p, i - 1);
    }
  }

  /** Only the last solid part decides how a text ends. */
  lemma {:induction false} TrailOfConcat(a: string, b: string, p: char -> bool)
    requires RunLength(b, p) < |b|
    ensures Trail(a + b, p) == Trail(b, p)
  {
    if a == "" {
      assert a + b == b;
    } else {
      assert (a + b)[1..] == a[1..] + b;
      RunOfConcat(a, b, p);
      TrailOfConcat(a[1..], b, p);
    }
  }

  lemma SeamOfSolid(a: string, b: string, c: string)
    requires Solid(b)
    ensures Seam(a + b, c) <==> Seam(b, c)
  {
    var i :| 0 <= i < |b| && !IsBlank(b[i]) && !IsNewline(b[i]);
    ShortRun(b, IsBlank, i);
    ShortRun(b, IsNewline, i);
    TrailOfConcat(a, b, IsBlank);
    TrailOfConcat(a, b, IsNewline);
  }

  lemma {:induction false} EmptyTrail(p: char -> bool)
    ensures Trail("", p) == 0
  {}

  /** Each of the first `n` pieces is clean, and each can be joined to the one before. */
  ghost predicate PiecesJoin(layout: Layout, sections: seq<Section>, n: nat)
    requires n <= |sections|
  {
    && (forall k :: 0 <= k < n ==> Clean(Piece(layout, sections, k)))
    && (forall k :: 0 < k < n ==> Seam(Piece(layout, sections, k - 1), Piece(layout, sections, k)))
  }

  ghost predicate AllSolid(layout: Layout, sections: seq<Section>) {
    forall k :: 0 <= k < |sections| ==> Solid(Piece(layout, sections, k))
  }

  lemma {:induction false} LeadIsClean(layout: Layout, sections: seq<Section>, n: nat)
    requires n <= |sections| && AllSolid(layout, sections)
    ensures Clean(Lead(layout, sections, n)) <==> PiecesJoin(layout, sections, n)
  {
    if n > 0 {
      LeadIsClean(layout, sections, n - 1);
      var lead, piece := Lead(layout, sections, n - 1), Piece(layout, sections, n - 1);
      CleanConcat(lead, piece);
      if n == 1 {
        EmptySeam(piece);
      } else {
        SeamOfSolid(Lead(layout, sections, n - 2), Piece(layout, sections, n - 2), piece);
      }
    }
  }

  lemma EmptySeam(b: string)
    ensures Clean(b) ==> Seam("", b)
  {
    EmptyTrail(IsBlank);
    EmptyTrail(IsNewline);
  }

  /** Every layout writes a colon behind the title. */
  lemma PiecesAreSolid(cohort: Cohort, sections: seq<Section>)
    ensures AllSolid(LayoutOf(cohort), sections)
  {
    forall k | 0 <= k < |sections| ensures Solid(Piece(LayoutOf(cohort), sections, k)) {
      var prefix := Prefix(cohort, sections[k].title);
      PrefixIsSolid(cohort, sections[k].title);
      var i :| 0 <= i < |prefix| && !IsBlank(prefix[i]) && !IsNewline(prefix[i]);
      assert Piece(LayoutOf(cohort), sections, k)[i] == prefix[i];
    }
  }

  lemma PrefixIsSolid(cohort: Cohort, title: string)
    ensures Solid(Prefix(cohort, title))
  {
    var prefix := Prefix(cohort, title);
    if cohort.OcrNoisy? {
      assert prefix[|Spaced(title)| + 1] == ':';
    } else {
      assert prefix[|title|] == '\U{FF1A}';
    }
  }

  // ---------------------------------------------------------------- the whole case

  /** A case is rendered as normal text exactly when every section is written cleanly, every two neighbours
      can be joined, and the text neither starts nor ends with white space. */
  lemma RenderedNormalExactlyWhen(cohort: Cohort, sections: seq<Section>)
    requires sections != []
    ensures var layout := LayoutOf(cohort);
      var first, last := Piece(layout, sections, 0), Piece(layout, sections, |sections| - 1);
      && first != "" && last != ""
      && (IsNormal(Lead(layout, sections, |sections|)) <==>
            PiecesJoin(layout, sections, |sections|) && !IsSpace(first[0]) && !IsSpace(last[|last| - 1]))
  {
    var layout, n := LayoutOf(cohort), |sections|;
    PiecesAreSolid(cohort, sections);
    assert Solid(Piece(layout, sections, 0)) && Solid(Piece(layout, sections, n - 1));
    LeadIsClean(layout, sections, n);
    LeadIsPrefix(layout, sections, 1, n);
    Ends(Lead(layout, sections, n), Lead(layout, sections, 1), Piece(layout, sections, 0),
      Lead(layout, sections, n - 1),
         Piece(layout, sections, n - 1));
  }

  lemma Ends(text: string, one: string, first: string, init: string, last: string)
    requires one == "" + first && one <= text && text == init + last && first != "" && last != ""
    ensures text[0] == first[0] && text[|text| - 1] == last[|last| - 1]
  {}

  /** So the gold builder, which compares the text with its normal form, accepts a case exactly then; and
      the recorded ranges are ranges of the text that is chunked. */
  lemma GoldAcceptsExactlyWhen(cohort: Cohort, sections: seq<Section>)
    requires sections != []
    ensures var layout := LayoutOf(cohort);
      var first, last := Piece(layout, sections, 0), Piece(layout, sections, |sections| - 1);
      && first != "" && last != ""
      && (NormalizeText(Lead(layout, sections, |sections|)) == Lead(layout, sections, |sections|) <==>
            PiecesJoin(layout, sections, |sections|) && !IsSpace(first[0]) && !IsSpace(last[|last| - 1]))
  {
    RenderedNormalExactlyWhen(cohort, sections);
    NormalizeFixedPoints(Lead(LayoutOf(cohort), sections, |sections|));
  }

  // ---------------------------------------------------------------- spaced titles

  predicate IsWhite(c: char) { IsBlank(c) || IsTab(c) || IsReturn(c) }

  /** Every character followed by a blank, and then a colon. */
  function TitleLine(title: string): string {
    if title == "" then ":\n" else [title[0], ' '] + TitleLine(title[1..])
  }

  lemma {:induction false} SpacedTitle(title: string)
    requires title != ""
    ensures Spaced(title) + " :\n" == TitleLine(title)
  {
    if |title| > 1 {
      SpacedTitle(title[1..]);
      assert Spaced(title) + " :\n" == [title[0], ' '] + (Spaced(title[1..]) + " :\n");
    } else {
      assert TitleLine(title[1..]) == ":\n";
    }
  }

  lemma SpacedChar(c: char)
    ensures Clean([c, ' ']) <==> !IsWhite(c)
    ensures !IsBlank(c) ==> Trail([c, ' '], IsBlank) == 1
    ensures Trail([c, ' '], IsNewline) == 0
  {
    var s := [c, ' '];
    assert s[1..] == [' '] && s[1..][1..] == "";
    assert RunLength([' '], IsBlank) == 1 && RunLength([' '], IsNewline) == 0;
    assert Trail("", IsNewline) == 0 && Trail([' '], IsNewline) == 0;
    assert NoLongRun([' '], IsBlank, 2) && NoLongRun([' '], IsNewline, 3);
    assert s[0] == c && s[1] == ' ';
  }

  lemma {:induction false} TitleLineIsClean(title: string)
    ensures Clean(TitleLine(title)) <==> NoneOf(title, IsWhite)
    ensures Clean(TitleLine(title)) ==> RunLength(TitleLine(title), IsBlank) == 0
  {
    if title == "" {
      var s := ":\n";
      assert s[1..] == "\n" && s[1..][1..] == "";
      assert RunLength("\n", IsNewline) == 1 && RunLength("\n", IsBlank) == 0;
    } else {
      TitleLineIsClean(title[1..]);
      SpacedChar(title[0]);
      CleanConcat([title[0], ' '], TitleLine(title[1..]));
      assert NoneOf(title, IsWhite) <==> !IsWhite(title[0]) && NoneOf(title[1..], IsWhite);
    }
  }

  /** The title line of the noisy layout is clean exactly when the title has no blank, tab or carriage
      return: spacing a title out doubles the blanks that it has. */
  lemma NoisyTitleExactlyWhen(title: string)
    requires title != ""
    ensures Clean(Prefix(OcrNoisy, title)) <==> NoneOf(title, IsWhite)
  {
    SpacedTitle(title);
    TitleLineIsClean(title);
  }

  /** So the gold builder refuses a noisy case with such a title, whatever else it says. */
  lemma NoisyTitleIsRefused(sections: seq<Section>, k: nat)
    requires k < |sections| && sections[k].title != "" && !NoneOf(sections[k].title, IsWhite)
    ensures var text := Lead(LayoutOf(OcrNoisy), sections, |sections|); NormalizeText(text) != text
  {
    var layout := LayoutOf(OcrNoisy);
    NoisyTitleExactlyWhen(sections[k].title);
    var prefix, body := Prefix(OcrNoisy, sections[k].title), layout.body(sections[k].content);
    var suffix := if k + 1 < |sections| then layout.suffix else "";
    CleanConcat(prefix, body);
    CleanConcat(prefix + body, suffix);
    GoldAcceptsExactlyWhen(OcrNoisy, sections);
    assert !Clean(Piece(layout, sections, k));
  }
}
