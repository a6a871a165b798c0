/** Rendering a resume case from its sections, with the range of every section recorded as it is
    written, and labelling chunks by the sections they overlap. */
module ResumeCase {
  import opened Optional
  import opened Reals
  import opened Text

  datatype Section = Section(title: string, content: string, id: string)

  datatype Range = Range(start: nat, end: nat, id: string)

  datatype Cohort = BlankParagraphs | LineOnly | CompressedOneLine | OcrNoisy

  function CohortOf(caseIndex: nat): Cohort {
    match caseIndex % 4
    case 0 => BlankParagraphs
    case 1 => LineOnly
    case 2 => CompressedOneLine
    case _ => OcrNoisy
  }

  // ---------------------------------------------------------------- rendering

  /** `" ".join(title)` */
  function Spaced(title: string): string {
    if |title| <= 1 then title else [title[0], ' '] + Spaced(title[1..])
  }

  /** Full-width punctuation becomes ASCII. */
  function Ascii(content: string): string {
    if content == "" then ""
    else
      var c := content[0];
      [if c == '\U{FF0C}' then ',' else if c == '\U{3002}' then '.' else if c == '\U{FF1A}' then ':' else c] +
        Ascii(content[1..])
  }

  /** Slices of 72 characters, joined by line feeds. */
  function HardWrap(content: string): string {
    if |content| <= 72 then content else content[..72] + "\n" + HardWrap(content[72..])
  }

  function Body(cohort: Cohort, content: string): string {
    if cohort.OcrNoisy? then HardWrap(Ascii(content)) else content
  }

  function Prefix(cohort: Cohort, title: string): string {
    match cohort
    case OcrNoisy => Spaced(title) + " :\n"
    case BlankParagraphs => title + "\U{FF1A}\n"
    case _ => title + "\U{FF1A}"
  }

  function Suffix(cohort: Cohort): string {
    match cohort
    case BlankParagraphs => "\n\n"
    case CompressedOneLine => "\U{FF1B}"
    case _ => "\n"
  }

  /** How a cohort writes a section. */
  datatype Layout = Layout(prefix: string -> string, body: string -> string, suffix: string)

  function LayoutOf(cohort: Cohort): Layout {
    Layout((title: string) => Prefix(cohort, title), (content: string) => Body(cohort, content), Suffix(cohort))
  }

  /** What is written for section `k`: a suffix follows every section but the last. */
  function Piece(layout: Layout, sections: seq<Section>, k: nat): string
    requires k < |sections|
  {
    layout.prefix(sections[k].title) + layout.body(sections[k].content) +
    (if k + 1 < |sections| then layout.suffix else "")
  }

  /** The text in front of section `n`. */
  function Lead(layout: Layout, sections: seq<Section>, n: nat): string
    requires n <= |sections|
  {
    if n == 0 then "" else Lead(layout, sections, n - 1) + Piece(layout, sections, n - 1)
  }

  /** Where the content of section `k` is written. */
  function RangeOf(layout: Layout, sections: seq<Section>, k: nat): Range
    requires k < |sections|
  {
    RangeFrom(|Lead(layout, sections, k)|, |layout.prefix(sections[k].title)|, |layout.body(sections[k].content)|,
      sections[k].id)
  }

  function RangeFrom(lead: nat, prefix: nat, body: nat, id: string): Range {
    Range(lead + prefix, lead + prefix + body, id)
  }

  /** The ranges of the first `n` sections. */
  function Ranges(layout: Layout, sections: seq<Section>, n: nat): seq<Range>
    requires n <= |sections|
  {
    seq(n, k requires 0 <= k < n => RangeOf(layout, sections, k))
  }

  lemma NextSection(layout: Layout, sections: seq<Section>, n: nat)
    requires n < |sections|
    ensures Ranges(layout, sections, n + 1) == Ranges(layout, sections, n) + [RangeOf(layout, sections, n)]
    ensures |Piece(layout, sections, n)| == |layout.prefix(sections[n].title)| + |layout.body(sections[n].content)| +
      (if n + 1 < |sections| then |layout.suffix| else 0)
  {}

  /** `render_resume_case` */
  method RenderResumeCase(sections: seq<Section>, caseIndex: nat)
    returns (text: string, ranges: seq<Range>, cohort: Cohort)
    ensures cohort == CohortOf(caseIndex) && text == Lead(LayoutOf(cohort), sections, |sections|)
    ensures ranges == Ranges(LayoutOf(cohort), sections, |sections|)
  {
    cohort := CohortOf(caseIndex);
    text, ranges := Render(LayoutOf(cohort), sections);
  }

  method Render(layout: Layout, sections: seq<Section>) returns (text: string, ranges: seq<Range>)
    ensures text == Lead(layout, sections, |sections|) && ranges == Ranges(layout, sections, |sections|)
  {
    text, ranges := "", [];
    var cursor := 0;
    for index := 0 to |sections|
      invariant text == Lead(layout, sections, index) && cursor == |text|
      invariant ranges == Ranges(layout, sections, index)
    {
      NextSection(layout, sections, index);
      var prefix, body := |layout.prefix(sections[index].title)|, |layout.body(sections[index].content)|;
      ranges := ranges + [RangeFrom(cursor, prefix, body, sections[index].id)];
      text := text + Piece(layout, sections, index);
      cursor := cursor + prefix + body + (if index + 1 < |sections| then |layout.suffix| else 0);
    }
  }

  lemma {:induction false} LeadIsPrefix(layout: Layout, sections: seq<Section>, m: nat, n: nat)
    requires m <= n <= |sections|
    ensures Lead(layout, sections, m) <= Lead(layout, sections, n)
  {
    if m < n {
      LeadIsPrefix(layout, sections, m, n - 1);
      PrefixOfSum(Lead(layout, sections, m), Lead(layout, sections, n - 1), Piece(layout, sections, n - 1));
    }
  }

  lemma PrefixOfSum(a: string, b: string, c: string)
    requires a <= b
    ensures a <= b + c
  {}

  /** The recorded range of a section holds exactly its content, as degraded by the layout; ranges are in
      order and do not overlap. */
  lemma RangesAreExact(layout: Layout, sections: seq<Section>, k: nat)
    requires k < |sections|
    ensures var text, r := Lead(layout, sections, |sections|), RangeOf(layout, sections, k);
      && r.start <= r.end <= |text| && text[r.start..r.end] == layout.body(sections[k].content)
      && (k + 1 < |sections| ==> r.end <= RangeOf(layout, sections, k + 1).start)
      && (k + 1 == |sections| ==> r.end == |text|)
  {
    LeadIsPrefix(layout, sections, k + 1, |sections|);
    var lead := Lead(layout, sections, k);
    SliceOfSection(layout, sections, k, lead, lead + Piece(layout, sections, k), Lead(layout, sections, |sections|));
    if k + 1 < |sections| {
      NextRange(layout, sections, k);
    }
  }

  lemma SliceOfSection(layout: Layout, sections: seq<Section>, k: nat, lead: string, upTo: string, text: string)
    requires k < |sections| && upTo == lead + Piece(layout, sections, k) && upTo <= text
    ensures var start := |lead| + |layout.prefix(sections[k].title)|;
      var end := start + |layout.body(sections[k].content)|;
      && start <= end <= |upTo| && text[start..end] == layout.body(sections[k].content)
      && (k + 1 == |sections| ==> end == |upTo|)
  {
    SliceOfLead(lead, layout.prefix(sections[k].title), layout.body(sections[k].content),
                if k + 1 < |sections| then layout.suffix else "", text);
  }

  /** The next range starts after this one ends. */
  lemma NextRange(layout: Layout, sections: seq<Section>, k: nat)
    requires k + 1 < |sections|
    ensures RangeOf(layout, sections, k).end <= RangeOf(layout, sections, k + 1).start
  {
    NextSection(layout, sections, k);
  }

  lemma SliceOfLead(lead: string, prefix: string, body: string, suffix: string, text: string)
    requires lead + (prefix + body + suffix) <= text
    ensures |lead| + |prefix| + |body| + |suffix| == |lead + (prefix + body + suffix)| <= |text|
    ensures text[|lead| + |prefix|..|lead| + |prefix| + |body|] == body
  {
    var whole := lead + (prefix + body + suffix);
    assert whole[|lead| + |prefix|..|lead| + |prefix| + |body|] == body;
    PrefixSlice(whole, text, |lead| + |prefix|, |lead| + |prefix| + |body|);
  }

  lemma PrefixSlice(a: string, b: string, i: nat, j: nat)
    requires a <= b && i <= j <= |a|
    ensures b[i..j] == a[i..j]
  {}

  /** The text without its line feeds. */
  function Unbroken(s: string): string {
    if s == "" then "" else (if s[0] == '\n' then [] else [s[0]]) + Unbroken(s[1..])
  }

  lemma {:induction false} UnbrokenConcat(a: string, b: string)
    ensures Unbroken(a + b) == Unbroken(a) + Unbroken(b)
  {
    if a == "" {
      assert a + b == b;
    } else {
      UnbrokenConcat(a[1..], b);
      assert (a + b)[1..] == a[1..] + b && (a + b)[0] == a[0];
      Reassociate(if a[0] == '\n' then [] else [a[0]], Unbroken(a[1..]), Unbroken(b));
    }
  }

  /** Hard wrapping only adds line feeds. */
  lemma {:induction false} WrapKeepsContent(content: string)
    ensures Unbroken(HardWrap(content)) == Unbroken(content)
  {
    if |content| > 72 {
      var head, rest := content[..72], content[72..];
      WrapKeepsContent(rest);
      UnbrokenConcat(head + "\n", HardWrap(rest));
      UnbrokenConcat(head, "\n");
      UnbrokenConcat(head, rest);
      assert content == head + rest;
      assert "\n"[1..] == "";
    }
  }

  // ---------------------------------------------------------------- labelling chunks

  datatype Chunk = Chunk(start: nat, end: nat)

  /** How many characters of a chunk lie in a range. */
  function Overlap(c: Chunk, r: Range): nat {
    var low := if c.start < r.start then r.start else c.start;
    var high := if c.end < r.end then c.end else r.end;
    if low < high then high - low else 0
  }

  function OverlapWith(c: Chunk, ranges: seq<Range>, id: string): nat {
    if ranges == [] then 0
    else
      var last := ranges[|ranges| - 1];
      OverlapWith(c, ranges[..|ranges| - 1], id) + (if last.id == id then Overlap(c, last) else 0)
  }

  function TotalOverlap(c: Chunk, ranges: seq<Range>): nat {
    if ranges == [] then 0 else TotalOverlap(c, ranges[..|ranges| - 1]) + Overlap(c, ranges[|ranges| - 1])
  }

  /** The first range with the largest overlap, if any overlaps. */
  function Best(c: Chunk, ranges: seq<Range>): Option<Range> {
    if ranges == [] then None
    else
      var before, last := Best(c, ranges[..|ranges| - 1]), ranges[|ranges| - 1];
      if Overlap(c, last) > (if before.None? then 0 else Overlap(c, before.value)) then Some(last) else before
  }

  function Get(m: map<string, nat>, id: string): nat {
    if id in m then m[id] else 0
  }

  /** The overlaps by section: exactly the sections that overlap are listed. */
  ghost predicate Counts(m: map<string, nat>, c: Chunk, ranges: seq<Range>) {
    forall id :: Get(m, id) == OverlapWith(c, ranges, id) && (id in m <==> OverlapWith(c, ranges, id) > 0)
  }

  /** `max(1, end - start)` */
  function Chars(c: Chunk): (n: nat)
    ensures n > 0
  {
    if c.start < c.end then c.end - c.start else 1
  }

  function RoundedShare(round6: Rounding, part: nat, whole: nat): real
    requires whole > 0
  {
    round6(part as real / whole as real)
  }

  /** The share of a chunk that lies in a section, as it is recorded. */
  function Share(round6: Rounding, c: Chunk, ranges: seq<Range>, id: string): real {
    RoundedShare(round6, OverlapWith(c, ranges, id), Chars(c))
  }

  datatype Label = Label(sectionId: string, ratios: map<string, real>, purity: real, mixed: bool)

  /** `max(ratios.values(), default=0.0)` */
  ghost predicate IsLargest(ratios: map<string, real>, most: real) {
    if ratios == map[] then most == 0.0
    else (exists id :: id in ratios && ratios[id] == most) && forall id :: id in ratios ==> ratios[id] <= most
  }

  method Largest(ratios: map<string, real>) returns (most: real)
    ensures IsLargest(ratios, most)
  {
    most := 0.0;
    var rest := ratios.Keys;
    while rest != {}
      invariant rest <= ratios.Keys
      invariant if rest == ratios.Keys then most == 0.0 else exists id :: id in ratios && ratios[id] == most
      invariant forall id :: id in ratios && id !in rest ==> ratios[id] <= most
      decreases |rest|
    {
      var id :| id in rest;
      if rest == ratios.Keys || most < ratios[id] {
        most := ratios[id];
      }
      rest := rest - {id};
    }
    assert ratios == map[] <==> ratios.Keys == {};
  }

  ghost predicate AreShares(round6: Rounding, c: Chunk, ranges: seq<Range>, ratios: map<string, real>) {
    && (forall id :: id in ratios <==> OverlapWith(c, ranges, id) > 0)
    && (forall id :: id in ratios ==> ratios[id] == Share(round6, c, ranges, id))
  }

  function Ratios(round6: Rounding, overlaps: map<string, nat>, chars: nat): map<string, real>
    requires chars > 0
  {
    map id | id in overlaps :: RoundedShare(round6, overlaps[id], chars)
  }

  lemma RatiosAreShares(round6: Rounding, c: Chunk, ranges: seq<Range>, overlaps: map<string, nat>)
    requires Counts(overlaps, c, ranges)
    ensures AreShares(round6, c, ranges, Ratios(round6, overlaps, Chars(c)))
  {
    var ratios := Ratios(round6, overlaps, Chars(c));
    forall id
      ensures id in ratios <==> OverlapWith(c, ranges, id) > 0
      ensures id in ratios ==> ratios[id] == Share(round6, c, ranges, id)
    {
      RatioIsShare(round6, c, ranges, overlaps, id);
    }
  }

  lemma RatioIsShare(round6: Rounding, c: Chunk, ranges: seq<Range>, overlaps: map<string, nat>, id: string)
    requires Counts(overlaps, c, ranges)
    ensures id in Ratios(round6, overlaps, Chars(c)) <==> OverlapWith(c, ranges, id) > 0
    ensures id in overlaps ==> Ratios(round6, overlaps, Chars(c))[id] == Share(round6, c, ranges, id)
  {
    assert Get(overlaps, id) == OverlapWith(c, ranges, id);
  }

  /** What is recorded for a chunk: the shares of exactly the sections that overlap it, the largest of
      them, and the section of the first range with the largest overlap. */
  ghost predicate IsLabel(round6: Rounding, c: Chunk, ranges: seq<Range>, tag: Label) {
    && tag.sectionId ==
      (if Best(c, ranges).None? || Best(c, ranges).value.id == "" then "unknown" else Best(c, ranges).value.id)
    && AreShares(round6, c, ranges, tag.ratios)
    && IsLargest(tag.ratios, tag.purity)
    && (tag.mixed <==> |tag.ratios| > 1)
  }

  /** One round of `attach_resume_sections`. */
  method AttachSection(round6: Rounding, c: Chunk, ranges: seq<Range>) returns (tag: Label)
    ensures IsLabel(round6, c, ranges, tag)
  {
    var best, overlaps := CountOverlaps(c, ranges);
    var ratios := Ratios(round6, overlaps, Chars(c));
    RatiosAreShares(round6, c, ranges, overlaps);
    var purity := Largest(ratios);
    tag := Label(if best.None? || best.value.id == "" then "unknown" else best.value.id, ratios, purity, |ratios| > 1);
  }

  /** The loop over the ranges. */
  method CountOverlaps(c: Chunk, ranges: seq<Range>) returns (best: Option<Range>, overlaps: map<string, nat>)
    ensures best == Best(c, ranges) && Counts(overlaps, c, ranges)
  {
    best, overlaps := None, map[];
    var bestOverlap := 0;
    for i := 0 to |ranges|
      invariant best == Best(c, ranges[..i]) && bestOverlap == (if best.None? then 0 else Overlap(c, best.value))
      invariant Counts(overlaps, c, ranges[..i])
    {
      OverlapNext(c, ranges, i, overlaps);
      var overlap := Overlap(c, ranges[i]);
      if overlap > 0 {
        overlaps := overlaps[ranges[i].id := Get(overlaps, ranges[i].id) + overlap];
      }
      if overlap > bestOverlap {
        bestOverlap := overlap;
        best := Some(ranges[i]);
      }
    }
    assert ranges[..|ranges|] == ranges;
  }

  lemma OverlapNext(c: Chunk, ranges: seq<Range>, i: nat, m: map<string, nat>)
    requires i < |ranges| && Counts(m, c, ranges[..i])
    ensures var r := ranges[i];
      Counts(if Overlap(c, r) > 0 then m[r.id := Get(m, r.id) + Overlap(c, r)] else m, c, ranges[..i + 1])
    ensures Best(c, ranges[..i + 1]) ==
      if Overlap(c, ranges[i]) > (if Best(c, ranges[..i]).None? then 0 else Overlap(c, Best(c, ranges[..i]).value))
      then Some(ranges[i]) else Best(c, ranges[..i])
  {
    assert ranges[..i + 1][..i] == ranges[..i];
    var r := ranges[i];
    var n := if Overlap(c, r) > 0 then m[r.id := Get(m, r.id) + Overlap(c, r)] else m;
    forall id
      ensures Get(n, id) == OverlapWith(c, ranges[..i + 1], id)
        && (id in n <==> OverlapWith(c, ranges[..i + 1], id) > 0)
    {
      assert Get(m, id) == OverlapWith(c, ranges[..i], id);
    }
  }

  /** Ranges in order that do not overlap. */
  predicate Apart(ranges: seq<Range>) {
    ranges == [] ||
    (var init, last := ranges[..|ranges| - 1], ranges[|ranges| - 1];
     Apart(init) && last.start <= last.end && (init != [] ==> init[|init| - 1].end <= last.start))
  }

  /** The ranges of a rendered case are apart. */
  lemma {:induction false} RenderedApart(layout: Layout, sections: seq<Section>, n: nat)
    requires n <= |sections|
    ensures Apart(Ranges(layout, sections, n))
  {
    if n > 0 {
      RenderedApart(layout, sections, n - 1);
      NextSection(layout, sections, n - 1);
      EndsBefore(layout, sections, n - 1);
      ApartSnoc(Ranges(layout, sections, n - 1), RangeOf(layout, sections, n - 1));
    }
  }

  /** The last range so far ends before the next one starts. */
  lemma EndsBefore(layout: Layout, sections: seq<Section>, n: nat)
    requires n < |sections|
    ensures var before, r := Ranges(layout, sections, n), RangeOf(layout, sections, n);
      r.start <= r.end && (before != [] ==> before[|before| - 1].end <= r.start)
  {
    if n > 0 {
      NextSection(layout, sections, n - 1);
      NextRange(layout, sections, n - 1);
    }
  }

  lemma ApartSnoc(ranges: seq<Range>, r: Range)
    requires Apart(ranges) && r.start <= r.end && (ranges != [] ==> ranges[|ranges| - 1].end <= r.start)
    ensures Apart(ranges + [r])
  {
    assert (ranges + [r])[..|ranges|] == ranges;
  }

  /** A chunk has at most as many characters in sections as it has characters before the last one ends. */
  lemma {:induction false} TotalWithinChunk(c: Chunk, ranges: seq<Range>)
    requires Apart(ranges)
    ensures TotalOverlap(c, ranges) <= if c.start < c.end then c.end - c.start else 0
    ensures ranges != [] ==>
      TotalOverlap(c, ranges) <= if c.start < ranges[|ranges| - 1].end then ranges[|ranges| - 1].end - c.start else 0
  {
    if ranges != [] {
      TotalWithinChunk(c, ranges[..|ranges| - 1]);
    }
  }

  lemma {:induction false} TwoOfTotal(c: Chunk, ranges: seq<Range>, a: string, b: string)
    requires a != b
    ensures OverlapWith(c, ranges, a) + OverlapWith(c, ranges, b) <= TotalOverlap(c, ranges)
  {
    if ranges != [] {
      TwoOfTotal(c, ranges[..|ranges| - 1], a, b);
    }
  }

  /** Every section's share of a chunk is a fraction, and two sections together have at most all of it; so
      a section with more than half of a chunk is the only such section. */
  lemma SharesAreFractions(c: Chunk, ranges: seq<Range>, a: string, b: string)
    requires Apart(ranges) && a != b
    ensures var chars := Chars(c) as real;
      var p, q := OverlapWith(c, ranges, a) as real / chars, OverlapWith(c, ranges, b) as real / chars;
      0.0 <= p <= 1.0 && 0.0 <= q <= 1.0 && p + q <= 1.0
  {
    TotalWithinChunk(c, ranges);
    TwoOfTotal(c, ranges, a, b);
    var chars := Chars(c) as real;
    var x, y := OverlapWith(c, ranges, a) as real, OverlapWith(c, ranges, b) as real;
    DivBounds(x, chars);
    DivBounds(y, chars);
    DivBounds(x + y, chars);
    DivSum(x, y, chars);
  }

  lemma DivSum(x: real, y: real, d: real)
    requires d > 0.0
    ensures (x + y) / d == x / d + y / d
  {}

  lemma BestSnoc(c: Chunk, ranges: seq<Range>, r: Range)
    ensures Best(c, ranges + [r]) ==
      if Overlap(c, r) > (if Best(c, ranges).None? then 0 else Overlap(c, Best(c, ranges).value)) then Some(r)
      else Best(c, ranges)
  {
    assert (ranges + [r])[..|ranges|] == ranges;
  }

  /** The best range is one of them, and it overlaps. */
  lemma {:induction false} BestIsOne(c: Chunk, ranges: seq<Range>)
    requires Best(c, ranges).Some?
    ensures Best(c, ranges).value in ranges && Overlap(c, Best(c, ranges).value) > 0
  {
    var init, last := ranges[..|ranges| - 1], ranges[|ranges| - 1];
    assert ranges == init + [last];
    BestSnoc(c, init, last);
    if Best(c, init).Some? {
      BestIsOne(c, init);
    }
  }

  /** No range overlaps more than the best one; if there is none, nothing overlaps. */
  lemma {:induction false} BestIsLargest(c: Chunk, ranges: seq<Range>, r: Range)
    requires r in ranges
    ensures Overlap(c, r) <= if Best(c, ranges).None? then 0 else Overlap(c, Best(c, ranges).value)
  {
    var init, last := ranges[..|ranges| - 1], ranges[|ranges| - 1];
    assert ranges == init + [last];
    BestSnoc(c, init, last);
    if r in init {
      BestIsLargest(c, init, r);
    }
  }

  predicate DistinctIds(ranges: seq<Range>) {
    forall i, j :: 0 <= i < j < |ranges| ==> ranges[i].id != ranges[j].id
  }

  lemma {:induction false} LoneOverlap(c: Chunk, ranges: seq<Range>, r: Range)
    requires DistinctIds(ranges) && r in ranges
    ensures OverlapWith(c, ranges, r.id) == Overlap(c, r)
  {
    var init, last := ranges[..|ranges| - 1], ranges[|ranges| - 1];
    assert ranges == init + [last];
    if r in init {
      LoneOverlap(c, init, r);
      var i :| 0 <= i < |init| && init[i] == r;
      assert ranges[i].id != ranges[|ranges| - 1].id;
    } else {
      NoOverlap(c, init, r.id);
    }
  }

  lemma {:induction false} NoOverlap(c: Chunk, ranges: seq<Range>, id: string)
    requires forall i :: 0 <= i < |ranges| ==> ranges[i].id != id
    ensures OverlapWith(c, ranges, id) == 0
  {
    if ranges != [] {
      NoOverlap(c, ranges[..|ranges| - 1], id);
    }
  }

  lemma LargestOverlap(c: Chunk, ranges: seq<Range>, id: string)
    requires DistinctIds(ranges) && OverlapWith(c, ranges, id) > 0
    ensures Best(c, ranges).Some? && 0 < OverlapWith(c, ranges, id) <= OverlapWith(c, ranges, Best(c, ranges).value.id)
  {
    var r := SomeRange(c, ranges, id);
    LoneOverlap(c, ranges, r);
    BestIsLargest(c, ranges, r);
    BestIsOne(c, ranges);
    LoneOverlap(c, ranges, Best(c, ranges).value);
  }

  lemma {:induction false} SomeRange(c: Chunk, ranges: seq<Range>, id: string) returns (r: Range)
    requires OverlapWith(c, ranges, id) > 0
    ensures r in ranges && r.id == id
  {
    var init, last := ranges[..|ranges| - 1], ranges[|ranges| - 1];
    if last.id == id {
      r := last;
    } else {
      r := SomeRange(c, init, id);
    }
  }

  /** When no section is listed twice, the section that labels a chunk is one with the largest share:
      its share is the recorded purity. */
  lemma LabelHasLargestShare(round6: Rounding, c: Chunk, ranges: seq<Range>, tag: Label)
    requires IsLabel(round6, c, ranges, tag)
    requires DistinctIds(ranges) && forall r :: r in ranges ==> r.id != ""
    ensures if tag.ratios == map[] then tag.sectionId == "unknown" && tag.purity == 0.0
      else tag.sectionId in tag.ratios && tag.ratios[tag.sectionId] == tag.purity
  {
    if tag.ratios == map[] {
      NothingOverlaps(c, ranges);
    } else {
      var id :| id in tag.ratios && tag.ratios[id] == tag.purity;
      PurityOfBest(round6, c, ranges, tag.ratios, tag.purity, id);
    }
  }

  lemma PurityOfBest(round6: Rounding, c: Chunk, ranges: seq<Range>, ratios: map<string, real>, purity: real,
                     id: string)
    requires DistinctIds(ranges) && AreShares(round6, c, ranges, ratios)
    requires IsLargest(ratios, purity) && id in ratios && ratios[id] == purity
    ensures Best(c, ranges).Some? && Best(c, ranges).value in ranges
    ensures Best(c, ranges).value.id in ratios && ratios[Best(c, ranges).value.id] == purity
  {
    LargestShare(round6, c, ranges, id);
    var best := Best(c, ranges).value.id;
    assert best in ratios;
    assert ratios[id] == Share(round6, c, ranges, id);
  }

  lemma LargestShare(round6: Rounding, c: Chunk, ranges: seq<Range>, id: string)
    requires DistinctIds(ranges) && OverlapWith(c, ranges, id) > 0
    ensures Best(c, ranges).Some? && Best(c, ranges).value in ranges
    ensures OverlapWith(c, ranges, Best(c, ranges).value.id) > 0
    ensures Share(round6, c, ranges, id) <= Share(round6, c, ranges, Best(c, ranges).value.id)
  {
    LargestOverlap(c, ranges, id);
    BestIsOne(c, ranges);
    var best := Best(c, ranges).value.id;
    RoundedDivMonotone(round6, OverlapWith(c, ranges, id) as real, OverlapWith(c, ranges, best) as real,
      Chars(c) as real);
  }

  lemma NothingOverlaps(c: Chunk, ranges: seq<Range>)
    ensures Best(c, ranges).Some? ==> OverlapWith(c, ranges, Best(c, ranges).value.id) > 0
  {
    if Best(c, ranges).Some? {
      BestIsOne(c, ranges);
      AtLeastOne(c, ranges, Best(c, ranges).value);
    }
  }

  lemma {:induction false} AtLeastOne(c: Chunk, ranges: seq<Range>, r: Range)
    requires r in ranges
    ensures Overlap(c, r) <= OverlapWith(c, ranges, r.id)
  {
    var init, last := ranges[..|ranges| - 1], ranges[|ranges| - 1];
    assert ranges == init + [last];
    if r in init {
      AtLeastOne(c, init, r);
    }
  }

  /** When a section is listed twice the purity can be that of another one: its two ranges together can
      have more than the best single range. */
  lemma SplitSectionCanLose(round6: Rounding, a: string, b: string, tag: Label)
    requires a != b && b != ""
    requires IsLabel(round6, Chunk(0, 7), [Range(0, 2, a), Range(2, 5, b), Range(5, 7, a)], tag)
    ensures Apart([Range(0, 2, a), Range(2, 5, b), Range(5, 7, a)])
    ensures tag.sectionId == b && b in tag.ratios && tag.ratios[b] == RoundedShare(round6, 3, 7)
    ensures a in tag.ratios && tag.ratios[a] == RoundedShare(round6, 4, 7)
  {
    SplitOverlaps(a, b);
  }

  lemma SplitOverlaps(a: string, b: string)
    requires a != b
    ensures var ranges, c := [Range(0, 2, a), Range(2, 5, b), Range(5, 7, a)], Chunk(0, 7);
      && Apart(ranges) && Best(c, ranges) == Some(ranges[1])
      && OverlapWith(c, ranges, a) == 4 && OverlapWith(c, ranges, b) == 3
  {
    var x, y, z := Range(0, 2, a), Range(2, 5, b), Range(5, 7, a);
    ThreeRanges(Chunk(0, 7), x, y, z, a);
    ThreeRanges(Chunk(0, 7), x, y, z, b);
    BestOfThree(Chunk(0, 7), x, y, z);
  }

  lemma ThreeRanges(c: Chunk, x: Range, y: Range, z: Range, id: string)
    ensures OverlapWith(c, [x, y, z], id) ==
      (if x.id == id then Overlap(c, x) else 0) + (if y.id == id then Overlap(c, y) else 0) +
        (if z.id == id then Overlap(c, z) else 0)
    ensures x.start <= x.end <= y.start <= y.end <= z.start <= z.end ==> Apart([x, y, z])
  {
    assert [] + [x] == [x] && [x] + [y] == [x, y] && [x, y] + [z] == [x, y, z];
    Snoc(c, [], x, id);
    Snoc(c, [x], y, id);
    Snoc(c, [x, y], z, id);
  }

  lemma BestOfThree(c: Chunk, x: Range, y: Range, z: Range)
    requires 0 < Overlap(c, x) < Overlap(c, y) && Overlap(c, z) <= Overlap(c, y)
    ensures Best(c, [x, y, z]) == Some(y)
  {
    assert [] + [x] == [x] && [x] + [y] == [x, y] && [x, y] + [z] == [x, y, z];
    BestSnoc(c, [], x);
    BestSnoc(c, [x], y);
    BestSnoc(c, [x, y], z);
  }

  lemma Snoc(c: Chunk, ranges: seq<Range>, r: Range, id: string)
    ensures OverlapWith(c, ranges + [r], id) == OverlapWith(c, ranges, id) + (if r.id == id then Overlap(c, r) else 0)
    ensures Apart(ranges + [r]) <==>
      Apart(ranges) && r.start <= r.end && (ranges != [] ==> ranges[|ranges| - 1].end <= r.start)
  {
    assert (ranges + [r])[..|ranges|] == ranges;
  }
}
