/** Evidence metrics: how much of the gold spans a chunk covers, how much of a chunk is gold, and the
    same for a whole result list. */
module Evidence {
  import opened Intervals
  import opened Reals
  import opened Integers

  datatype Span = Span(doc: string, start: int, end: int)

  /** A chunk: its document, its character range, and the length of its text, which may carry a prefix
      that is not part of the range. */
  datatype Chunk = Chunk(doc: string, start: int, end: int, size: nat)

  function MaxReal(a: real, b: real): real { if a < b then b else a }

  function Clip(s: Span, c: Chunk): Interval {
    Interval(Max(c.start, s.start), Min(c.end, s.end))
  }

  /** The harmonic mean, or zero. */
  function F1(p: real, r: real): real {
    if p + r != 0.0 then 2.0 * p * r / (p + r) else 0.0
  }

  /** The harmonic mean lies between its arguments. */
  lemma F1IsBetween(p: real, r: real)
    requires 0.0 <= p && 0.0 <= r
    ensures (if p < r then p else r) <= F1(p, r) <= MaxReal(p, r)
  {
    if p + r != 0.0 {
      if p <= r {
        F1Ordered(p, r);
      } else {
        F1Ordered(r, p);
        DoubleProduct(p, r);
        DoubleProduct(r, p);
      }
    }
  }

  lemma F1Ordered(p: real, r: real)
    requires 0.0 <= p <= r && p + r > 0.0
    ensures p <= 2.0 * p * r / (p + r) <= r
  {
    MulMonotone(p, r, p);
    MulMonotone(p, r, r);
    Distribute(p, r, p);
    Distribute(p, r, r);
    DoubleProduct(p, r);
    DivBetween(2.0 * p * r, p + r, p, r);
  }

  lemma DoubleProduct(p: real, r: real)
    ensures 2.0 * p * r == p * r + p * r == r * p + r * p
  {}

  // ---------------------------------------------------------------- one chunk

  /** The part of the span that the chunk covers, as a fraction. */
  function Coverage(s: Span, c: Chunk): real {
    Max(0, Clip(s, c).end - Clip(s, c).start) as real / Max(1, s.end - s.start) as real
  }

  lemma CoverageIsFraction(s: Span, c: Chunk)
    ensures 0.0 <= Coverage(s, c) <= 1.0
  {
    DivBounds(Max(0, Clip(s, c).end - Clip(s, c).start) as real, Max(1, s.end - s.start) as real);
  }

  /** The characters that a span and a chunk have in common. */
  ghost function Shared(s: Span, c: Chunk): set<int> {
    set x | s.start <= x < s.end && InBoth(s, c, x)
  }

  predicate InBoth(s: Span, c: Chunk, x: int) {
    s.start <= x < s.end && c.start <= x < c.end
  }

  /** Coverage counts characters: it is the number of shared ones for each character of the span. */
  lemma CoverageCounts(s: Span, c: Chunk)
    ensures Coverage(s, c) == Share(|Shared(s, c)|, s.end - s.start)
    ensures Coverage(s, c) >= 0.5 <==> 2 * |Shared(s, c)| >= Max(1, s.end - s.start)
  {
    var lo, hi := Clip(s, c).start, Clip(s, c).end;
    var both := Interval(lo, Max(lo, hi));
    RangeSize(both);
    assert Range(both) == Shared(s, c);
    Fraction(|Shared(s, c)|, Max(1, s.end - s.start));
  }

  lemma Fraction(n: nat, d: nat)
    requires d > 0
    ensures n as real / d as real >= 0.5 <==> 2 * n >= d
  {
    DivAtLeast(n as real, d as real, 0.5);
  }

  /** A span of the document of the chunk, at least half of which the chunk holds. */
  ghost predicate HalfHeld(s: Span, c: Chunk) {
    s.doc == c.doc && 2 * |Shared(s, c)| >= Max(1, s.end - s.start)
  }

  /** At least 35 % of the text of the chunk are gold characters. */
  ghost predicate MostlyGold(gold: seq<Span>, c: Chunk) {
    20 * |GoldChars(gold, c)| >= 7 * Max(1, c.size)
  }

  /** `n` characters out of so many, of at least one. */
  function Share(n: nat, all: int): real {
    n as real / Max(1, all) as real
  }

  /** The share of the span that the chunk holds. */
  ghost function HeldShare(s: Span, c: Chunk): real { Share(|Shared(s, c)|, s.end - s.start) }

  /** `best` is the largest share of a span of the document that the chunk holds, or zero. */
  ghost predicate IsBestShare(gold: seq<Span>, c: Chunk, best: real) {
    && (forall s :: s in gold && s.doc == c.doc ==> HeldShare(s, c) <= best)
    && (best == 0.0 || exists s :: s in gold && s.doc == c.doc && HeldShare(s, c) == best)
  }

  lemma {:induction false} BestCoverageIsBestShare(gold: seq<Span>, c: Chunk)
    ensures IsBestShare(gold, c, BestCoverage(gold, c)) && BestCoverage(gold, c) >= 0.0
  {
    if gold != [] {
      var init, s := gold[..|gold| - 1], gold[|gold| - 1];
      BestCoverageIsBestShare(init, c);
      assert gold == init + [s];
      if s.doc == c.doc {
        CoverageCounts(s, c);
        CoverageIsFraction(s, c);
        ShareAdded(init, s, c, BestCoverage(init, c), Coverage(s, c));
      }
    }
  }

  lemma ShareAdded(init: seq<Span>, s: Span, c: Chunk, best: real, own: real)
    requires IsBestShare(init, c, best) && s.doc == c.doc && HeldShare(s, c) == own
    ensures IsBestShare(init + [s], c, MaxReal(best, own))
  {
    var most := MaxReal(best, own);
    if most != own && most != 0.0 {
      var t :| t in init && t.doc == c.doc && HeldShare(t, c) == best;
      assert t in init + [s];
    } else {
      assert s in init + [s];
    }
  }

  function BestCoverage(spans: seq<Span>, c: Chunk): real {
    if spans == [] then 0.0
    else
      var s, best := spans[|spans| - 1], BestCoverage(spans[..|spans| - 1], c);
      if s.doc == c.doc then MaxReal(best, Coverage(s, c)) else best
  }

  /** The non-empty intersections of the chunk with the gold spans of its document. */
  function ChunkClips(spans: seq<Span>, c: Chunk): seq<Interval> {
    if spans == [] then []
    else
      var s := spans[|spans| - 1];
      ChunkClips(spans[..|spans| - 1], c) +
      (if s.doc == c.doc && Clip(s, c).start < Clip(s, c).end then [Clip(s, c)] else [])
  }

  function RelevantChars(spans: seq<Span>, c: Chunk): int {
    TotalLength(Merge(ChunkClips(spans, c)))
  }

  function Purity(spans: seq<Span>, c: Chunk): real {
    RelevantChars(spans, c) as real / Max(1, c.size) as real
  }

  datatype Overlap = Overlap(coverage: real, purity: real, f1: real, relevantChars: int, exact: bool)

  /** `evidence_overlap` */
  method EvidenceOverlap(gold: seq<Span>, c: Chunk) returns (r: Overlap)
    ensures r.coverage == BestCoverage(gold, c) && r.purity == Purity(gold, c)
    ensures r.f1 == F1(r.coverage, r.purity) && r.relevantChars == RelevantChars(gold, c)
    ensures r.exact <==> r.coverage >= 0.5 && r.purity >= 0.35
    ensures Measures(r, gold, c)
  {
    var intersections := [];
    var best := 0.0;
    for i := 0 to |gold|
      invariant intersections == ChunkClips(gold[..i], c) && best == BestCoverage(gold[..i], c)
    {
      assert gold[..i + 1][..i] == gold[..i];
      var span := gold[i];
      if span.doc != c.doc {
        continue;
      }
      var clip := Clip(span, c);
      if clip.start < clip.end {
        intersections := intersections + [clip];
      }
      best := MaxReal(best, Coverage(span, c));
    }
    assert gold[..|gold|] == gold;
    var merged := MergeIntervals(intersections);
    var relevant := TotalLength(merged);
    var purity := relevant as real / Max(1, c.size) as real;
    r := Overlap(best, purity, F1(best, purity), relevant, best >= 0.5 && purity >= 0.35);
    OverlapMeans(gold, c, r);
  }

  /** What the measures of a chunk mean, in counted characters: the largest share of a span, the gold characters
      for each character of the text, and whether half of a span is held and 35 % is gold. */
  ghost predicate Measures(r: Overlap, gold: seq<Span>, c: Chunk) {
    && IsBestShare(gold, c, r.coverage)
    && r.relevantChars == |GoldChars(gold, c)|
    && r.purity == Share(|GoldChars(gold, c)|, c.size)
    && (r.exact <==> (exists s :: s in gold && HalfHeld(s, c)) && MostlyGold(gold, c))
  }

  lemma OverlapMeans(gold: seq<Span>, c: Chunk, r: Overlap)
    requires r.coverage == BestCoverage(gold, c) && r.purity == Purity(gold, c) && r.f1 == F1(r.coverage, r.purity)
    requires r.relevantChars == RelevantChars(gold, c) && (r.exact <==> r.coverage >= 0.5 && r.purity >= 0.35)
    ensures Measures(r, gold, c)
  {
    BestCoverageIsBestShare(gold, c);
    HalfCovered(gold, c);
    PurityCounts(gold, c);
    PurityIsFraction(gold, c);
  }

  lemma HalfCovered(gold: seq<Span>, c: Chunk)
    ensures BestCoverage(gold, c) >= 0.5 <==> exists s :: s in gold && HalfHeld(s, c)
  {
    BestCoverageFacts(gold, c, 0.5);
    if BestCoverage(gold, c) >= 0.5 {
      var i :| 0 <= i < |gold| && gold[i].doc == c.doc && Coverage(gold[i], c) >= 0.5;
      CoverageCounts(gold[i], c);
      assert gold[i] in gold;
    }
    if s :| s in gold && HalfHeld(s, c) {
      var i :| 0 <= i < |gold| && gold[i] == s;
      CoverageCounts(s, c);
    }
  }

  lemma PurityCounts(gold: seq<Span>, c: Chunk)
    ensures RelevantChars(gold, c) == |GoldChars(gold, c)|
    ensures Purity(gold, c) == Share(|GoldChars(gold, c)|, c.size)
    ensures Purity(gold, c) >= 0.35 <==> MostlyGold(gold, c)
  {
    RelevantCharsCount(gold, c);
    Hundredths(|GoldChars(gold, c)|, Max(1, c.size));
  }

  lemma Hundredths(n: nat, d: nat)
    requires d > 0
    ensures n as real / d as real >= 0.35 <==> 20 * n >= 7 * d
  {
    DivAtLeast(n as real, d as real, 0.35);
  }

  /** `f` is the harmonic mean of `p` and `r`, or zero if both are. */
  ghost predicate IsHarmonicMean(f: real, p: real, r: real) {
    if p == r == 0.0 then f == 0.0 else f * (p + r) == p * r + p * r
  }

  lemma F1IsHarmonic(p: real, r: real)
    requires 0.0 <= p && 0.0 <= r
    ensures IsHarmonicMean(F1(p, r), p, r)
  {
    if p + r != 0.0 {
      Quotient(2.0 * p * r, p + r);
      DoubleProduct(p, r);
    }
  }

  /** `x` is a gold character of the chunk. */
  ghost predicate IsGold(gold: seq<Span>, c: Chunk, x: int) {
    c.start <= x < c.end && exists s :: s in gold && s.doc == c.doc && s.start <= x < s.end
  }

  lemma {:induction false} ChunkClipsPoints(gold: seq<Span>, c: Chunk, x: int)
    ensures InSome(ChunkClips(gold, c), x) <==> IsGold(gold, c, x)
  {
    if gold != [] {
      var init, s := gold[..|gold| - 1], gold[|gold| - 1];
      ChunkClipsPoints(init, c, x);
      assert gold == init + [s];
      InSomeSnoc(ChunkClips(init, c), Clip(s, c), x);
      assert In(Clip(s, c), x) <==> c.start <= x < c.end && s.start <= x < s.end;
      assert ChunkClips(init, c) + [] == ChunkClips(init, c);
      if IsGold(init, c, x) {
        var t :| t in init && t.doc == c.doc && t.start <= x < t.end;
        assert t in gold;
      }
    }
  }

  ghost function GoldChars(gold: seq<Span>, c: Chunk): set<int> {
    set x | c.start <= x < c.end && IsGold(gold, c, x)
  }

  /** `relevantChars` counts the gold characters of the chunk, each once however many spans hold it. */
  lemma RelevantCharsCount(gold: seq<Span>, c: Chunk)
    ensures RelevantChars(gold, c) == |GoldChars(gold, c)|
    ensures 0 <= RelevantChars(gold, c) <= Max(0, c.end - c.start)
  {
    forall x ensures InSome(ChunkClips(gold, c), x) <==> IsGold(gold, c, x) {
      ChunkClipsPoints(gold, c, x);
    }
    MergedLengthCountsPoints(ChunkClips(gold, c), c.start, c.end);
    assert Points(ChunkClips(gold, c), c.start, c.end) == GoldChars(gold, c);
    var whole := Interval(c.start, Max(c.start, c.end));
    RangeSize(whole);
    SubsetSize(GoldChars(gold, c), Range(whole));
  }

  lemma {:induction false} SubsetSize<T>(a: set<T>, b: set<T>)
    requires forall x :: x in a ==> x in b
    ensures |a| <= |b|
  {
    if a != {} {
      var x :| x in a;
      SubsetSize(a - {x}, b - {x});
    }
  }

  lemma {:induction false} BestCoverageFacts(gold: seq<Span>, c: Chunk, t: real)
    requires 0.0 < t
    ensures 0.0 <= BestCoverage(gold, c) <= 1.0
    ensures BestCoverage(gold, c) >= t <==>
      exists i :: 0 <= i < |gold| && gold[i].doc == c.doc && Coverage(gold[i], c) >= t
  {
    if gold != [] {
      var init, s := gold[..|gold| - 1], gold[|gold| - 1];
      BestCoverageFacts(init, c, t);
      CoverageIsFraction(s, c);
      if BestCoverage(init, c) >= t {
        var i :| 0 <= i < |init| && init[i].doc == c.doc && Coverage(init[i], c) >= t;
        assert gold[i] == init[i];
      }
      if i :| 0 <= i < |gold| && gold[i].doc == c.doc && Coverage(gold[i], c) >= t {
        assert i < |init| ==> gold[i] == init[i];
      }
    }
  }

  /** Purity is a fraction exactly when the text is at least as long as the gold characters of the range
      are many; it is whenever the text is as long as the range. */
  lemma PurityIsFraction(gold: seq<Span>, c: Chunk)
    ensures 0.0 <= Purity(gold, c)
    ensures Purity(gold, c) <= 1.0 <==> |GoldChars(gold, c)| <= Max(1, c.size)
    ensures c.end - c.start <= c.size ==> Purity(gold, c) <= 1.0
  {
    RelevantCharsCount(gold, c);
    DivAtMostOne(RelevantChars(gold, c) as real, Max(1, c.size) as real);
  }

  /** `matched_gold_span_indexes`, over the purity that `evidence_overlap` computes. */
  method MatchedGoldSpanIndexes(gold: seq<Span>, c: Chunk) returns (matched: set<nat>)
    ensures matched == MatchedIndexes(gold, c, |gold|)
    ensures AreMatched(matched, gold, c)
  {
    MatchesMean(gold, c);
    var overlap := EvidenceOverlap(gold, c);
    if overlap.purity < 0.35 {
      NothingMatches(gold, c, |gold|);
      return {};
    }
    matched := HalfHeldSpans(gold, c);
  }

  /** The loop over the spans. */
  method HalfHeldSpans(gold: seq<Span>, c: Chunk) returns (matched: set<nat>)
    requires Purity(gold, c) >= 0.35
    ensures matched == MatchedIndexes(gold, c, |gold|)
  {
    matched := {};
    for i := 0 to |gold|
      invariant matched == MatchedIndexes(gold, c, i)
    {
      if gold[i].doc != c.doc {
        continue;
      }
      if Coverage(gold[i], c) >= 0.5 {
        matched := matched + {i};
      }
    }
  }

  function MatchedIndexes(gold: seq<Span>, c: Chunk, n: nat): set<nat>
    requires n <= |gold|
  {
    if n == 0 then {}
    else
      MatchedIndexes(gold, c, n - 1) +
      if Matches(gold, c, n - 1) then {n - 1} else {}
  }

  predicate Matches(gold: seq<Span>, c: Chunk, i: nat)
    requires i < |gold|
  {
    gold[i].doc == c.doc && Coverage(gold[i], c) >= 0.5 && Purity(gold, c) >= 0.35
  }

  lemma {:induction false} NothingMatches(gold: seq<Span>, c: Chunk, n: nat)
    requires n <= |gold| && Purity(gold, c) < 0.35
    ensures MatchedIndexes(gold, c, n) == {}
  {
    if n > 0 {
      NothingMatches(gold, c, n - 1);
    }
  }

  lemma {:induction false} MatchedIndexesAre(gold: seq<Span>, c: Chunk, n: nat, i: nat)
    requires n <= |gold|
    ensures i in MatchedIndexes(gold, c, n) <==> i < n && Matches(gold, c, i)
  {
    if n > 0 {
      MatchedIndexesAre(gold, c, n - 1, i);
      InUnion(MatchedIndexes(gold, c, n - 1), Matches(gold, c, n - 1), n - 1, i);
    }
  }

  lemma InUnion(s: set<nat>, more: bool, m: nat, i: nat)
    ensures i in s + (if more then {m} else {}) <==> i in s || (more && i == m)
  {}

  /** These are the indexes of the spans half of which the chunk holds, if 35 % of it is gold, and else none. */
  ghost predicate AreMatched(matched: set<nat>, gold: seq<Span>, c: Chunk) {
    forall i: nat :: i in matched <==> i < |gold| && HalfHeld(gold[i], c) && MostlyGold(gold, c)
  }

  /** A span is matched when the chunk holds half of it and is 35 % gold. */
  lemma MatchesMean(gold: seq<Span>, c: Chunk)
    ensures AreMatched(MatchedIndexes(gold, c, |gold|), gold, c)
  {
    PurityCounts(gold, c);
    forall i: nat
      ensures i in MatchedIndexes(gold, c, |gold|) <==> i < |gold| && HalfHeld(gold[i], c) && MostlyGold(gold, c)
    {
      MatchedIndexesAre(gold, c, |gold|, i);
      if i < |gold| {
        CoverageCounts(gold[i], c);
      }
    }
  }

  /** Two tests of the same thing: a chunk is exact if and only if it matches some gold span. */
  lemma ExactIffMatched(gold: seq<Span>, c: Chunk)
    ensures BestCoverage(gold, c) >= 0.5 && Purity(gold, c) >= 0.35 <==> MatchedIndexes(gold, c, |gold|) != {}
  {
    BestCoverageFacts(gold, c, 0.5);
    if BestCoverage(gold, c) >= 0.5 && Purity(gold, c) >= 0.35 {
      var i :| 0 <= i < |gold| && gold[i].doc == c.doc && Coverage(gold[i], c) >= 0.5;
      MatchedIndexesAre(gold, c, |gold|, i);
    }
    if MatchedIndexes(gold, c, |gold|) != {} {
      var i :| i in MatchedIndexes(gold, c, |gold|);
      MatchedIndexesAre(gold, c, |gold|, i);
    }
  }

  // ---------------------------------------------------------------- a result list

  /** The parts of the span that the chunks of its document cover. */
  function SpanClips(s: Span, chunks: seq<Chunk>): seq<Interval> {
    if chunks == [] then []
    else
      var c := chunks[|chunks| - 1];
      SpanClips(s, chunks[..|chunks| - 1]) +
      (if c.doc == s.doc && Clip(s, c).start < Clip(s, c).end then [Clip(s, c)] else [])
  }

  function SpanCovered(s: Span, chunks: seq<Chunk>): int {
    TotalLength(Merge(SpanClips(s, chunks)))
  }

  function Covered(gold: seq<Span>, chunks: seq<Chunk>): int {
    if gold == [] then 0 else Covered(gold[..|gold| - 1], chunks) + SpanCovered(gold[|gold| - 1], chunks)
  }

  function GoldLength(gold: seq<Span>): int {
    if gold == [] then 0
    else GoldLength(gold[..|gold| - 1]) + Max(0, gold[|gold| - 1].end - gold[|gold| - 1].start)
  }

  function ContextChars(chunks: seq<Chunk>): nat {
    if chunks == [] then 0 else ContextChars(chunks[..|chunks| - 1]) + chunks[|chunks| - 1].size
  }

  function RelevantContext(gold: seq<Span>, chunks: seq<Chunk>): int {
    if chunks == [] then 0
    else RelevantContext(gold, chunks[..|chunks| - 1]) + RelevantChars(gold, chunks[|chunks| - 1])
  }

  function Recall(gold: seq<Span>, chunks: seq<Chunk>): real {
    Covered(gold, chunks) as real / Max(1, GoldLength(gold)) as real
  }

  function Precision(gold: seq<Span>, chunks: seq<Chunk>): real {
    RelevantContext(gold, chunks) as real / Max(1, ContextChars(chunks)) as real
  }

  function AtMostOne(x: real): real { if x < 1.0 then x else 1.0 }

  datatype SetMetrics = SetMetrics(recall: real, precision: real, f1: real, contextChars: nat)

  /** The inner loop of `evidence_set_metrics`: the characters of one span that the chunks cover. */
  method CoveredBy(span: Span, chunks: seq<Chunk>) returns (n: int)
    ensures n == SpanCovered(span, chunks)
  {
    var intervals := [];
    for j := 0 to |chunks|
      invariant intervals == SpanClips(span, chunks[..j])
    {
      assert chunks[..j + 1][..j] == chunks[..j];
      if chunks[j].doc != span.doc {
        continue;
      }
      var clip := Clip(span, chunks[j]);
      if clip.end > clip.start {
        intervals := intervals + [clip];
      }
    }
    assert chunks[..|chunks|] == chunks;
    var merged := MergeIntervals(intervals);
    n := TotalLength(merged);
  }

  method CoveredByAll(gold: seq<Span>, chunks: seq<Chunk>) returns (covered: int)
    ensures covered == Covered(gold, chunks)
  {
    covered := 0;
    for i := 0 to |gold|
      invariant covered == Covered(gold[..i], chunks)
    {
      assert gold[..i + 1][..i] == gold[..i];
      var n := CoveredBy(gold[i], chunks);
      covered := covered + n;
    }
    assert gold[..|gold|] == gold;
  }

  method RelevantInAll(gold: seq<Span>, chunks: seq<Chunk>) returns (relevant: int)
    ensures relevant == RelevantContext(gold, chunks)
  {
    relevant := 0;
    for j := 0 to |chunks|
      invariant relevant == RelevantContext(gold, chunks[..j])
    {
      assert chunks[..j + 1][..j] == chunks[..j];
      var overlap := EvidenceOverlap(gold, chunks[j]);
      relevant := relevant + overlap.relevantChars;
    }
    assert chunks[..|chunks|] == chunks;
  }

  /** `evidence_set_metrics` */
  method EvidenceSetMetrics(gold: seq<Span>, chunks: seq<Chunk>) returns (m: SetMetrics)
    ensures m.recall == AtMostOne(Recall(gold, chunks)) && m.precision == AtMostOne(Precision(gold, chunks))
    ensures m.f1 == AtMostOne(F1(Recall(gold, chunks), Precision(gold, chunks)))
    ensures m.contextChars == ContextChars(chunks)
  {
    var covered := CoveredByAll(gold, chunks);
    var relevant := RelevantInAll(gold, chunks);
    var contextChars := ContextChars(chunks);
    var recall := covered as real / Max(1, GoldLength(gold)) as real;
    var precision := relevant as real / Max(1, contextChars) as real;
    m := SetMetrics(AtMostOne(recall), AtMostOne(precision), AtMostOne(F1(recall, precision)), contextChars);
  }

  /** `x` is a character of the span that some chunk of its document holds. */
  ghost predicate IsCovered(s: Span, chunks: seq<Chunk>, x: int) {
    s.start <= x < s.end && exists c :: c in chunks && c.doc == s.doc && c.start <= x < c.end
  }

  lemma {:induction false} SpanClipsPoints(s: Span, chunks: seq<Chunk>, x: int)
    ensures InSome(SpanClips(s, chunks), x) <==> IsCovered(s, chunks, x)
  {
    if chunks != [] {
      var init, c := chunks[..|chunks| - 1], chunks[|chunks| - 1];
      SpanClipsPoints(s, init, x);
      assert chunks == init + [c];
      InSomeSnoc(SpanClips(s, init), Clip(s, c), x);
      assert In(Clip(s, c), x) <==> c.start <= x < c.end && s.start <= x < s.end;
      assert SpanClips(s, init) + [] == SpanClips(s, init);
      if IsCovered(s, init, x) {
        var d :| d in init && d.doc == s.doc && d.start <= x < d.end;
        assert d in chunks;
      }
    }
  }

  ghost function CoveredChars(s: Span, chunks: seq<Chunk>): set<int> {
    set x | s.start <= x < s.end && IsCovered(s, chunks, x)
  }

  /** What is counted for a span is its characters that some chunk holds, each once. */
  lemma SpanCoveredCounts(s: Span, chunks: seq<Chunk>)
    ensures SpanCovered(s, chunks) == |CoveredChars(s, chunks)|
    ensures 0 <= SpanCovered(s, chunks) <= Max(0, s.end - s.start)
  {
    forall x ensures InSome(SpanClips(s, chunks), x) <==> IsCovered(s, chunks, x) {
      SpanClipsPoints(s, chunks, x);
    }
    MergedLengthCountsPoints(SpanClips(s, chunks), s.start, s.end);
    assert Points(SpanClips(s, chunks), s.start, s.end) == CoveredChars(s, chunks);
    var whole := Interval(s.start, Max(s.start, s.end));
    RangeSize(whole);
    SubsetSize(CoveredChars(s, chunks), Range(whole));
  }

  ghost function CountAll<T>(items: seq<T>, count: T -> nat): nat {
    if items == [] then 0 else CountAll(items[..|items| - 1], count) + count(items[|items| - 1])
  }

  ghost function CharsOf(s: Span): set<int> {
    set x | s.start <= x < s.end && InSpan(s, x)
  }

  predicate InSpan(s: Span, x: int) { s.start <= x < s.end }

  /** How many characters of a span the chunks hold, and how many gold characters a chunk has. */
  ghost function CoveredCount(chunks: seq<Chunk>): Span -> nat {
    (s: Span) => |CoveredChars(s, chunks)|
  }

  ghost function SpanSize(): Span -> nat {
    (s: Span) => |CharsOf(s)|
  }

  ghost function GoldCount(gold: seq<Span>): Chunk -> nat {
    (c: Chunk) => |GoldChars(gold, c)|
  }

  ghost function TextSize(): Chunk -> nat {
    (c: Chunk) => c.size
  }

  lemma CharsOfSize(s: Span)
    ensures |CharsOf(s)| == Max(0, s.end - s.start)
  {
    var whole := Interval(s.start, Max(s.start, s.end));
    RangeSize(whole);
    assert Range(whole) == CharsOf(s);
  }

  lemma {:induction false} CoveredCounts(gold: seq<Span>, chunks: seq<Chunk>)
    ensures Covered(gold, chunks) == CountAll(gold, CoveredCount(chunks))
    ensures GoldLength(gold) == CountAll(gold, SpanSize())
  {
    if gold != [] {
      CoveredCounts(gold[..|gold| - 1], chunks);
      SpanCoveredCounts(gold[|gold| - 1], chunks);
      CharsOfSize(gold[|gold| - 1]);
    }
  }

  lemma {:induction false} RelevantCounts(gold: seq<Span>, chunks: seq<Chunk>)
    ensures RelevantContext(gold, chunks) == CountAll(chunks, GoldCount(gold))
    ensures ContextChars(chunks) == CountAll(chunks, TextSize())
  {
    if chunks != [] {
      RelevantCounts(gold, chunks[..|chunks| - 1]);
      RelevantCharsCount(gold, chunks[|chunks| - 1]);
    }
  }

  /** Recall and precision in counted characters: the gold characters that some chunk holds, out of all, and the
      gold characters of the chunks, out of the characters of their texts. */
  lemma RecallAndPrecisionCount(gold: seq<Span>, chunks: seq<Chunk>)
    ensures Recall(gold, chunks) == Share(CountAll(gold, CoveredCount(chunks)), CountAll(gold, SpanSize()))
    ensures Precision(gold, chunks) == Share(CountAll(chunks, GoldCount(gold)), CountAll(chunks, TextSize()))
  {
    CoveredCounts(gold, chunks);
    RelevantCounts(gold, chunks);
  }

  lemma {:induction false} CoveredBounds(gold: seq<Span>, chunks: seq<Chunk>)
    ensures 0 <= Covered(gold, chunks) <= GoldLength(gold)
  {
    if gold != [] {
      CoveredBounds(gold[..|gold| - 1], chunks);
      SpanCoveredCounts(gold[|gold| - 1], chunks);
    }
  }

  /** Evidence recall is a fraction, so the cap at one never changes it. */
  lemma RecallIsFraction(gold: seq<Span>, chunks: seq<Chunk>)
    ensures 0.0 <= Recall(gold, chunks) <= 1.0
    ensures AtMostOne(Recall(gold, chunks)) == Recall(gold, chunks)
  {
    CoveredBounds(gold, chunks);
    DivBounds(Covered(gold, chunks) as real, Max(1, GoldLength(gold)) as real);
  }

  lemma {:induction false} CoveredMonotone(gold: seq<Span>, a: seq<Chunk>, b: seq<Chunk>)
    requires forall c :: c in a ==> c in b
    ensures Covered(gold, a) <= Covered(gold, b)
  {
    if gold != [] {
      var s := gold[|gold| - 1];
      CoveredMonotone(gold[..|gold| - 1], a, b);
      SpanCoveredCounts(s, a);
      SpanCoveredCounts(s, b);
      SubsetSize(CoveredChars(s, a), CoveredChars(s, b));
    }
  }

  /** More chunks never lower the recall, and it depends on nothing but the set of chunks: neither
      their order nor repetitions matter. In particular recall@k grows with k. */
  lemma RecallIsMonotone(gold: seq<Span>, a: seq<Chunk>, b: seq<Chunk>)
    requires forall c :: c in a ==> c in b
    ensures Recall(gold, a) <= Recall(gold, b)
    ensures (forall c :: c in b ==> c in a) ==> Recall(gold, a) == Recall(gold, b)
  {
    RecallGrows(gold, a, b);
    if forall c :: c in b ==> c in a {
      CoveredMonotone(gold, a, b);
      CoveredMonotone(gold, b, a);
    }
  }

  lemma RecallGrows(gold: seq<Span>, a: seq<Chunk>, b: seq<Chunk>)
    requires forall c :: c in a ==> c in b
    ensures Recall(gold, a) <= Recall(gold, b)
  {
    CoveredMonotone(gold, a, b);
    DivMonotone(Covered(gold, a) as real, Covered(gold, b) as real, Max(1, GoldLength(gold)) as real);
  }

  lemma {:induction false} RelevantContextBounds(gold: seq<Span>, chunks: seq<Chunk>)
    requires forall c :: c in chunks ==> c.end - c.start <= c.size
    ensures 0 <= RelevantContext(gold, chunks) <= ContextChars(chunks)
  {
    if chunks != [] {
      RelevantContextBounds(gold, chunks[..|chunks| - 1]);
      RelevantCharsCount(gold, chunks[|chunks| - 1]);
    }
  }

  /** When every chunk text is at least as long as its range, precision and F1 are fractions too. */
  lemma SetMetricsAreFractions(gold: seq<Span>, chunks: seq<Chunk>)
    requires forall c :: c in chunks ==> c.end - c.start <= c.size
    ensures 0.0 <= Precision(gold, chunks) <= 1.0
    ensures 0.0 <= F1(Recall(gold, chunks), Precision(gold, chunks)) <= 1.0
  {
    RelevantContextBounds(gold, chunks);
    DivBounds(RelevantContext(gold, chunks) as real, Max(1, ContextChars(chunks)) as real);
    RecallIsFraction(gold, chunks);
    F1IsBetween(Recall(gold, chunks), Precision(gold, chunks));
  }
}
