/** Sentence spans, written twice in the repository: once for semantic chunking and once for the
    gold evidence builder. */
module Sentences {
  import opened Text
  import opened Windows

  /** The characters that end a sentence or clause. */
  predicate IsDelimiter(c: char) {
    || c == '\U{3002}' || c == '\U{FF01}' || c == '\U{FF1F}' || c == '!' || c == '?'
    || c == '\U{FF1B}' || c == ';' || c == '\n'
  }

  lemma DelimitersAre(c: char)
    ensures IsDelimiter(c) <==> c in "\U{3002}\U{FF01}\U{FF1F}!?\U{FF1B};\n"
  {}

  function NextDelimiter(text: string, i: nat): (d: nat)
    requires i <= |text|
    ensures i <= d <= |text| && (d < |text| ==> IsDelimiter(text[d]))
    decreases |text| - i
  {
    if i == |text| || IsDelimiter(text[i]) then i else NextDelimiter(text, i + 1)
  }

  function DelimiterRunEnd(text: string, i: nat): (e: nat)
    requires i <= |text|
    ensures i <= e <= |text| && (i < |text| && IsDelimiter(text[i]) ==> i < e)
    decreases |text| - i
  {
    if i == |text| || !IsDelimiter(text[i]) then i else DelimiterRunEnd(text, i + 1)
  }

  /** The untrimmed segment that starts at `start`: it runs through the next maximal run of
      delimiters, or to the end of the text. */
  function Segment(text: string, start: nat): (w: Window)
    requires start < |text|
    ensures w.start == start < w.end <= |text|
  {
    Window(start, DelimiterRunEnd(text, NextDelimiter(text, start)))
  }

  lemma {:induction false} NextDelimiterIsFirst(text: string, i: nat, k: nat)
    requires i <= |text| && i <= k < NextDelimiter(text, i)
    ensures !IsDelimiter(text[k])
    decreases k - i
  {
    if i < k {
      NextDelimiterIsFirst(text, i + 1, k);
    }
  }

  lemma {:induction false} RunIsDelimiters(text: string, i: nat, k: nat)
    requires i <= |text| && i <= k < DelimiterRunEnd(text, i)
    ensures IsDelimiter(text[k])
    decreases k - i
  {
    if i < k {
      RunIsDelimiters(text, i + 1, k);
    }
  }

  lemma {:induction false} RunEndStops(text: string, i: nat)
    requires i <= |text| && DelimiterRunEnd(text, i) < |text|
    ensures !IsDelimiter(text[DelimiterRunEnd(text, i)])
    decreases |text| - i
  {
    if i < |text| && IsDelimiter(text[i]) {
      RunEndStops(text, i + 1);
    }
  }

  /** A segment is a stretch without delimiters followed by a maximal run of them. */
  lemma SegmentShape(text: string, start: nat)
    requires start < |text|
    ensures var w, d := Segment(text, start), NextDelimiter(text, start);
      && d <= w.end
      && (forall k :: start <= k < d ==> !IsDelimiter(text[k]))
      && (forall k :: d <= k < w.end ==> IsDelimiter(text[k]))
      && (w.end < |text| ==> d < w.end && !IsDelimiter(text[w.end]))
  {
    var w, d := Segment(text, start), NextDelimiter(text, start);
    forall k | start <= k < d ensures !IsDelimiter(text[k]) {
      NextDelimiterIsFirst(text, start, k);
    }
    forall k | d <= k < w.end ensures IsDelimiter(text[k]) {
      RunIsDelimiters(text, d, k);
    }
    if w.end < |text| {
      RunEndStops(text, d);
    }
  }

  /** The sentences from `start` on: the trimmed rows of the segments that are not blank. */
  function PiecesFrom(text: string, start: nat): seq<Piece>
    requires start <= |text|
    decreases |text| - start
  {
    if start == |text| then []
    else Trimmed(text, Segment(text, start)) + PiecesFrom(text, Segment(text, start).end)
  }

  function SentencePieces(text: string): seq<Piece> {
    PiecesFrom(text, 0)
  }

  lemma {:induction false} NextDelimiterAt(text: string, i: nat, d: nat)
    requires i <= d <= |text| && forall k :: i <= k < d ==> !IsDelimiter(text[k])
    requires d < |text| ==> IsDelimiter(text[d])
    ensures NextDelimiter(text, i) == d
    decreases d - i
  {
    if i < d {
      NextDelimiterAt(text, i + 1, d);
    }
  }

  lemma {:induction false} RunEndAt(text: string, i: nat, e: nat)
    requires i <= e <= |text| && forall k :: i <= k < e ==> IsDelimiter(text[k])
    requires e < |text| ==> !IsDelimiter(text[e])
    ensures DelimiterRunEnd(text, i) == e
    decreases e - i
  {
    if i < e {
      RunEndAt(text, i + 1, e);
    }
  }

  /** A trimmed stretch without delimiters, together with the run of them behind it, is a sentence. */
  lemma NextPiece(text: string, start: nat, d: nat, end: nat)
    requires start < end <= |text| && start <= d <= end && IsTrimmed(text[start..end])
    requires forall k :: start <= k < d ==> !IsDelimiter(text[k])
    requires forall k :: d <= k < end ==> IsDelimiter(text[k])
    requires end < |text| ==> d < end && !IsDelimiter(text[end])
    ensures PiecesFrom(text, start) == [Piece(text[start..end], start, end)] + PiecesFrom(text, end)
  {
    NextDelimiterAt(text, start, d);
    RunEndAt(text, d, end);
    assert Segment(text, start) == Window(start, end);
    TrimmedWhole(text, Window(start, end), text[start..end]);
  }

  lemma TrimmedWhole(text: string, w: Window, raw: string)
    requires w.start < w.end <= |text| && raw == text[w.start..w.end] && IsTrimmed(raw)
    ensures Trimmed(text, w) == [Piece(raw, w.start, w.end)]
  {
    StripOfTrimmed(raw);
    LeadSpaceIs(raw, 0);
    TrimEndIs(raw, |raw|);
  }

  /** Rows do not overlap and come in text order. */
  ghost predicate Ordered(rows: seq<Piece>) {
    forall i, j :: 0 <= i < j < |rows| ==> rows[i].end <= rows[j].start
  }

  lemma {:induction false} PiecesFromOrdered(text: string, start: nat)
    requires start <= |text|
    ensures Ordered(PiecesFrom(text, start))
    ensures forall p :: p in PiecesFrom(text, start) ==> IsPiece(text, p) && start <= p.start
    decreases |text| - start
  {
    if start < |text| {
      PiecesFromOrdered(text, Segment(text, start).end);
      TrimmedIsPiece(text, Segment(text, start));
    }
  }

  lemma {:induction false} PiecesFromCover(text: string, start: nat, i: nat)
    requires start <= i < |text| && !IsSpace(text[i])
    ensures Covered(PiecesFrom(text, start), i)
    decreases |text| - start
  {
    var w := Segment(text, start);
    if i < w.end {
      TrimmedCovers(text, w, i);
      var p :| p in Trimmed(text, w) && InPiece(p, i);
      assert p in PiecesFrom(text, start);
    } else {
      PiecesFromCover(text, w.end, i);
      var p :| p in PiecesFrom(text, w.end) && InPiece(p, i);
      assert p in PiecesFrom(text, start);
    }
  }

  /** Sentences are exact trimmed slices, disjoint and in order, and hold all content. */
  lemma SentencePiecesPartition(text: string)
    ensures Ordered(SentencePieces(text)) && CoversText(text, SentencePieces(text))
    ensures forall p :: p in SentencePieces(text) ==> IsPiece(text, p)
  {
    PiecesFromOrdered(text, 0);
    forall i | 0 <= i < |text| && !IsSpace(text[i]) ensures Covered(SentencePieces(text), i) {
      PiecesFromCover(text, 0, i);
    }
  }

  lemma LastPieces(text: string, start: nat)
    requires start <= |text| && NextDelimiter(text, start) == |text|
    ensures text[start..] == text[start..|text|]
    ensures PiecesFrom(text, start) == if start < |text| then Trimmed(text, Window(start, |text|)) else []
  {}

  /** The semantic chunker's loop over delimiter runs. */
  method SemanticSentenceSpans(text: string) returns (spans: seq<Piece>)
    ensures spans == SentencePieces(text)
  {
    spans := [];
    var start := 0;
    var next := NextDelimiter(text, start);
    while next < |text|
      invariant start <= |text| && next == NextDelimiter(text, start)
      invariant spans + PiecesFrom(text, start) == PiecesFrom(text, 0)
      decreases |text| - start
    {
      var end := DelimiterRunEnd(text, next);
      spans := spans + Trimmed(text, Window(start, end));
      start := end;
      next := NextDelimiter(text, start);
    }
    LastPieces(text, start);
    if start < |text| {
      spans := spans + Trimmed(text, Window(start, |text|));
    }
  }

  /** The offsets the gold builder records for the segment from `start` to `end`. */
  function SpanAt(text: string, w: Window): seq<Window>
    requires w.start <= w.end <= |text|
  {
    var raw := text[w.start..w.end];
    if Strip(raw) == "" then [] else [Window(w.start + LeadSpace(raw), w.start + TrimEnd(raw))]
  }

  function SpansFrom(text: string, start: nat): seq<Window>
    requires start <= |text|
    decreases |text| - start
  {
    if start == |text| then []
    else SpanAt(text, Segment(text, start)) + SpansFrom(text, Segment(text, start).end)
  }

  lemma SpansNext(text: string, start: nat, end: nat)
    requires start <= |text| && NextDelimiter(text, start) < |text|
    requires end == DelimiterRunEnd(text, NextDelimiter(text, start))
    ensures start < end <= |text| && SpansFrom(text, start) == SpanAt(text, Window(start, end)) + SpansFrom(text, end)
  {
    assert Segment(text, start) == Window(start, end);
  }

  /** The gold builder's loop: it keeps offsets only, and measures the last sentence against the
      whole text. */
  method SentenceSpans(text: string) returns (spans: seq<Window>)
    ensures spans == SpansFrom(text, 0)
  {
    spans := [];
    var start := 0;
    var next := NextDelimiter(text, start);
    while next < |text|
      invariant start <= |text| && next == NextDelimiter(text, start)
      invariant spans + SpansFrom(text, start) == SpansFrom(text, 0)
      decreases |text| - start
    {
      var end := DelimiterRunEnd(text, next);
      SpansNext(text, start, end);
      Reassociate(spans, SpanAt(text, Window(start, end)), SpansFrom(text, end));
      spans := spans + SpanAt(text, Window(start, end));
      start := end;
      next := NextDelimiter(text, start);
    }
    LastSpan(text, start);
    spans := spans + TailSpan(text, start);
  }

  /** What is recorded for the text after the last delimiter. */
  function TailSpan(text: string, start: nat): seq<Window>
    requires start <= |text|
  {
    var last := text[start..|text|];
    if Strip(last) == "" then [] else [Window(start + LeadSpace(last), TrimEnd(text))]
  }

  lemma LastSpan(text: string, start: nat)
    requires start <= |text| && NextDelimiter(text, start) == |text|
    ensures SpansFrom(text, start) == TailSpan(text, start)
  {
    if start < |text| {
      OneSpan(text, start);
      TailIsSpan(text, start);
    } else {
      assert text[start..|text|] == "" && SpansFrom(text, start) == [];
    }
  }

  lemma TailIsSpan(text: string, start: nat)
    requires start <= |text|
    ensures SpanAt(text, Window(start, |text|)) == TailSpan(text, start)
  {
    var last := text[start..|text|];
    if Strip(last) != "" {
      assert last == text[start..];
      LastTrimEnd(text, start, last);
    }
  }

  lemma OneSpan(text: string, start: nat)
    requires start < |text| && NextDelimiter(text, start) == |text|
    ensures SpansFrom(text, start) == SpanAt(text, Window(start, |text|))
  {
    assert Segment(text, start) == Window(start, |text|);
    assert SpansFrom(text, |text|) == [];
  }

  lemma LastTrimEnd(text: string, start: nat, raw: string)
    requires start <= |text| && raw == text[start..] && Strip(raw) != ""
    ensures TrimEnd(text) == start + TrimEnd(raw)
  {
    TrimEndIs(raw, TrimEnd(raw));
    TailShift(text, start, raw, TrimEnd(raw));
    TrimEndIs(text, start + TrimEnd(raw));
  }

  lemma TailShift(text: string, start: nat, raw: string, n: nat)
    requires start <= |text| && raw == text[start..] && IsTail(raw, n) && n > 0
    ensures IsTail(text, start + n)
  {
    assert text[start + n - 1] == raw[n - 1];
    forall i | start + n <= i < |text| ensures IsSpace(text[i]) {
      assert raw[i - start] == text[i];
    }
  }

  /** Both implementations find the same spans. */
  lemma {:induction false} SameSpans(text: string, start: nat)
    requires start <= |text|
    ensures var rows, spans := PiecesFrom(text, start), SpansFrom(text, start);
      && |rows| == |spans|
      && forall k :: 0 <= k < |rows| ==> spans[k] == Window(rows[k].start, rows[k].end)
    decreases |text| - start
  {
    if start < |text| {
      SameSpans(text, Segment(text, start).end);
    }
  }
}
