/** Gold evidence windows: at most four windows of at most 500 characters around the search terms of
    a query. The text and the terms are lower-case already. */
module GoldSpans {
  import opened Text
  import opened Windows
  import opened Integers
  import opened Sentences
  import opened Sorting

  /** A window and the number of distinct terms its sentence holds. */
  datatype Hit = Hit(start: int, end: int, terms: nat)

  /** `[term for term in terms if term and term in sentence]` */
  function Matched(sentence: string, terms: seq<string>): seq<string> {
    if terms == [] then []
    else (if terms[0] != "" && Find(sentence, terms[0], 0) >= 0 then [terms[0]] else []) + Matched(sentence, terms[1..])
  }

  lemma {:induction false} MatchedAreFound(sentence: string, terms: seq<string>)
    ensures forall t :: t in Matched(sentence, terms) <==> t in terms && t != "" && Find(sentence, t, 0) >= 0
  {
    if terms != [] {
      MatchedAreFound(sentence, terms[1..]);
    }
  }

  /** `min(sentence.find(term) for term in matched)` */
  function Earliest(sentence: string, matched: seq<string>): int
    requires matched != []
  {
    var p := Find(sentence, matched[0], 0);
    if |matched| == 1 then p else Min(p, Earliest(sentence, matched[1..]))
  }

  lemma {:induction false} EarliestIs(sentence: string, matched: seq<string>)
    requires matched != []
    ensures exists t :: t in matched && Earliest(sentence, matched) == Find(sentence, t, 0)
    ensures forall t :: t in matched ==> Earliest(sentence, matched) <= Find(sentence, t, 0)
  {
    assert matched[0] in matched;
    if |matched| > 1 {
      EarliestIs(sentence, matched[1..]);
      var t :| t in matched[1..] && Earliest(sentence, matched[1..]) == Find(sentence, t, 0);
      assert t in matched;
    }
  }

  /** The evidence window of a sentence that spans `start` to `end`, around offset `centre`. */
  function WindowAround(start: int, end: int, centre: int): (int, int) {
    if end - start <= 500 then (start, end)
    else
      var windowStart := Max(start, centre - 180);
      var windowEnd := Min(end, windowStart + 500);
      if windowEnd - windowStart < 500 then (Max(start, windowEnd - 500), windowEnd) else (windowStart, windowEnd)
  }

  /** Windows stay inside their sentence, have 500 characters unless the sentence has fewer, and hold
      the centre and everything up to 320 characters behind it that the sentence holds. */
  lemma WindowAroundFacts(start: int, end: int, centre: int)
    requires start <= centre < end
    ensures var (s, e) := WindowAround(start, end, centre);
      && start <= s <= centre < e <= end
      && e - s == Min(500, end - start)
      && Min(end, centre + 320) <= e
  {}

  /** The rows of the sentences in `spans`: one for each that holds a term. */
  function RowsOf(text: string, base: int, terms: seq<string>, spans: seq<Window>): seq<Hit> {
    if spans == [] then []
    else RowsOf(text, base, terms, spans[..|spans| - 1]) + RowOf(text, base, terms, spans[|spans| - 1])
  }

  function RowOf(text: string, base: int, terms: seq<string>, w: Window): seq<Hit> {
    if !(w.start < w.end <= |text|) then [] else SentenceHit(text[w.start..w.end], base + w.start, terms)
  }

  /** The row of a sentence at offset `start`, if it holds a term. */
  function SentenceHit(sentence: string, start: int, terms: seq<string>): seq<Hit> {
    var matched := Matched(sentence, terms);
    if matched == [] then []
    else
      var w := WindowAround(start, start + |sentence|, start + Earliest(sentence, matched));
      [Hit(w.0, w.1, |set t | t in matched|)]
  }

  /** The hit is the window around the earliest term of the sentence at offset `start`. */
  ghost predicate IsHitOf(sentence: string, start: int, terms: seq<string>, h: Hit) {
    && start <= h.start < h.end <= start + |sentence|
    && h.end - h.start == Min(500, |sentence|)
    && HasFirstTerm(sentence, terms, h.start - start, h.end - start)
  }

  /** The hit is the window around the earliest term of sentence `w`. */
  ghost predicate IsHit(text: string, base: int, terms: seq<string>, w: Window, h: Hit) {
    w.start < w.end <= |text| && IsHitOf(text[w.start..w.end], base + w.start, terms, h)
  }

  ghost predicate HasFirstTerm(sentence: string, terms: seq<string>, from: int, to: int) {
    exists t :: FirstTerm(sentence, terms, t, from, to)
  }

  /** `t` is a term of the sentence, none occurs before it, it starts between `from` and `to`, and it
      ends there too unless it is longer than 320 characters. */
  ghost predicate FirstTerm(sentence: string, terms: seq<string>, t: string, from: int, to: int) {
    var p := Find(sentence, t, 0);
    && t in terms && t != "" && p >= 0
    && (forall u :: u in terms && u != "" && Find(sentence, u, 0) >= 0 ==> p <= Find(sentence, u, 0))
    && from <= p < to
    && (|t| <= 320 ==> p + |t| <= to)
  }

  lemma RowOfIsHit(text: string, base: int, terms: seq<string>, w: Window)
    requires w.start < w.end <= |text|
    ensures forall h :: h in RowOf(text, base, terms, w) ==> IsHit(text, base, terms, w, h)
  {
    SentenceHitIsHit(text[w.start..w.end], base + w.start, terms);
  }

  lemma SentenceHitIsHit(sentence: string, start: int, terms: seq<string>)
    requires sentence != ""
    ensures forall h :: h in SentenceHit(sentence, start, terms) ==> IsHitOf(sentence, start, terms, h)
  {
    var matched := Matched(sentence, terms);
    if matched != [] {
      MatchedAreFound(sentence, terms);
      EarliestIs(sentence, matched);
      var t :| t in matched && Earliest(sentence, matched) == Find(sentence, t, 0);
      HitAround(sentence, start, terms, matched, t, Find(sentence, t, 0));
    }
  }

  lemma HitAround(sentence: string, start: int, terms: seq<string>, matched: seq<string>, t: string, p: int)
    requires matched == Matched(sentence, terms) && t in matched && t != ""
    requires p == Find(sentence, t, 0) == Earliest(sentence, matched) && p >= 0
    ensures var w := WindowAround(start, start + |sentence|, start + p);
      forall n: nat :: IsHitOf(sentence, start, terms, Hit(w.0, w.1, n))
  {
    assert At(sentence, t, p);
    WindowAroundFacts(start, start + |sentence|, start + p);
    var w := WindowAround(start, start + |sentence|, start + p);
    EarliestIsFirst(sentence, terms, matched, t, w.0 - start, w.1 - start);
  }

  /** A sentence without a row holds none of the terms. */
  lemma NoHitExactlyWhen(sentence: string, start: int, terms: seq<string>)
    ensures SentenceHit(sentence, start, terms) == [] <==>
      forall t :: t in terms && t != "" ==> Find(sentence, t, 0) < 0
  {
    var matched := Matched(sentence, terms);
    MatchedAreFound(sentence, terms);
    assert matched != [] ==> matched[0] in matched;
    if matched == [] {
      forall t | t in terms && t != "" ensures Find(sentence, t, 0) < 0 {
        assert t !in matched;
      }
    }
  }

  lemma EarliestIsFirst(sentence: string, terms: seq<string>, matched: seq<string>, t: string, from: int, to: int)
    requires matched == Matched(sentence, terms) && t in matched
    requires Earliest(sentence, matched) == Find(sentence, t, 0)
    requires from <= Find(sentence, t, 0) < to && Min(|sentence|, Find(sentence, t, 0) + 320) <= to
    ensures HasFirstTerm(sentence, terms, from, to)
  {
    MatchedAreFound(sentence, terms);
    EarliestIs(sentence, matched);
    assert At(sentence, t, Find(sentence, t, 0));
    assert FirstTerm(sentence, terms, t, from, to);
  }

  // ---------------------------------------------------------------- ranking

  /** Most terms first, then by position. */
  predicate Ranks(a: Hit, b: Hit) {
    a.terms > b.terms || (a.terms == b.terms && (a.start < b.start || (a.start == b.start && a.end <= b.end)))
  }

  /** By position, then by the number of terms. */
  predicate Precedes(a: Hit, b: Hit) {
    a.start < b.start || (a.start == b.start && (a.end < b.end || (a.end == b.end && a.terms <= b.terms)))
  }

  predicate Apart(a: Hit, b: Hit) {
    Max(a.start, b.start) >= Min(a.end, b.end)
  }

  /** Spans in text order that do not overlap. */
  ghost predicate Disjoint(spans: seq<Window>) {
    forall i, j :: 0 <= i < j < |spans| ==> spans[i].end <= spans[j].start
  }

  /** `h` is a hit of one of the sentences. */
  ghost predicate HitOfSome(text: string, base: int, terms: seq<string>, spans: seq<Window>, h: Hit) {
    exists w :: w in spans && IsHit(text, base, terms, w, h)
  }

  lemma {:induction false} RowsAreHits(text: string, base: int, terms: seq<string>, spans: seq<Window>)
    requires forall w :: w in spans ==> w.start < w.end <= |text|
    ensures forall h :: h in RowsOf(text, base, terms, spans) ==> HitOfSome(text, base, terms, spans, h)
  {
    if spans != [] {
      var init, last := spans[..|spans| - 1], spans[|spans| - 1];
      assert last in spans && forall w :: w in init ==> w in spans;
      RowsAreHits(text, base, terms, init);
      RowOfIsHit(text, base, terms, last);
      forall h | h in RowsOf(text, base, terms, init) ensures HitOfSome(text, base, terms, spans, h) {
        assert HitOfSome(text, base, terms, init, h);
      }
    }
  }

  lemma HitsApart(text: string, base: int, terms: seq<string>, spans: seq<Window>, h: Hit, g: Hit)
    requires spans != [] && Disjoint(spans)
    requires HitOfSome(text, base, terms, spans[..|spans| - 1], h) && IsHit(text, base, terms, spans[|spans| - 1], g)
    ensures Apart(h, g)
  {
    var init := spans[..|spans| - 1];
    var w :| w in init && IsHit(text, base, terms, w, h);
    var i :| 0 <= i < |init| && init[i] == w;
    assert spans[i].end <= spans[|spans| - 1].start;
  }

  lemma {:induction false} RowsAreApart(text: string, base: int, terms: seq<string>, spans: seq<Window>)
    requires Disjoint(spans) && forall w :: w in spans ==> w.start < w.end <= |text|
    ensures Pairwise(Apart, RowsOf(text, base, terms, spans))
  {
    if spans != [] {
      var init, last := spans[..|spans| - 1], spans[|spans| - 1];
      assert forall w :: w in init ==> w in spans;
      RowsAreApart(text, base, terms, init);
      RowsAreHits(text, base, terms, init);
      RowOfIsHit(text, base, terms, last);
      forall h, g | h in RowsOf(text, base, terms, init) && g in RowOf(text, base, terms, last) ensures Apart(h, g) {
        HitsApart(text, base, terms, spans, h, g);
      }
    }
  }

  lemma SpansAreDisjoint(text: string)
    ensures Disjoint(SpansFrom(text, 0))
    ensures forall w :: w in SpansFrom(text, 0) ==> w.start < w.end <= |text|
  {
    SameSpans(text, 0);
    SentencePiecesPartition(text);
    forall w | w in SpansFrom(text, 0) ensures w.start < w.end <= |text| {
      var k :| 0 <= k < |SpansFrom(text, 0)| && SpansFrom(text, 0)[k] == w;
      assert SentencePieces(text)[k] in SentencePieces(text);
    }
  }

  /** The rows of a text in rank order. */
  function Ranked(text: string, base: int, terms: seq<string>): seq<Hit> {
    Sort(RowsOf(text, base, terms, SpansFrom(text, 0)), Ranks)
  }

  /** `compact_term_windows`. The overlap test never rejects a row, so the result is exactly the four
      best rows, listed by position. */
  method CompactTermWindows(text: string, base: int, terms: seq<string>) returns (result: seq<Hit>)
    ensures var ranked := Ranked(text, base, terms);
      result == Sort(ranked[..Min(4, |ranked|)], Precedes)
  {
    var spans := SentenceSpans(text);
    var rows := CollectRows(text, base, terms, spans);
    SpansAreDisjoint(text);
    RowsAreApart(text, base, terms, spans);
    ApartStaysPairwise(rows);
    rows := Sort(rows, Ranks);
    var selected := SelectApart(rows);
    result := Sort(selected, Precedes);
  }

  method CollectRows(text: string, base: int, terms: seq<string>, spans: seq<Window>) returns (rows: seq<Hit>)
    ensures rows == RowsOf(text, base, terms, spans)
  {
    rows := [];
    for i := 0 to |spans|
      invariant rows == RowsOf(text, base, terms, spans[..i])
    {
      assert spans[..i + 1][..i] == spans[..i];
      rows := rows + RowOf(text, base, terms, spans[i]);
    }
    assert spans[..|spans|] == spans;
  }

  lemma ApartStaysPairwise(rows: seq<Hit>)
    requires Pairwise(Apart, rows)
    ensures Pairwise(Apart, Sort(rows, Ranks))
  {
    SortKeepsPairwise(rows, Ranks, Apart);
  }

  /** The greedy selection of rows that do not overlap one another, up to four. */
  method SelectApart(rows: seq<Hit>) returns (selected: seq<Hit>)
    requires Pairwise(Apart, rows)
    ensures selected == rows[..Min(4, |rows|)]
  {
    selected := [];
    for i := 0 to |rows|
      invariant selected == rows[..i] && i <= 4 && (i == 4 ==> |rows| == 4)
    {
      if exists k :: 0 <= k < |selected| && !Apart(rows[i], selected[k]) {
        continue;
      }
      selected := selected + [rows[i]];
      if |selected| >= 4 {
        break;
      }
    }
  }

  /** Every result is the window around the earliest term of one sentence, and results do not
      overlap. */
  lemma ResultsAreHits(text: string, base: int, terms: seq<string>)
    ensures forall h :: h in Ranked(text, base, terms) ==> HitOfSome(text, base, terms, SpansFrom(text, 0), h)
    ensures Pairwise(Apart, Ranked(text, base, terms))
    ensures SortedBy(Ranks, Ranked(text, base, terms))
  {
    SpansAreDisjoint(text);
    var rows := RowsOf(text, base, terms, SpansFrom(text, 0));
    RowsAreHits(text, base, terms, SpansFrom(text, 0));
    RowsAreApart(text, base, terms, SpansFrom(text, 0));
    ApartStaysPairwise(rows);
    SortKeepsMembers(rows, Ranks);
    SortSorts(rows, Ranks);
  }
}
