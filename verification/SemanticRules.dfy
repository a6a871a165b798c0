/** What the semantic chunker does, told without its own helper functions: when a group of sentences is closed,
    where the next one starts, and what the percentile of the distances is. */
module SemanticRules {
  import opened Text
  import opened Windows
  import opened Sentences
  import opened Semantic
  import Sorting
  import Reals

  // ---------------------------------------------------------------- the break rule

  /** A length of at least 80 characters, and at least these two. */
  predicate Reaches(length: int, a: int, b: int) {
    length >= 80 && length >= a && length >= b
  }

  /** Told from the options: a group of that length is closed before the sentence that would make it `next` long
      if that would be longer than the maximal size; if the topic changes there, and the group has the minimal
      size and 55 % of the target size, rounded down; or if it has the target size and 85 % of the maximal one.
      The target size is at least 80, the maximal size at least that, the minimal size from 40 to the target. */
  predicate MustClose(o: Options, length: int, next: int, topicChange: bool) {
    || (next > 80 && next > o.targetSize && next > o.maxSize)
    || (topicChange && length >= 40 && (length >= o.minSize || Reaches(length, o.targetSize, 80))
        && 100 * (length + 1) > 55 * 80 && 100 * (length + 1) > 55 * o.targetSize)
    || (Reaches(length, o.targetSize, 80)
        && 100 * (length + 1) > 85 * 80 && 100 * (length + 1) > 85 * o.targetSize
        && 100 * (length + 1) > 85 * o.maxSize)
  }

  /** The topic changes before a sentence when its distance from the one before reaches the threshold. */
  predicate TopicChanges(distances: seq<real>, threshold: real, cursor: nat) {
    0 < cursor <= |distances| && distances[cursor - 1] >= threshold
  }

  lemma BreakRule(rows: seq<Piece>, o: Options, distances: seq<real>, threshold: real, first: nat, cursor: nat)
    requires first < cursor < |rows|
    ensures Breaks(rows, Correct(o), distances, threshold, first, cursor) <==>
      MustClose(o, rows[cursor - 1].end - rows[first].start, rows[cursor].end - rows[first].start,
                TopicChanges(distances, threshold, cursor))
  {}

  /** Whether the group from sentence `first` must be closed before sentence `cursor`. */
  predicate ClosesBefore(rows: seq<Piece>, o: Options, distances: seq<real>, threshold: real, first: nat, cursor: nat)
    requires first < cursor < |rows|
  {
    MustClose(o, rows[cursor - 1].end - rows[first].start, rows[cursor].end - rows[first].start,
              TopicChanges(distances, threshold, cursor))
  }

  /** Where each group starts: the first with the first sentence; a later one as many sentences before the end of the
      previous one as may overlap, but after its start. */
  lemma WhereGroupsStart(rows: seq<Piece>, o: Options, distances: seq<real>, threshold: real, gs: seq<Group>, i: nat)
    requires GroupRun(rows, Correct(o), distances, threshold, gs) && i < |gs|
    ensures gs[i].first < gs[i].last <= |rows|
    ensures i == 0 ==> gs[i].first == 0
    ensures i > 0 ==>
      var p, overlap := gs[i - 1], if o.overlap > 0 then o.overlap else 0;
      && p.last < |rows| && p.first < gs[i].first <= p.last <= gs[i].last
      && gs[i].first >= p.last - overlap
      && (gs[i].first == p.last - overlap || gs[i].first == p.first + 1)
  {
    RunPrefix(rows, Correct(o), distances, threshold, gs, i + 1);
    if i > 0 {
      RunPrefix(rows, Correct(o), distances, threshold, gs, i);
      NotTheLast(rows, Correct(o), distances, threshold, gs, i);
    }
  }

  /** Where each group ends: with the last sentence, or at the first place, from the end of the previous group on, at
      which it must be closed. */
  lemma WhereGroupsEnd(rows: seq<Piece>, o: Options, distances: seq<real>, threshold: real, gs: seq<Group>, i: nat,
                       c: nat)
    requires GroupRun(rows, Correct(o), distances, threshold, gs) && i < |gs|
    ensures gs[i].first < gs[i].last <= |rows|
    ensures gs[i].last < |rows| ==> ClosesBefore(rows, o, distances, threshold, gs[i].first, gs[i].last)
    ensures gs[i].first < c < gs[i].last && (i > 0 ==> gs[i - 1].last <= c) ==>
      !ClosesBefore(rows, o, distances, threshold, gs[i].first, c)
  {
    RunPrefix(rows, Correct(o), distances, threshold, gs, i + 1);
    assert i > 0 ==> gs[..i][i - 1] == gs[i - 1];
    Ends(rows, o, distances, threshold, gs[..i], gs[i], c);
  }

  lemma Ends(rows: seq<Piece>, o: Options, distances: seq<real>, threshold: real, prev: seq<Group>, g: Group, c: nat)
    requires Closes(rows, Correct(o), distances, threshold, prev, g)
    ensures g.first < g.last <= |rows|
    ensures g.last < |rows| ==> ClosesBefore(rows, o, distances, threshold, g.first, g.last)
    ensures g.first < c < g.last && (prev != [] ==> prev[|prev| - 1].last <= c) ==>
      !ClosesBefore(rows, o, distances, threshold, g.first, c)
  {
    if g.last < |rows| {
      BreakRule(rows, o, distances, threshold, g.first, g.last);
    }
    if g.first < c < g.last && (prev != [] ==> prev[|prev| - 1].last <= c) {
      NoBreakAt(rows, Correct(o), distances, threshold, g.first, Entry(prev, g.first), g.last, c);
      BreakRule(rows, o, distances, threshold, g.first, c);
    }
  }

  lemma {:induction false} NotTheLast(rows: seq<Piece>, o: Limits, distances: seq<real>, threshold: real,
                                      gs: seq<Group>, i: nat)
    requires GroupRun(rows, o, distances, threshold, gs) && 0 < i < |gs|
    ensures gs[i - 1].last < |rows|
  {
    if i < |gs| - 1 {
      NotTheLast(rows, o, distances, threshold, gs[..|gs| - 1], i);
    }
  }

  /** A piece of several sentences is the text from the start of its first one to the end of its last one. */
  lemma WhatPiecesAre(text: string, rows: seq<Piece>, o: Limits, gs: seq<Group>, out: seq<Piece>, i: nat)
    requires RowsOf(text, rows, o, gs, out) && i < |gs|
    ensures |out| == |gs| && gs[i].first < gs[i].last <= |rows|
    ensures out[i].start == rows[gs[i].first].start && out[i].end == rows[gs[i].last - 1].end && IsPiece(text, out[i])
  {
    RowsOfAt(text, rows, o, gs, out, i);
  }

  // ---------------------------------------------------------------- short texts

  lemma {:induction false} WithinText(text: string, rows: seq<Piece>, a: nat, b: nat)
    requires SentenceRows(text, rows) && a <= b < |rows|
    ensures 0 <= rows[a].start < rows[b].end <= |text|
  {
    RowAt(text, rows, a);
    RowAt(text, rows, b);
    if a < b {
      RowOrder(text, rows, a, b);
    }
  }

  /** Whatever the options and the model are, a text of several sentences that is shorter than 40 characters stays
      in one piece. */
  lemma ShortTextStaysWhole(text: string, o: Options, percentile: real, model: (string, string) -> real,
                            gs: seq<Group>, out: seq<Piece>)
    requires IsTrimmed(text) && |text| < 40 && |SentencePieces(text)| > 1
    requires IsGrouping(text, o, percentile, model, gs, out)
    ensures out == [Piece(text, 0, |text|)]
  {
    var rows := SentencePieces(text);
    var d := Distances(model, rows);
    SentencePiecesPartition(text);
    AreSentenceRows(text, rows);
    OneGroup(text, rows, o, d, Cutoff(d, percentile), gs);
    WhatPiecesAre(text, rows, Correct(o), gs, out, 0);
    WholeSpan(text, rows);
    assert text[0..|text|] == text;
  }

  lemma OneGroup(text: string, rows: seq<Piece>, o: Options, d: seq<real>, t: real, gs: seq<Group>)
    requires |text| < 40 && SentenceRows(text, rows) && rows != []
    requires GroupRun(rows, Correct(o), d, t, gs) && gs != [] && gs[|gs| - 1].last == |rows|
    ensures gs == [Group(0, |rows|)]
  {
    WhereGroupsStart(rows, o, d, t, gs, 0);
    WhereGroupsEnd(rows, o, d, t, gs, 0, 0);
    if gs[0].last < |rows| {
      WithinText(text, rows, gs[0].first, gs[0].last);
      WithinText(text, rows, gs[0].first, gs[0].last - 1);
      assert false;
    }
    LastSentenceEnds(rows, Correct(o), d, t, gs, 0);
  }

  /** The sentences of a trimmed text start and end where it does. */
  lemma WholeSpan(text: string, rows: seq<Piece>)
    requires IsTrimmed(text) && SentenceRows(text, rows) && CoversText(text, rows) && rows != []
    ensures rows[0].start == 0 && rows[|rows| - 1].end == |text|
  {
    RowAt(text, rows, 0);
    RowAt(text, rows, |rows| - 1);
    assert Covered(rows, 0) && Covered(rows, |text| - 1);
    var p :| p in rows && InPiece(p, 0);
    var q :| q in rows && InPiece(q, |text| - 1);
    var i :| 0 <= i < |rows| && rows[i] == p;
    var j :| 0 <= j < |rows| && rows[j] == q;
    RowAt(text, rows, i);
    RowAt(text, rows, j);
    if i > 0 {
      RowOrder(text, rows, 0, i);
    }
  }

  // ---------------------------------------------------------------- neighbours

  /** Two neighbouring pieces between which the topic does not change, and without overlap, are together longer than
      the target size, and than 80 characters. */
  lemma NeighboursDoNotFit(text: string, rows: seq<Piece>, o: Options, d: seq<real>, t: real, gs: seq<Group>,
                           out: seq<Piece>, i: nat)
    requires SentenceRows(text, rows) && GroupRun(rows, Correct(o), d, t, gs) && RowsOf(text, rows, Correct(o), gs, out)
    requires i + 1 < |gs| && o.overlap <= 0 && !TopicChanges(d, t, gs[i].last)
    ensures |out| == |gs| && out[i + 1].end - out[i].start > 80 && out[i + 1].end - out[i].start > o.targetSize
  {
    NeighbourRows(text, rows, Correct(o), gs, out, i);
    TooLongTogether(text, rows, o, d, t, gs, i, out[i + 1].end - out[i].start);
  }

  lemma NeighbourRows(text: string, rows: seq<Piece>, o: Limits, gs: seq<Group>, out: seq<Piece>, i: nat)
    requires RowsOf(text, rows, o, gs, out) && i + 1 < |gs|
    ensures |out| == |gs| && gs[i].first < |rows| && 0 < gs[i + 1].last <= |rows|
    ensures out[i + 1].end - out[i].start == rows[gs[i + 1].last - 1].end - rows[gs[i].first].start
  {
    WhatPiecesAre(text, rows, o, gs, out, i);
    WhatPiecesAre(text, rows, o, gs, out, i + 1);
  }

  lemma TooLongTogether(text: string, rows: seq<Piece>, o: Options, d: seq<real>, t: real, gs: seq<Group>, i: nat,
                        length: int)
    requires SentenceRows(text, rows) && GroupRun(rows, Correct(o), d, t, gs) && i + 1 < |gs| && o.overlap <= 0
    requires !TopicChanges(d, t, gs[i].last) && gs[i].first < |rows| && 0 < gs[i + 1].last <= |rows|
    requires length == rows[gs[i + 1].last - 1].end - rows[gs[i].first].start
    ensures length > 80 && length > o.targetSize
  {
    WhereGroupsEnd(rows, o, d, t, gs, i, 0);
    WhereGroupsStart(rows, o, d, t, gs, i + 1);
    LaterEnds(text, rows, gs[i].last, gs[i + 1].last - 1);
    LaterEnds(text, rows, gs[i].last - 1, gs[i + 1].last - 1);
  }

  lemma LaterEnds(text: string, rows: seq<Piece>, a: nat, b: nat)
    requires SentenceRows(text, rows) && a <= b < |rows|
    ensures rows[a].end <= rows[b].end && (a < b ==> rows[a].end < rows[b].end)
  {
    RowAt(text, rows, b);
    if a < b {
      RowOrder(text, rows, a, b);
    }
  }

  // ---------------------------------------------------------------- distances and their percentile

  /** The distance at place `i` is the one between sentence `i` and the next, in this order. */
  lemma {:induction false} DistancesAre(model: (string, string) -> real, rows: seq<Piece>, i: nat)
    requires i + 1 < |rows|
    ensures |Distances(model, rows)| == |rows| - 1
    ensures Distances(model, rows)[i] == model(rows[i].text, rows[i + 1].text)
  {
    if i + 2 < |rows| {
      DistancesAre(model, rows[..|rows| - 1], i);
    }
  }

  /** The point that is reached from `a` after the part `t` of the way to `b`. */
  function OnLine(a: real, b: real, t: real): real { a + t * (b - a) }

  /** The percentile of values that are listed in increasing order: at a rank between two places it lies on the line
      between the values there. */
  lemma PercentileIs(values: seq<real>, ordered: seq<real>, q: real, rank: real, lo: int, hi: int)
    requires values != [] && multiset(ordered) == multiset(values) && Sorting.SortedBy(LeqReal, ordered)
    requires 0.0 <= q <= 1.0 && rank == Rank(|values| - 1, q)
    requires lo as real <= rank < lo as real + 1.0 && hi as real - 1.0 < rank <= hi as real
    ensures |ordered| == |values| && 0 <= lo <= hi < |ordered|
    ensures Percentile(values, q) == OnLine(ordered[lo], ordered[hi], rank - lo as real)
  {
    IsSortOf(values, ordered);
    PercentileAt(values, ordered, q, rank);
    Places(rank, |values| - 1, lo, hi);
    AtPlaces(ordered, rank, lo, hi);
  }

  /** The rank is the given part of the last place. */
  lemma RankIs(n: nat, q: real)
    requires 0.0 <= q <= 1.0
    ensures Rank(n, q) == q * n as real && Rank(n, 1.0) == n as real && Rank(n, 0.0) == 0.0
  {}

  lemma PercentileAt(values: seq<real>, ordered: seq<real>, q: real, rank: real)
    requires values != [] && ordered == Sorting.Sort(values, LeqReal) && |ordered| == |values| && 0.0 <= q <= 1.0
    requires rank == Rank(|values| - 1, q)
    ensures Percentile(values, q) == AtPosition(ordered, rank)
  {}

  lemma IsSortOf(values: seq<real>, ordered: seq<real>)
    requires multiset(ordered) == multiset(values) && Sorting.SortedBy(LeqReal, ordered)
    ensures ordered == Sorting.Sort(values, LeqReal) && |ordered| == |values|
  {
    assert |ordered| == |multiset(ordered)| == |multiset(values)| == |values|;
    RealOrder();
    Sorting.SortSorts(values, LeqReal);
    Sorting.SortedUnique(ordered, Sorting.Sort(values, LeqReal), LeqReal);
  }

  lemma AtPlaces(ordered: seq<real>, rank: real, lo: int, hi: int)
    requires 0.0 <= rank <= (|ordered| - 1) as real && rank.Floor == lo && -((-rank).Floor) == hi
    requires 0 <= lo <= hi < |ordered| && (hi == lo || hi == lo + 1) && (hi == lo ==> rank == lo as real)
    ensures AtPosition(ordered, rank) == OnLine(ordered[lo], ordered[hi], rank - lo as real)
  {
    OnTheLine(ordered[lo], ordered[hi], rank - lo as real);
  }

  lemma RealOrder()
    ensures Sorting.TotalOrder(LeqReal) && Sorting.Antisymmetric(LeqReal)
  {}

  lemma Places(rank: real, n: nat, lo: int, hi: int)
    requires 0.0 <= rank <= n as real && lo as real <= rank < lo as real + 1.0 && hi as real - 1.0 < rank <= hi as real
    ensures rank.Floor == lo && -((-rank).Floor) == hi && 0 <= lo <= hi <= n && (hi == lo || hi == lo + 1)
    ensures hi == lo ==> rank == lo as real
  {}

  lemma OnTheLine(a: real, b: real, t: real)
    ensures Mix(a, b, 1.0 - t, t) == OnLine(a, b, t)
    ensures t == 0.0 ==> OnLine(a, b, t) == a
  {
    Reals.Subtract(1.0, t, a);
    Reals.Subtract(b, a, t);
  }

  /** The percentage is taken between 0 and 100: from 100 on the threshold is a largest distance, up to 0 a least
      one, and the same percentage of the ranks else. */
  lemma CutoffIs(distances: seq<real>, percentile: real, q: real)
    ensures 0.0 <= q <= 1.0 && percentile == 100.0 * q ==> Cutoff(distances, percentile) == Percentile(distances, q)
    ensures percentile >= 100.0 ==> Cutoff(distances, percentile) == Percentile(distances, 1.0)
    ensures percentile <= 0.0 ==> Cutoff(distances, percentile) == Percentile(distances, 0.0)
    ensures 0.0 <= q <= 1.0 ==> Percentile([], q) == 0.0
  {}
}
