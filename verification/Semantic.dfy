/** Semantic chunking: adjacent sentences are grouped, and groups are cut where the embedding
    distance jumps or a size limit is reached. The embedding model is an arbitrary distance
    function between neighbouring sentences. */
module Semantic {
  import opened Optional
  import opened Text
  import opened Windows
  import opened Integers
  import opened Sentences
  import Sorting
  import Reals

  // ---------------------------------------------------------------- percentile

  predicate LeqReal(x: real, y: real) { x <= y }

  /** The fractional rank of the `q` quantile in a sorted list with last index `n`. */
  function Rank(n: nat, q: real): (pos: real)
    requires 0.0 <= q <= 1.0
    ensures 0.0 <= pos <= n as real
  {
    Reals.MulNonNegative(n as real, q);
    Reals.MulMonotone(q, 1.0, n as real);
    n as real * q
  }

  /** Linear interpolation between the two neighbouring order statistics. */
  function Percentile(values: seq<real>, q: real): real
    requires 0.0 <= q <= 1.0
  {
    if values == [] then 0.0
    else
      var ordered := Sorting.Sort(values, LeqReal);
      AtPosition(ordered, Rank(|ordered| - 1, q))
  }

  /** The value at a fractional rank, between the next lower and the next higher one. */
  function AtPosition(ordered: seq<real>, pos: real): real
    requires 0.0 <= pos <= (|ordered| - 1) as real
  {
    Interpolate(ordered, pos, pos.Floor, -((-pos).Floor))
  }

  function Interpolate(ordered: seq<real>, pos: real, lo: int, hi: int): real
    requires 0 <= lo <= hi < |ordered|
  {
    if lo == hi then ordered[lo]
    else Mix(ordered[lo], ordered[hi], hi as real - pos, pos - lo as real)
  }

  function Mix(a: real, b: real, u: real, t: real): real {
    a * u + b * t
  }

  lemma MixMonotone(a: real, b: real, u: real, t: real)
    requires a <= b && 0.0 <= u && 0.0 <= t
    ensures Mix(a, a, u, t) <= Mix(a, b, u, t) <= Mix(b, b, u, t)
  {
    Reals.MulMonotone(a, b, u);
    Reals.MulMonotone(a, b, t);
  }

  lemma MixSame(a: real, u: real, t: real)
    requires u + t == 1.0
    ensures Mix(a, a, u, t) == a
  {
    Reals.WholeOf(a, u, t);
  }

  lemma MixIsBetween(a: real, b: real, u: real, t: real)
    requires a <= b && 0.0 <= u && 0.0 <= t && u + t == 1.0
    ensures a <= Mix(a, b, u, t) <= b
  {
    MixMonotone(a, b, u, t);
    MixSame(a, u, t);
    MixSame(b, u, t);
  }

  /** The value at a position lies between two of the ordered values. */
  lemma InterpolateBetween(ordered: seq<real>, pos: real) returns (lo: nat, hi: nat)
    requires Sorting.SortedBy(LeqReal, ordered) && 0.0 <= pos <= (|ordered| - 1) as real
    ensures lo < |ordered| && hi < |ordered| && ordered[lo] <= AtPosition(ordered, pos) <= ordered[hi]
  {
    lo, hi := pos.Floor, -((-pos).Floor);
    if lo != hi {
      assert LeqReal(ordered[lo], ordered[hi]);
      MixIsBetween(ordered[lo], ordered[hi], hi as real - pos, pos - lo as real);
    }
  }

  lemma SortedMember(values: seq<real>, k: int)
    requires 0 <= k < |Sorting.Sort(values, LeqReal)|
    ensures Sorting.Sort(values, LeqReal)[k] in values
  {
    Sorting.SortKeepsMembers(values, LeqReal);
  }

  /** Interpolation at any position stays between two of the values. */
  lemma PositionBetween(values: seq<real>, ordered: seq<real>, pos: real) returns (low: real, high: real)
    requires ordered == Sorting.Sort(values, LeqReal) && 0.0 <= pos <= (|ordered| - 1) as real
    ensures low in values && high in values
    ensures low <= AtPosition(ordered, pos) <= high
  {
    Sorting.SortSorts(values, LeqReal);
    var lo, hi := InterpolateBetween(ordered, pos);
    SortedMember(values, lo);
    SortedMember(values, hi);
    low, high := ordered[lo], ordered[hi];
  }


  lemma PercentileBetween(values: seq<real>, q: real) returns (low: real, high: real)
    requires 0.0 <= q <= 1.0 && values != []
    ensures low in values && high in values && low <= Percentile(values, q) <= high
  {
    var ordered := Sorting.Sort(values, LeqReal);
    low, high := PositionBetween(values, ordered, Rank(|ordered| - 1, q));
  }

  /** A percentile never exceeds the largest value: some value reaches it. */
  lemma PercentileIsReached(values: seq<real>, q: real)
    requires 0.0 <= q <= 1.0 && values != []
    ensures exists v :: v in values && Percentile(values, q) <= v
    ensures exists v :: v in values && v <= Percentile(values, q)
  {
    var low, high := PercentileBetween(values, q);
  }

  // ---------------------------------------------------------------- options

  datatype Options = Options(targetSize: int, maxSize: int, minSize: int, overlap: int)

  /** The limits the scan works with: the options after correction, and the two derived lengths. */
  datatype Limits = Limits(targetSize: int, maxSize: int, minSize: int, overlap: int,
                           semanticFloor: int, softFloor: int)

  function Correct(o: Options): Limits {
    var target := Max(80, o.targetSize);
    var max := Max(target, o.maxSize);
    Limits(target, max, Max(40, Min(o.minSize, target)), Max(0, o.overlap), target * 55 / 100, max * 85 / 100)
  }

  /** `distances >= percentile` marks sentence `index + 1` as a topic change. */
  predicate IsBoundary(distances: seq<real>, threshold: real, cursor: int) {
    1 <= cursor <= |distances| && distances[cursor - 1] >= threshold
  }

  /** Whether the group that starts at sentence `first` is closed before sentence `cursor`. */
  predicate Breaks(rows: seq<Piece>, o: Limits, distances: seq<real>, threshold: real, first: nat, cursor: nat)
    requires first < cursor <= |rows|
  {
    cursor < |rows| &&
    var length := rows[cursor - 1].end - rows[first].start;
    || rows[cursor].end - rows[first].start > o.maxSize
    || (IsBoundary(distances, threshold, cursor) && length >= o.minSize && length >= o.semanticFloor)
    || (length >= o.targetSize && length >= o.softFloor)
  }

  // ---------------------------------------------------------------- groups

  /** Sentences `first` up to but not including `last`. */
  datatype Group = Group(first: nat, last: nat)

  function NextFirst(g: Group, overlap: nat): nat {
    Max(g.first + 1, g.last - overlap)
  }

  /** Where the scan for the end of a group begins. */
  function Entry(gs: seq<Group>, first: nat): nat {
    if gs == [] then 1 else Max(gs[|gs| - 1].last, first + 1)
  }

  /** Groups as the scan produces them: each starts `overlap` sentences before the previous one
      ended but later than it started, and is closed at the first break at or after its entry. Once a
      group holds the last sentence there is no other. */
  ghost predicate GroupRun(rows: seq<Piece>, o: Limits, distances: seq<real>, threshold: real, gs: seq<Group>) {
    gs != [] ==>
      var prev, g := gs[..|gs| - 1], gs[|gs| - 1];
      && GroupRun(rows, o, distances, threshold, prev)
      && (prev != [] ==> prev[|prev| - 1].last < |rows|)
      && Closes(rows, o, distances, threshold, prev, g)
  }

  /** After the groups `prev`, `g` is the next one. */
  ghost predicate Closes(rows: seq<Piece>, o: Limits, distances: seq<real>, threshold: real, prev: seq<Group>,
                         g: Group)
  {
    && 0 <= o.overlap && g.first < g.last <= |rows|
    && g.first == (if prev == [] then 0 else NextFirst(prev[|prev| - 1], o.overlap))
    && Entry(prev, g.first) <= g.last
    && (g.last == |rows| || Breaks(rows, o, distances, threshold, g.first, g.last))
    && NoBreakBefore(rows, o, distances, threshold, g.first, Entry(prev, g.first), g.last)
  }

  ghost predicate NoBreakBefore(rows: seq<Piece>, o: Limits, distances: seq<real>, threshold: real,
                                first: nat, lo: nat, hi: nat)
    requires first < lo && hi <= |rows|
  {
    lo < hi ==>
      && NoBreakBefore(rows, o, distances, threshold, first, lo, hi - 1)
      && !Breaks(rows, o, distances, threshold, first, hi - 1)
  }

  lemma {:induction false} NoBreakAt(rows: seq<Piece>, o: Limits, distances: seq<real>, threshold: real,
                                      first: nat, lo: nat, hi: nat, c: nat)
    requires first < lo <= c < hi <= |rows| && NoBreakBefore(rows, o, distances, threshold, first, lo, hi)
    ensures !Breaks(rows, o, distances, threshold, first, c)
  {
    if c < hi - 1 {
      NoBreakAt(rows, o, distances, threshold, first, lo, hi - 1, c);
    }
  }

  function GroupPiece(text: string, rows: seq<Piece>, g: Group): Piece
    requires g.first < g.last <= |rows|
    requires rows[g.first].start <= rows[g.last - 1].end <= |text|
  {
    var start, end := rows[g.first].start, rows[g.last - 1].end;
    Piece(Strip(text[start..end]), start, end)
  }

  /** Exact rows in text order, as `SentencePieces` yields them. */
  ghost predicate SentenceRows(text: string, rows: seq<Piece>) {
    rows != [] ==>
      var prev, last := rows[..|rows| - 1], rows[|rows| - 1];
      && SentenceRows(text, prev) && IsPiece(text, last)
      && (prev != [] ==> prev[|prev| - 1].end <= last.start)
  }

  lemma {:induction false} AreSentenceRows(text: string, rows: seq<Piece>)
    requires Ordered(rows) && forall p :: p in rows ==> IsPiece(text, p)
    ensures SentenceRows(text, rows)
  {
    if rows != [] {
      assert rows[|rows| - 1] in rows;
      AreSentenceRows(text, rows[..|rows| - 1]);
    }
  }

  lemma {:induction false} RowAt(text: string, rows: seq<Piece>, k: nat)
    requires SentenceRows(text, rows) && k < |rows|
    ensures IsPiece(text, rows[k])
    ensures rows[k].start < rows[k].end <= rows[|rows| - 1].end <= |text|
    ensures k < |rows| - 1 ==> rows[k].end <= rows[|rows| - 1].start
  {
    if k < |rows| - 1 {
      RowAt(text, rows[..|rows| - 1], k);
      RowAt(text, rows[..|rows| - 1], |rows| - 2);
    }
  }

  lemma {:induction false} RowOrder(text: string, rows: seq<Piece>, i: nat, j: nat)
    requires SentenceRows(text, rows) && i < j < |rows|
    ensures rows[i].end <= rows[j].start
  {
    if j == |rows| - 1 {
      RowAt(text, rows, i);
    } else {
      RowOrder(text, rows[..|rows| - 1], i, j);
    }
  }

  /** A run of whole sentences is itself an exact, trimmed slice. */
  lemma GroupPieceIsPiece(text: string, rows: seq<Piece>, g: Group)
    requires SentenceRows(text, rows) && g.first < g.last <= |rows|
    ensures rows[g.first].start < rows[g.last - 1].end <= |text|
    ensures IsPiece(text, GroupPiece(text, rows, g))
  {
    var first, last := g.first, g.last - 1;
    RowAt(text, rows, first);
    RowAt(text, rows, last);
    if first < last {
      RowOrder(text, rows, first, last);
    }
    TrimmedSpan(text, rows[first], rows[last]);
  }

  lemma TrimmedSpan(text: string, f: Piece, l: Piece)
    requires IsPiece(text, f) && IsPiece(text, l) && f.start < l.end
    ensures IsPiece(text, Piece(Strip(text[f.start..l.end]), f.start, l.end))
  {
    var raw := text[f.start..l.end];
    assert raw[0] == text[f.start] == f.text[0];
    assert raw[|raw| - 1] == text[l.end - 1] == l.text[|l.text| - 1];
    StripOfTrimmed(raw);
  }

  /** Either one sentence, or within the size limit. */
  predicate Bounded(rows: seq<Piece>, o: Limits, first: nat, cursor: nat)
    requires first < cursor <= |rows|
  {
    cursor == first + 1 || rows[cursor - 1].end - rows[first].start <= o.maxSize
  }

  /** The i-th row is the i-th group. */
  ghost predicate RowsOf(text: string, rows: seq<Piece>, o: Limits, gs: seq<Group>, out: seq<Piece>) {
    && |out| == |gs|
    && (gs != [] ==>
          var k := |gs| - 1;
          RowsOf(text, rows, o, gs[..k], out[..k]) && IsGroupRow(text, rows, o, gs[k], out[k]))
  }

  lemma {:induction false} RowsOfAt(text: string, rows: seq<Piece>, o: Limits, gs: seq<Group>, out: seq<Piece>, i: nat)
    requires RowsOf(text, rows, o, gs, out) && i < |gs|
    ensures IsGroupRow(text, rows, o, gs[i], out[i])
  {
    if i < |gs| - 1 {
      RowsOfAt(text, rows, o, gs[..|gs| - 1], out[..|gs| - 1], i);
    }
  }

  lemma ClosedGroupRow(text: string, rows: seq<Piece>, o: Limits, g: Group)
    requires SentenceRows(text, rows) && g.first < g.last <= |rows| && Bounded(rows, o, g.first, g.last)
    ensures rows[g.first].start < rows[g.last - 1].end <= |text|
    ensures GroupPiece(text, rows, g).text != ""
    ensures IsGroupRow(text, rows, o, g, GroupPiece(text, rows, g))
  {
    GroupPieceIsPiece(text, rows, g);
  }

  /** The open group: where it starts, how far the scan has come, and that nothing has closed it. */
  ghost predicate Scanning(rows: seq<Piece>, o: Limits, distances: seq<real>, threshold: real,
                           gs: seq<Group>, groupStart: nat, cursor: nat)
  {
    && 0 <= o.overlap && groupStart < cursor <= |rows|
    && (gs != [] ==> gs[|gs| - 1].last < |rows|)
    && groupStart == (if gs == [] then 0 else NextFirst(gs[|gs| - 1], o.overlap))
    && Entry(gs, groupStart) <= cursor
    && NoBreakBefore(rows, o, distances, threshold, groupStart, Entry(gs, groupStart), cursor)
    && Bounded(rows, o, groupStart, cursor)
  }

  lemma ScanOn(text: string, rows: seq<Piece>, o: Limits, distances: seq<real>, threshold: real,
               gs: seq<Group>, out: seq<Piece>, groupStart: nat, cursor: nat)
    requires Grouping(text, rows, o, distances, threshold, gs, out, groupStart, cursor)
    requires cursor < |rows| && !Breaks(rows, o, distances, threshold, groupStart, cursor)
    ensures Grouping(text, rows, o, distances, threshold, gs, out, groupStart, cursor + 1)
  {}

  lemma CloseGroup(text: string, rows: seq<Piece>, o: Limits, distances: seq<real>, threshold: real,
                   gs: seq<Group>, out: seq<Piece>, g: Group)
    requires SentenceRows(text, rows)
    requires Grouping(text, rows, o, distances, threshold, gs, out, g.first, g.last)
    requires g.last == |rows| || Breaks(rows, o, distances, threshold, g.first, g.last)
    ensures rows[g.first].start < rows[g.last - 1].end <= |text| && GroupPiece(text, rows, g).text != ""
    ensures GroupRun(rows, o, distances, threshold, gs + [g])
    ensures RowsOf(text, rows, o, gs + [g], out + [GroupPiece(text, rows, g)])
    ensures var first := NextFirst(g, o.overlap);
      g.last < |rows| ==>
        Grouping(text, rows, o, distances, threshold, gs + [g], out + [GroupPiece(text, rows, g)], first,
          Max(g.last, first + 1))
  {
    if g.last < |rows| {
      OpenGroup(text, rows, o, distances, threshold, gs, g);
    }
    ClosedGroupRow(text, rows, o, g);
    assert (gs + [g])[..|gs|] == gs && (out + [GroupPiece(text, rows, g)])[..|gs|] == out;
  }

  lemma OpenGroup(text: string, rows: seq<Piece>, o: Limits, distances: seq<real>, threshold: real,
                  gs: seq<Group>, g: Group)
    requires SentenceRows(text, rows) && 0 <= o.overlap
    requires g.first < g.last < |rows| && Bounded(rows, o, g.first, g.last)
    ensures var first := NextFirst(g, o.overlap);
      Scanning(rows, o, distances, threshold, gs + [g], first, Max(g.last, first + 1))
  {
    BoundedSuffix(text, rows, o, g.first, NextFirst(g, o.overlap), g.last);
  }

  lemma BoundedSuffix(text: string, rows: seq<Piece>, o: Limits, first: nat, next: nat, cursor: nat)
    requires SentenceRows(text, rows) && first < next <= cursor < |rows| && Bounded(rows, o, first, cursor)
    ensures next < cursor ==> Bounded(rows, o, next, cursor)
  {
    RowAt(text, rows, first);
    RowOrder(text, rows, first, next);
  }

  /** What holds between two steps of the scan. */
  ghost predicate Grouping(text: string, rows: seq<Piece>, o: Limits, distances: seq<real>, threshold: real,
                           gs: seq<Group>, out: seq<Piece>, groupStart: nat, cursor: nat)
  {
    && GroupRun(rows, o, distances, threshold, gs) && RowsOf(text, rows, o, gs, out)
    && Scanning(rows, o, distances, threshold, gs, groupStart, cursor)
  }

  /** The scan groups all sentences. `gs` lists the groups. */
  method GroupSentences(text: string, rows: seq<Piece>, o: Limits, distances: seq<real>, threshold: real)
    returns (out: seq<Piece>, ghost gs: seq<Group>)
    requires SentenceRows(text, rows) && rows != [] && 0 <= o.overlap
    ensures GroupRun(rows, o, distances, threshold, gs) && RowsOf(text, rows, o, gs, out)
    ensures gs != [] && gs[|gs| - 1].last == |rows|
  {
    out, gs := [], [];
    var groupStart: nat, cursor: nat := 0, 1;
    while cursor <= |rows|
      invariant groupStart < cursor <= |rows|
        && Grouping(text, rows, o, distances, threshold, gs, out, groupStart, cursor)
      decreases |rows| - groupStart, |rows| - cursor
    {
      var atEnd := cursor == |rows|;
      if atEnd || Breaks(rows, o, distances, threshold, groupStart, cursor) {
        var g := Group(groupStart, cursor);
        CloseGroup(text, rows, o, distances, threshold, gs, out, g);
        var piece := GroupPiece(text, rows, g);
        out, gs := if piece.text != "" then out + [piece] else out, gs + [g];
        if atEnd {
          break;
        }
        groupStart := NextFirst(g, o.overlap);
        cursor := Max(cursor, groupStart + 1);
      } else {
        ScanOn(text, rows, o, distances, threshold, gs, out, groupStart, cursor);
        cursor := cursor + 1;
      }
    }
  }

  ghost predicate IsGroupRow(text: string, rows: seq<Piece>, o: Limits, g: Group, p: Piece) {
    && g.first < g.last <= |rows| && IsPiece(text, p)
    && p.start == rows[g.first].start && p.end == rows[g.last - 1].end
    && Bounded(rows, o, g.first, g.last)
  }

  lemma {:induction false} RunPrefix(rows: seq<Piece>, o: Limits, distances: seq<real>, threshold: real, gs: seq<Group>,
                                     n: nat)
    requires GroupRun(rows, o, distances, threshold, gs) && 0 < n <= |gs|
    ensures Closes(rows, o, distances, threshold, gs[..n - 1], gs[n - 1])
  {
    if n < |gs| {
      RunPrefix(rows, o, distances, threshold, gs[..|gs| - 1], n);
      assert gs[..|gs| - 1][..n - 1] == gs[..n - 1];
    }
  }

  /** The break rule leaves no choice: two runs agree as far as both go. */
  lemma {:induction false} RunsAgree(rows: seq<Piece>, o: Limits, distances: seq<real>, threshold: real,
                                      a: seq<Group>, b: seq<Group>, n: nat)
    requires GroupRun(rows, o, distances, threshold, a) && GroupRun(rows, o, distances, threshold, b) && n <= |a|
      && n <= |b|
    ensures a[..n] == b[..n]
  {
    if n > 0 {
      RunsAgree(rows, o, distances, threshold, a, b, n - 1);
      RunPrefix(rows, o, distances, threshold, a, n);
      RunPrefix(rows, o, distances, threshold, b, n);
      SameClose(rows, o, distances, threshold, a[..n - 1], a[n - 1], b[n - 1]);
      PrefixNext(a, n);
      PrefixNext(b, n);
    }
  }

  lemma PrefixNext(gs: seq<Group>, n: nat)
    requires 0 < n <= |gs|
    ensures gs[..n] == gs[..n - 1] + [gs[n - 1]]
  {}

  lemma SameClose(rows: seq<Piece>, o: Limits, distances: seq<real>, threshold: real, prev: seq<Group>, g: Group,
                  h: Group)
    requires Closes(rows, o, distances, threshold, prev, g) && Closes(rows, o, distances, threshold, prev, h)
    ensures g == h
  {
    if g.last < h.last {
      NoBreakAt(rows, o, distances, threshold, h.first, Entry(prev, h.first), h.last, g.last);
    } else if h.last < g.last {
      NoBreakAt(rows, o, distances, threshold, g.first, Entry(prev, g.first), g.last, h.last);
    }
  }

  lemma {:induction false} LastSentenceEnds(rows: seq<Piece>, o: Limits, distances: seq<real>, threshold: real,
                                             gs: seq<Group>, i: nat)
    requires GroupRun(rows, o, distances, threshold, gs) && i < |gs| && gs[i].last == |rows|
    ensures i == |gs| - 1
  {
    if i < |gs| - 1 {
      LastSentenceEnds(rows, o, distances, threshold, gs[..|gs| - 1], i);
    }
  }

  /** The groups of all sentences are determined by the sentences, the limits and the distances. */
  lemma {:induction false} RunIsUnique(rows: seq<Piece>, o: Limits, distances: seq<real>, threshold: real,
                                       a: seq<Group>, b: seq<Group>)
    requires GroupRun(rows, o, distances, threshold, a) && a != [] && a[|a| - 1].last == |rows|
    requires GroupRun(rows, o, distances, threshold, b) && b != [] && b[|b| - 1].last == |rows|
    ensures a == b
    decreases |a|
  {
    if |a| <= |b| {
      RunsAgree(rows, o, distances, threshold, a, b, |a|);
      assert a[..|a|] == a && a[|a| - 1] == b[..|a|][|a| - 1] == b[|a| - 1];
      LastSentenceEnds(rows, o, distances, threshold, b, |a| - 1);
    } else {
      RunIsUnique(rows, o, distances, threshold, b, a);
    }
  }

  /** Consecutive groups leave no sentence out, and move on by at least one. */
  lemma {:induction false} EverySentenceIsGrouped(rows: seq<Piece>, o: Limits, distances: seq<real>,
                                                   threshold: real, gs: seq<Group>, k: nat) returns (i: nat)
    requires GroupRun(rows, o, distances, threshold, gs) && gs != [] && k < gs[|gs| - 1].last
    ensures i < |gs| && gs[i].first <= k < gs[i].last
  {
    i := |gs| - 1;
    if k < gs[i].first {
      i := EverySentenceIsGrouped(rows, o, distances, threshold, gs[..|gs| - 1], k);
    }
  }

  /** Without overlap the groups partition the sentences: each starts where the previous ended. */
  lemma {:induction false} NoOverlapPartitions(rows: seq<Piece>, o: Limits, distances: seq<real>,
                                                threshold: real, gs: seq<Group>, i: nat)
    requires GroupRun(rows, o, distances, threshold, gs) && o.overlap == 0 && i + 1 < |gs|
    ensures gs[i + 1].first == gs[i].last
  {
    if i + 2 < |gs| {
      NoOverlapPartitions(rows, o, distances, threshold, gs[..|gs| - 1], i);
    } else {
      assert GroupRun(rows, o, distances, threshold, gs[..|gs| - 1]);
    }
  }

  /** No content is lost by grouping. */
  lemma GroupsCoverText(text: string, rows: seq<Piece>, o: Limits, distances: seq<real>, threshold: real,
                        gs: seq<Group>, out: seq<Piece>)
    requires SentenceRows(text, rows) && CoversText(text, rows)
    requires GroupRun(rows, o, distances, threshold, gs) && gs != [] && gs[|gs| - 1].last == |rows|
    requires RowsOf(text, rows, o, gs, out)
    ensures CoversText(text, out)
  {
    forall i | 0 <= i < |text| && !IsSpace(text[i]) ensures Covered(out, i) {
      assert Covered(rows, i);
      GroupsCoverAt(text, rows, o, distances, threshold, gs, out, i);
    }
  }

  lemma GroupsCoverAt(text: string, rows: seq<Piece>, o: Limits, distances: seq<real>, threshold: real,
                      gs: seq<Group>, out: seq<Piece>, i: int)
    requires SentenceRows(text, rows) && Covered(rows, i)
    requires GroupRun(rows, o, distances, threshold, gs) && gs != [] && gs[|gs| - 1].last == |rows|
    requires RowsOf(text, rows, o, gs, out)
    ensures Covered(out, i)
  {
    var p :| p in rows && InPiece(p, i);
    var k :| 0 <= k < |rows| && rows[k] == p;
    var j := EverySentenceIsGrouped(rows, o, distances, threshold, gs, k);
    RowsOfAt(text, rows, o, gs, out, j);
    InGroup(text, rows, gs[j], k, i);
    assert out[j] in out && InPiece(out[j], i);
  }

  lemma InGroup(text: string, rows: seq<Piece>, g: Group, k: nat, i: nat)
    requires SentenceRows(text, rows) && g.first <= k < g.last <= |rows| && InPiece(rows[k], i)
    ensures rows[g.first].start <= i < rows[g.last - 1].end
  {
    RowAt(text, rows, k);
    if g.first < k {
      RowAt(text, rows, g.first);
      RowOrder(text, rows, g.first, k);
    }
    if k < g.last - 1 {
      RowAt(text, rows, g.last - 1);
      RowOrder(text, rows, k, g.last - 1);
    }
  }

  // ---------------------------------------------------------------- the chunker

  /** The distances between neighbouring sentences, from an arbitrary embedding model. */
  function Distances(distance: (string, string) -> real, rows: seq<Piece>): (ds: seq<real>)
    ensures rows != [] ==> |ds| == |rows| - 1
  {
    if |rows| <= 1 then []
    else Distances(distance, rows[..|rows| - 1]) + [distance(rows[|rows| - 2].text, rows[|rows| - 1].text)]
  }

  function Clamp01(x: real): real {
    if x < 0.0 then 0.0 else if x > 1.0 then 1.0 else x
  }

  /** The percentile of the distances at which a boundary is set. */
  function Cutoff(distances: seq<real>, percentile: real): real {
    Percentile(distances, Clamp01(percentile / 100.0))
  }

  lemma GroupRowsBounded(text: string, sentences: seq<Piece>, o: Limits, gs: seq<Group>, rows: seq<Piece>)
    requires SentenceRows(text, sentences) && RowsOf(text, sentences, o, gs, rows)
    ensures forall p :: p in rows ==> IsPiece(text, p) && (|p.text| <= o.maxSize || p in sentences)
  {
    forall p | p in rows ensures IsPiece(text, p) && (|p.text| <= o.maxSize || p in sentences) {
      var i :| 0 <= i < |rows| && rows[i] == p;
      RowsOfAt(text, sentences, o, gs, rows, i);
      GroupRowBound(text, sentences, o, gs[i], rows[i]);
    }
  }

  /** These groups, and their rows, are what the scan makes of the sentences of a text. */
  ghost predicate IsGrouping(text: string, o: Options, percentile: real, model: (string, string) -> real,
                             gs: seq<Group>, out: seq<Piece>)
  {
    var rows := SentencePieces(text);
    var distances := Distances(model, rows);
    && GroupRun(rows, Correct(o), distances, Cutoff(distances, percentile), gs)
    && gs != [] && gs[|gs| - 1].last == |rows| && RowsOf(text, rows, Correct(o), gs, out)
  }

  /** Where several sentences are not grouped: the size in which a single one is cut. */
  function WholeSize(o: Options): int { if o.maxSize != 0 then o.maxSize else o.targetSize }

  /** The rows of a text: those of its groups, or those of its only sentence cut by size, or none. */
  ghost predicate IsSemanticCut(text: string, o: Options, percentile: real, model: Option<(string, string) -> real>,
                                out: seq<Piece>)
  {
    var count := |SentencePieces(text)|;
    if count > 1 then model.Some? && exists gs :: IsGrouping(text, o, percentile, model.value, gs, out)
    else if count == 1 then IsSmartCut(text, if o.maxSize == 0 then o.targetSize else o.maxSize, 0, out)
    else out == []
  }

  /** `semantic_windows` on normalised text. `gs` are the groups of a text of several sentences. Without an
      embedding model only texts of at most one sentence can be chunked. Every row is an exact slice, no content is
      lost, and a row is longer than the limit only if it is a single sentence. */
  method SemanticWindows(text: string, o: Options, breakpointPercentile: real,
                         model: Option<(string, string) -> real>)
    returns (r: Option<seq<Piece>>, ghost gs: seq<Group>)
    requires IsTrimmed(text)
    ensures r.None? <==> |SentencePieces(text)| > 1 && model.None?
    ensures r.Some? && |SentencePieces(text)| > 1 ==>
      IsGrouping(text, o, breakpointPercentile, model.value, gs, r.value)
    ensures r.Some? ==> IsSemanticCut(text, o, breakpointPercentile, model, r.value)
    ensures r.Some? ==> CoversText(text, r.value) && forall p :: p in r.value ==> IsPiece(text, p)
    ensures r.Some? && |SentencePieces(text)| > 1 ==>
      forall p :: p in r.value ==> |p.text| <= Correct(o).maxSize || p in SentencePieces(text)
    ensures r.Some? && |SentencePieces(text)| == 1 ==>
      forall p :: p in r.value ==> WholeSize(o) > 0 ==> |p.text| <= WholeSize(o)
  {
    var sentences := SemanticSentenceSpans(text);
    SentencePiecesPartition(text);
    gs := [];
    if sentences == [] {
      return Some([]), [];
    }
    if |sentences| == 1 {
      var rows := RecursiveChunks(text, WholeSize(o), 0);
      return Some(rows), [];
    }
    if model.None? {
      return None, [];
    }
    var distances := Distances(model.value, sentences);
    var threshold := Cutoff(distances, breakpointPercentile);
    var limits := Correct(o);
    AreSentenceRows(text, sentences);
    var rows;
    rows, gs := GroupSentences(text, sentences, limits, distances, threshold);
    GroupsCoverText(text, sentences, limits, distances, threshold, gs, rows);
    GroupRowsBounded(text, sentences, limits, gs, rows);
    return Some(rows), gs;
  }

  lemma GroupRowBound(text: string, rows: seq<Piece>, o: Limits, g: Group, p: Piece)
    requires SentenceRows(text, rows) && IsGroupRow(text, rows, o, g, p)
    ensures |p.text| <= o.maxSize || p in rows
  {
    if g.last == g.first + 1 {
      RowAt(text, rows, g.first);
      assert rows[g.first] in rows;
    }
  }

  /** Whatever the model answers, at least one sentence is marked as a topic change. */
  lemma SomeBoundaryExists(distances: seq<real>, q: real)
    requires distances != [] && 0.0 <= q <= 1.0
    ensures exists c :: IsBoundary(distances, Percentile(distances, q), c)
  {
    PercentileIsReached(distances, q);
    var v :| v in distances && Percentile(distances, q) <= v;
    var i :| 0 <= i < |distances| && distances[i] == v;
    assert IsBoundary(distances, Percentile(distances, q), i + 1);
  }

  /** A group ends where the previous one ended, and so lies inside it, exactly when the sentences
      carried over already satisfy a break condition at that place. Without overlap none are carried
      over. */
  lemma RepeatsExactlyWhen(rows: seq<Piece>, o: Limits, distances: seq<real>, threshold: real,
                           gs: seq<Group>, i: nat)
    requires GroupRun(rows, o, distances, threshold, gs) && i + 1 < |gs|
    ensures gs[i].last < |rows|
    ensures var next, cursor := NextFirst(gs[i], o.overlap), gs[i].last;
      gs[i + 1].last == cursor <==> next < cursor && Breaks(rows, o, distances, threshold, next, cursor)
    ensures o.overlap == 0 ==> gs[i + 1].last > gs[i].last
  {
    if i + 2 < |gs| {
      RepeatsExactlyWhen(rows, o, distances, threshold, gs[..|gs| - 1], i);
    } else {
      assert GroupRun(rows, o, distances, threshold, gs[..|gs| - 1]);
      var first, cursor := gs[i + 1].first, gs[i].last;
      if first < cursor < gs[i + 1].last {
        NoBreakAt(rows, o, distances, threshold, first, cursor, gs[i + 1].last, cursor);
      }
    }
  }

  /** Limits of eighty characters and one sentence of overlap. */
  const TIGHT := Options(80, 80, 40, 1)

  /** Such repeated content does occur, whatever the model answers: after two sentences of two
      characters, one that is longer than seventy-eight gives the groups {0, 1}, {1} and {2}. */
  lemma OverlapCanRepeatContent(long: string, distances: seq<real>, threshold: real, gs: seq<Group>)
    requires |long| > 78 && IsTrimmed(long) && forall i :: 0 <= i < |long| ==> !IsDelimiter(long[i])
    requires |distances| == 2
    requires var rows := SentencePieces("a!b!" + long);
      GroupRun(rows, Correct(TIGHT), distances, threshold, gs) && gs != [] && gs[|gs| - 1].last == |rows|
    ensures gs == [Group(0, 2), Group(1, 2), Group(2, 3)]
  {
    var text := "a!b!" + long;
    ThreeRows(text, long);
    var run := TightRun(SentencePieces(text), distances, threshold);
    RunIsUnique(SentencePieces(text), Correct(TIGHT), distances, threshold, gs, run);
  }

  lemma ThreeRows(text: string, long: string)
    requires text == "a!b!" + long && |long| > 78 && IsTrimmed(long)
    requires forall i :: 0 <= i < |long| ==> !IsDelimiter(long[i])
    ensures TightRows(SentencePieces(text))
  {
    assert text[4..|text|] == long;
    assert forall i :: 4 <= i < |text| ==> text[i] == long[i - 4];
    ThreeSentences(text, 0, 2, 4);
  }

  /** Two characters that end with a delimiter. */
  predicate IsShort(text: string, i: nat)
    requires i + 2 < |text|
  {
    !IsSpace(text[i]) && !IsSpace(text[i + 1]) && !IsDelimiter(text[i]) && IsDelimiter(text[i + 1])
      && !IsDelimiter(text[i + 2])
  }

  lemma ThreeSentences(text: string, i: nat, j: nat, k: nat)
    requires j == i + 2 && k == j + 2 < |text| && IsShort(text, i) && IsShort(text, j)
    requires IsTrimmed(text[k..|text|]) && forall c :: k <= c < |text| ==> !IsDelimiter(text[c])
    ensures PiecesFrom(text, i) == [Piece(text[i..j], i, j), Piece(text[j..k], j, k), Piece(text[k..|text|], k, |text|)]
  {
    LastPiece(text, k);
    ShortSentence(text, j, k);
    ShortSentence(text, i, j);
  }

  lemma ShortSentence(text: string, i: nat, j: nat)
    requires j == i + 2 < |text| && IsShort(text, i)
    ensures PiecesFrom(text, i) == [Piece(text[i..j], i, j)] + PiecesFrom(text, j)
  {
    NextPiece(text, i, i + 1, j);
  }

  lemma LastPiece(text: string, start: nat)
    requires start < |text| && IsTrimmed(text[start..|text|]) && forall i :: start <= i < |text| ==>
      !IsDelimiter(text[i])
    ensures PiecesFrom(text, start) == [Piece(text[start..|text|], start, |text|)]
  {
    NextPiece(text, start, |text|, |text|);
    assert PiecesFrom(text, |text|) == [];
  }

  /** Sentences of length two, two and more than seventy-eight. */
  ghost predicate TightRows(rows: seq<Piece>) {
    && |rows| == 3 && rows[0].start == 0 && rows[0].end == 2 && rows[1].start == 2 && rows[1].end == 4
    && rows[2].start == 4 && rows[2].end > 82
  }

  lemma TightRun(rows: seq<Piece>, distances: seq<real>, threshold: real) returns (gs: seq<Group>)
    requires TightRows(rows) && |distances| == 2
    ensures gs == [Group(0, 2), Group(1, 2), Group(2, 3)]
    ensures GroupRun(rows, Correct(TIGHT), distances, threshold, gs)
  {
    gs := [];
    gs := AppendGroup(rows, Correct(TIGHT), distances, threshold, gs, Group(0, 2));
    gs := AppendGroup(rows, Correct(TIGHT), distances, threshold, gs, Group(1, 2));
    gs := AppendGroup(rows, Correct(TIGHT), distances, threshold, gs, Group(2, 3));
  }

  lemma AppendGroup(rows: seq<Piece>, o: Limits, distances: seq<real>, threshold: real, prev: seq<Group>, g: Group)
    returns (gs: seq<Group>)
    requires GroupRun(rows, o, distances, threshold, prev) && Closes(rows, o, distances, threshold, prev, g)
    requires prev != [] ==> prev[|prev| - 1].last < |rows|
    ensures gs == prev + [g] && GroupRun(rows, o, distances, threshold, gs)
  {
    gs := prev + [g];
    assert gs[..|gs| - 1] == prev;
  }
}
