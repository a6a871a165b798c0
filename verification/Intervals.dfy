/** Unions of half-open integer intervals. */
module Intervals {
  import opened Sorting

  datatype Interval = Interval(start: int, end: int)

  predicate LeqInterval(a: Interval, b: Interval) {
    a.start < b.start || (a.start == b.start && a.end <= b.end)
  }

  predicate In(iv: Interval, x: int) { iv.start <= x < iv.end }

  /** `x` lies in one of the intervals. */
  ghost predicate InSome(ivs: seq<Interval>, x: int) {
    exists iv :: iv in ivs && In(iv, x)
  }

  ghost predicate SamePoints(a: seq<Interval>, b: seq<Interval>) {
    forall x :: InSome(a, x) <==> InSome(b, x)
  }

  /** Non-empty intervals in order, with a gap before each but the first. */
  ghost predicate Separated(ivs: seq<Interval>) {
    ivs != [] ==>
      var last := ivs[|ivs| - 1];
      && Separated(ivs[..|ivs| - 1]) && last.start < last.end
      && (|ivs| > 1 ==> ivs[|ivs| - 2].end < last.start)
  }

  /** One turn of the merging loop. */
  function MergeStep(merged: seq<Interval>, iv: Interval): seq<Interval> {
    if iv.end <= iv.start then merged
    else if merged == [] || iv.start > merged[|merged| - 1].end then merged + [iv]
    else
      var last := merged[|merged| - 1];
      merged[..|merged| - 1] + [Interval(last.start, if last.end < iv.end then iv.end else last.end)]
  }

  function MergeAll(sorted: seq<Interval>): seq<Interval> {
    if sorted == [] then [] else MergeStep(MergeAll(sorted[..|sorted| - 1]), sorted[|sorted| - 1])
  }

  function Merge(ivs: seq<Interval>): seq<Interval> {
    MergeAll(Sort(ivs, LeqInterval))
  }

  lemma InSomeSnoc(ivs: seq<Interval>, iv: Interval, x: int)
    ensures InSome(ivs + [iv], x) <==> InSome(ivs, x) || In(iv, x)
  {
    if InSome(ivs, x) {
      var i :| i in ivs && In(i, x);
      assert i in ivs + [iv];
    }
    if In(iv, x) {
      assert iv in ivs + [iv];
    }
  }

  lemma MergeStepFacts(merged: seq<Interval>, iv: Interval, x: int)
    requires Separated(merged) && (merged != [] ==> merged[|merged| - 1].start <= iv.start)
    ensures InSome(MergeStep(merged, iv), x) <==> InSome(merged, x) || In(iv, x)
  {
    if iv.end <= iv.start {
    } else if merged == [] || iv.start > merged[|merged| - 1].end {
      InSomeSnoc(merged, iv, x);
    } else {
      JoinStep(merged, iv, x);
    }
  }

  lemma JoinStep(merged: seq<Interval>, iv: Interval, x: int)
    requires merged != [] && iv.start < iv.end && merged[|merged| - 1].start <= iv.start <= merged[|merged| - 1].end
    ensures InSome(MergeStep(merged, iv), x) <==> InSome(merged, x) || In(iv, x)
  {
    var init, last := merged[..|merged| - 1], merged[|merged| - 1];
    assert merged == init + [last];
    JoinedPoints(init, last, iv, x);
  }

  /** Joining an interval with one that starts in it or right behind it. */
  lemma JoinedPoints(init: seq<Interval>, last: Interval, iv: Interval, x: int)
    requires last.start <= iv.start <= last.end
    ensures var joined := Interval(last.start, if last.end < iv.end then iv.end else last.end);
      InSome(init + [joined], x) <==> InSome(init + [last], x) || In(iv, x)
  {
    InSomeSnoc(init, last, x);
    InSomeSnoc(init, Interval(last.start, if last.end < iv.end then iv.end else last.end), x);
  }

  lemma MergeStepSeparated(merged: seq<Interval>, iv: Interval)
    requires Separated(merged) && (merged != [] ==> merged[|merged| - 1].start <= iv.start)
    ensures Separated(MergeStep(merged, iv))
    ensures var r := MergeStep(merged, iv); r != [] ==> r[|r| - 1].start <= iv.start
  {
    var r := MergeStep(merged, iv);
    if iv.start < iv.end {
      if merged == [] || iv.start > merged[|merged| - 1].end {
        assert r[..|r| - 1] == merged;
      } else {
        assert r[..|r| - 1] == merged[..|merged| - 1];
      }
    }
  }

  lemma {:induction false} MergeAllSeparated(sorted: seq<Interval>)
    requires SortedBy(LeqInterval, sorted)
    ensures Separated(MergeAll(sorted))
    ensures MergeAll(sorted) != [] ==> MergeAll(sorted)[|MergeAll(sorted)| - 1].start <= sorted[|sorted| - 1].start
  {
    if sorted != [] {
      var init, last := sorted[..|sorted| - 1], sorted[|sorted| - 1];
      MergeAllSeparated(init);
      if init != [] {
        assert LeqInterval(sorted[|sorted| - 2], last);
      }
      MergeStepSeparated(MergeAll(init), last);
    }
  }

  lemma {:induction false} MergeAllPoints(sorted: seq<Interval>, x: int)
    requires SortedBy(LeqInterval, sorted)
    ensures InSome(MergeAll(sorted), x) <==> InSome(sorted, x)
  {
    if sorted != [] {
      var init, last := sorted[..|sorted| - 1], sorted[|sorted| - 1];
      MergeAllPoints(init, x);
      MergeAllSeparated(init);
      if init != [] {
        assert LeqInterval(sorted[|sorted| - 2], last);
      }
      MergeStepFacts(MergeAll(init), last, x);
      assert sorted == init + [last];
      InSomeSnoc(init, last, x);
    }
  }

  lemma IntervalOrder()
    ensures TotalOrder(LeqInterval) && Antisymmetric(LeqInterval)
  {}

  /** Merging yields separated intervals with the same points. */
  lemma MergeFacts(ivs: seq<Interval>)
    ensures Separated(Merge(ivs)) && SamePoints(Merge(ivs), ivs)
  {
    var sorted := Sort(ivs, LeqInterval);
    IntervalOrder();
    SortSorts(ivs, LeqInterval);
    SortKeepsMembers(ivs, LeqInterval);
    MergeAllSeparated(sorted);
    forall x ensures InSome(Merge(ivs), x) <==> InSome(ivs, x) {
      MergeAllPoints(sorted, x);
      assert InSome(sorted, x) <==> InSome(ivs, x);
    }
  }

  /** The merging loop. */
  method MergeIntervals(ivs: seq<Interval>) returns (merged: seq<Interval>)
    ensures merged == Merge(ivs)
    ensures Separated(merged) && SamePoints(merged, ivs)
  {
    merged := MergeSorted(Sort(ivs, LeqInterval));
    MergeFacts(ivs);
  }

  lemma MergeNext(sorted: seq<Interval>, i: nat)
    requires i < |sorted|
    ensures MergeAll(sorted[..i + 1]) == MergeStep(MergeAll(sorted[..i]), sorted[i])
  {
    assert sorted[..i + 1][..i] == sorted[..i];
  }

  /** The loop over the sorted intervals. */
  method MergeSorted(sorted: seq<Interval>) returns (merged: seq<Interval>)
    ensures merged == MergeAll(sorted)
  {
    merged := [];
    for i := 0 to |sorted|
      invariant merged == MergeAll(sorted[..i])
    {
      var iv := sorted[i];
      MergeNext(sorted, i);
      if iv.end <= iv.start {
        continue;
      }
      if merged == [] || iv.start > merged[|merged| - 1].end {
        merged := merged + [iv];
      } else {
        var last := merged[|merged| - 1];
        merged := merged[..|merged| - 1] + [Interval(last.start, if last.end < iv.end then iv.end else last.end)];
      }
    }
    assert sorted[..|sorted|] == sorted;
  }

  // ---------------------------------------------------------------- canonical form

  lemma {:induction false} SeparatedBelow(ivs: seq<Interval>, x: int)
    requires Separated(ivs) && ivs != [] && InSome(ivs[..|ivs| - 1], x)
    ensures x + 1 < ivs[|ivs| - 1].start
  {
    var init := ivs[..|ivs| - 1];
    var iv :| iv in init && In(iv, x);
    if iv != init[|init| - 1] {
      assert iv in init[..|init| - 1];
      SeparatedBelow(init, x);
    }
  }

  lemma SplitLast(ivs: seq<Interval>, x: int)
    requires Separated(ivs) && ivs != []
    ensures InSome(ivs, x) <==> InSome(ivs[..|ivs| - 1], x) || In(ivs[|ivs| - 1], x)
    ensures InSome(ivs[..|ivs| - 1], x) ==> x + 1 < ivs[|ivs| - 1].start
  {
    assert ivs == ivs[..|ivs| - 1] + [ivs[|ivs| - 1]];
    InSomeSnoc(ivs[..|ivs| - 1], ivs[|ivs| - 1], x);
    if InSome(ivs[..|ivs| - 1], x) {
      SeparatedBelow(ivs, x);
    }
  }

  lemma LastIsWithin(a: seq<Interval>, b: seq<Interval>)
    requires Separated(a) && Separated(b) && a != [] && b != [] && SamePoints(a, b)
    ensures a[|a| - 1].end <= b[|b| - 1].end
    ensures a[|a| - 1].end == b[|b| - 1].end ==> b[|b| - 1].start <= a[|a| - 1].start
  {
    var p, q := a[|a| - 1], b[|b| - 1];
    SplitLast(a, p.end - 1);
    SplitLast(b, p.end - 1);
    assert InSome(b, p.end - 1);
    if p.end == q.end && p.start < q.start {
      SplitLast(a, q.start - 1);
      SplitLast(b, q.start - 1);
    }
  }

  /** Separated intervals are a canonical form: the same points, the same list. */
  lemma {:induction false} SeparatedUnique(a: seq<Interval>, b: seq<Interval>)
    requires Separated(a) && Separated(b) && SamePoints(a, b)
    ensures a == b
  {
    if a != [] && b != [] {
      LastIsWithin(a, b);
      LastIsWithin(b, a);
      var c, d := a[..|a| - 1], b[..|b| - 1];
      forall x ensures InSome(c, x) <==> InSome(d, x) {
        SplitLast(a, x);
        SplitLast(b, x);
        assert InSome(a, x) <==> InSome(b, x);
      }
      SeparatedUnique(c, d);
    } else {
      EmptyHasNoPoints(a, b);
      EmptyHasNoPoints(b, a);
    }
  }

  lemma EmptyHasNoPoints(a: seq<Interval>, b: seq<Interval>)
    requires Separated(a) && SamePoints(a, b)
    ensures b == [] ==> a == []
  {
    if a != [] {
      var p := a[|a| - 1];
      assert p in a && In(p, p.start);
      assert InSome(b, p.start);
    }
  }

  /** Two lists of intervals merge to the same list exactly when they cover the same points: the order
      of the list, duplicates and empty intervals do not matter. */
  lemma MergeIsCanonical(a: seq<Interval>, b: seq<Interval>)
    ensures Merge(a) == Merge(b) <==> SamePoints(a, b)
  {
    MergeFacts(a);
    MergeFacts(b);
    if SamePoints(a, b) {
      SeparatedUnique(Merge(a), Merge(b));
    }
  }

  // ---------------------------------------------------------------- measure

  /** `sum(end - start for start, end in ivs)` */
  function TotalLength(ivs: seq<Interval>): int {
    if ivs == [] then 0 else TotalLength(ivs[..|ivs| - 1]) + (ivs[|ivs| - 1].end - ivs[|ivs| - 1].start)
  }

  /** The points from `lo` up to `hi` that lie in one of the intervals. */
  ghost function Points(ivs: seq<Interval>, lo: int, hi: int): set<int> {
    set x | lo <= x < hi && InSome(ivs, x)
  }

  ghost function Range(iv: Interval): set<int> {
    set x | iv.start <= x < iv.end && In(iv, x)
  }

  lemma {:induction false} RangeSize(iv: Interval)
    requires iv.start <= iv.end
    ensures |Range(iv)| == iv.end - iv.start
    decreases iv.end - iv.start
  {
    if iv.start < iv.end {
      var shorter := Interval(iv.start, iv.end - 1);
      RangeSize(shorter);
      assert Range(iv) == Range(shorter) + {iv.end - 1};
    } else {
      assert Range(iv) == {};
    }
  }

  /** The summed lengths of separated intervals count the points they cover. */
  lemma {:induction false} LengthCountsPoints(ivs: seq<Interval>, lo: int, hi: int)
    requires Separated(ivs) && forall x :: InSome(ivs, x) ==> lo <= x < hi
    ensures TotalLength(ivs) == |Points(ivs, lo, hi)|
  {
    if ivs == [] {
      assert Points(ivs, lo, hi) == {};
    } else {
      var init, last := ivs[..|ivs| - 1], ivs[|ivs| - 1];
      forall x ensures InSome(ivs, x) <==> InSome(init, x) || In(last, x)
               ensures InSome(init, x) ==> x < last.start {
        SplitLast(ivs, x);
      }
      LengthCountsPoints(init, lo, hi);
      RangeSize(last);
      assert forall x :: x in Range(last) ==> In(last, x) && InSome(ivs, x);
      assert Points(ivs, lo, hi) == Points(init, lo, hi) + Range(last);
      assert Points(init, lo, hi) !! Range(last);
    }
  }

  /** The length of a union: the number of covered points. */
  lemma MergedLengthCountsPoints(ivs: seq<Interval>, lo: int, hi: int)
    requires forall x :: InSome(ivs, x) ==> lo <= x < hi
    ensures TotalLength(Merge(ivs)) == |Points(ivs, lo, hi)|
  {
    MergeFacts(ivs);
    assert forall x :: InSome(Merge(ivs), x) <==> InSome(ivs, x);
    LengthCountsPoints(Merge(ivs), lo, hi);
    assert Points(Merge(ivs), lo, hi) == Points(ivs, lo, hi);
  }
}
