/** The choice of a time to live for recent cases, over the similarities that the experiment measures. */
module RecentChoice {
  import opened Optional
  import opened Reals
  import opened TtlExperiment
  import opened RecentCases

  /** The arrivals of one stream, and how similar they are. */
  datatype Stream = Stream(times: seq<real>, sim: Similarity)

  function TimesOf(streams: seq<Stream>): (r: seq<seq<real>>)
    ensures |r| == |streams|
  {
    if streams == [] then [] else TimesOf(streams[..|streams| - 1]) + [streams[|streams| - 1].times]
  }

  /** `meanSelectedSimilarity` of a stream. */
  function StreamSimilarity(s: Stream, ttl: real): real {
    Mean(AllSimilarities(s.times, s.sim, ttl))
  }

  function SumOfMeans(streams: seq<Stream>, ttl: real): real {
    if streams == [] then 0.0
    else SumOfMeans(streams[..|streams| - 1], ttl) + StreamSimilarity(streams[|streams| - 1], ttl)
  }

  /** The rounded mean over the streams of a cadence. */
  function MeanSimilarity(round4: Rounding, streams: seq<Stream>, ttl: real): real
    requires streams != []
  {
    round4(SumOfMeans(streams, ttl) / |streams| as real)
  }

  function SimilarityAt(round4: Rounding, streams: seq<Stream>): real -> real
    requires streams != []
  {
    (ttl: real) => MeanSimilarity(round4, streams, ttl)
  }

  /** The gates of a candidate. */
  function Gates(round4: Rounding, normal: seq<Stream>, busy: seq<Stream>): real -> bool
    requires normal != [] && busy != []
  {
    RecentPass(round4, TimesOf(normal), TimesOf(busy), SimilarityAt(round4, normal))
  }

  /** The chosen candidate is the least that passes, and a longer one passes exactly when the measured
      similarity of the normal cadence stays at 0.9. */
  lemma ChoiceIsLeast(round4: Rounding, normal: seq<Stream>, busy: seq<Stream>, candidates: seq<real>, c: real)
    requires normal != [] && busy != [] && Increasing(candidates) && c in candidates
    ensures var pass := Gates(round4, normal, busy);
      var r := FirstPassing(candidates, pass);
      && (r.None? ==> !pass(c))
      && (r.Some? && pass(c) ==> r.value <= c)
      && (r.Some? && r.value <= c ==> (pass(c) <==> MeanSimilarity(round4, normal, c) >= 0.90))
  {
    RecentChoiceIsThresholdExactlyWhen(round4, TimesOf(normal), TimesOf(busy), SimilarityAt(round4, normal),
      candidates, c);
  }

  // ---------------------------------------------------------------- a choice that is no threshold

  /** How many similarities are averaged. */
  lemma {:induction false} SimilarityCount(times: seq<real>, sim: Similarity, ttl: real, choice: Choice, n: nat)
    requires n <= |times| && FromStream(times, ttl, choice)
    ensures |Collected(sim, choice, n)| == Gaps(times, 1, n, 1, ttl) + Gaps(times, 2, n, 2, ttl)
  {
    if n > 0 {
      SimilarityCount(times, sim, ttl, choice, n - 1);
    }
  }

  lemma {:induction false} SumOfConcat(a: seq<real>, b: seq<real>)
    ensures Sum(a + b) == Sum(a) + Sum(b)
  {
    if b == [] {
      assert a + b == a;
    } else {
      SumOfConcat(a, b[..|b| - 1]);
      assert (a + b)[..|a + b| - 1] == a + b[..|b| - 1];
    }
  }

  function Scaled(m: int, x: real): real { m as real * x }

  lemma ScaledNext(m: int, x: real)
    ensures Scaled(m, x) == Scaled(m - 1, x) + x
  {
    Distribute((m - 1) as real, 1.0, x);
  }

  predicate AllAre(values: seq<real>, x: real) {
    forall i :: 0 <= i < |values| ==> values[i] == x
  }

  lemma {:induction false} SumOfEqual(values: seq<real>, x: real)
    requires AllAre(values, x)
    ensures Sum(values) == Scaled(|values|, x)
  {
    if values != [] {
      SumOfEqual(values[..|values| - 1], x);
      ScaledNext(|values|, x);
    }
  }

  /** While all earlier cases are equally similar, so are all selected ones. */
  lemma {:induction false} SumWhenAlike(times: seq<real>, sim: Similarity, ttl: real, choice: Choice, n: nat, x: real)
    requires n <= |times| && Alike(sim, n, x) && FromStream(times, ttl, choice)
    ensures Sum(Collected(sim, choice, n)) == Scaled(|Collected(sim, choice, n)|, x)
  {
    if n > 0 {
      SumWhenAlike(times, sim, ttl, choice, n - 1, x);
      SameSimilarities(sim, n - 1, choice(n - 1), x);
      SumOfBoth(Collected(sim, choice, n - 1), Similarities(sim, n - 1, choice(n - 1)), x);
    }
  }

  lemma SumOfBoth(a: seq<real>, b: seq<real>, x: real)
    requires Sum(a) == Scaled(|a|, x) && AllAre(b, x)
    ensures Sum(a + b) == Scaled(|a + b|, x)
  {
    SumOfConcat(a, b);
    SumOfEqual(b, x);
    Distribute(|a| as real, |b| as real, x);
  }

  /** The first `n` arrivals are all equally similar. */
  ghost predicate Alike(sim: Similarity, n: nat, x: real) {
    forall i: nat, j: nat :: j < i < n ==> sim(i, j) == x
  }

  lemma SameSimilarities(sim: Similarity, i: nat, cases: seq<nat>, x: real)
    requires Alike(sim, i + 1, x) && forall j :: j in cases ==> j < i
    ensures AllAre(Similarities(sim, i, cases), x)
  {
    assert forall k :: 0 <= k < |cases| ==> cases[k] in cases;
  }

  /** Arrival `i` comes within the time to live of the two before it. */
  predicate CloseAt(times: seq<real>, i: nat, ttl: real)
    requires 0 < i < |times|
  {
    times[i] - times[i - 1] <= ttl && (i > 1 ==> times[i] - times[i - 2] <= ttl)
  }

  /** So do all but the first of the first `n`. */
  ghost predicate Close(times: seq<real>, n: nat, ttl: real)
    requires n <= |times|
  {
    forall i :: 0 < i < n ==> CloseAt(times, i, ttl)
  }

  /** Twenty arrivals close together that are alike, and a later one that is similar to none of them: the
      longer time to live reaches back from it, the shorter one does not. */
  ghost predicate LateStranger(s: Stream, ttl: real, longer: real) {
    && |s.times| == 21 && Ordered(s.times) && Close(s.times, 20, ttl)
    && ttl < s.times[20] - s.times[19] && s.times[20] - s.times[18] <= longer
    && Alike(s.sim, 20, 0.92) && IsStranger(s.sim)
  }

  ghost predicate IsStranger(sim: Similarity) {
    forall j: nat :: j < 20 ==> sim(20, j) == 0.0
  }

  /** Twenty-one arrivals or more, close together. */
  ghost predicate Dense(s: Stream, ttl: real) {
    |s.times| >= 21 && Close(s.times, |s.times|, ttl)
  }

  lemma CloseLonger(times: seq<real>, n: nat, ttl: real, longer: real)
    requires n <= |times| && Close(times, n, ttl) && ttl <= longer
    ensures Close(times, n, longer)
  {
    forall i | 0 < i < n ensures CloseAt(times, i, longer) {
      assert CloseAt(times, i, ttl);
    }
  }

  lemma {:induction false} GapsWhenClose(times: seq<real>, from: nat, n: nat, k: nat, ttl: real)
    requires 1 <= k <= 2 && k <= from && n <= |times| && Close(times, n, ttl)
    ensures Gaps(times, from, n, k, ttl) == if n <= from then 0 else n - from
  {
    if n > from {
      GapsWhenClose(times, from, n - 1, k, ttl);
      assert CloseAt(times, n - 1, ttl);
    }
  }

  /** The similarities of the twenty: two each but for the first two. */
  lemma BeforeLast(s: Stream, ttl: real, choice: Choice)
    requires |s.times| == 21 && Close(s.times, 20, ttl) && Alike(s.sim, 20, 0.92) && FromStream(s.times, ttl, choice)
    ensures var before := Collected(s.sim, choice, 20); |before| == 37 && Sum(before) == 34.04
  {
    GapsWhenClose(s.times, 1, 20, 1, ttl);
    GapsWhenClose(s.times, 2, 20, 2, ttl);
    SimilarityCount(s.times, s.sim, ttl, choice, 20);
    SumWhenAlike(s.times, s.sim, ttl, choice, 20, 0.92);
  }

  /** The stranger is given two cases or none, and they add nothing. */
  lemma LastSimilarities(s: Stream, ttl: real, choice: Choice)
    requires |s.times| == 21 && IsStranger(s.sim) && FromStream(s.times, ttl, choice)
    ensures var last := Similarities(s.sim, 20, choice(20)); |last| == CasesAt(s.times, ttl, 20) && Sum(last) == 0.0
  {
    assert forall k :: 0 <= k < |choice(20)| ==> choice(20)[k] in choice(20);
    SumOfEqual(Similarities(s.sim, 20, choice(20)), 0.0);
  }

  lemma StrangerSum(s: Stream, ttl: real)
    requires |s.times| == 21 && Ordered(s.times) && Close(s.times, 20, ttl) && Alike(s.sim, 20, 0.92)
      && IsStranger(s.sim)
    ensures var all := AllSimilarities(s.times, s.sim, ttl);
      |all| == 37 + CasesAt(s.times, ttl, 20) && Sum(all) == 34.04
  {
    var choice := SomeChoice(s, ttl);
    BeforeLast(s, ttl, choice);
    LastSimilarities(s, ttl, choice);
    SumOfConcat(Collected(s.sim, choice, 20), Similarities(s.sim, 20, choice(20)));
  }

  lemma SomeChoice(s: Stream, ttl: real) returns (choice: Choice)
    requires Ordered(s.times)
    ensures FromStream(s.times, ttl, choice)
      && AllSimilarities(s.times, s.sim, ttl) == Collected(s.sim, choice, |s.times|)
  {
    choice := Selector(s.times, s.sim, ttl);
    SelectorFacts(s.times, s.sim, ttl);
  }

  /** What the scan of such a stream averages: the longer time to live adds two zeros. */
  lemma StrangerMeans(s: Stream, ttl: real, longer: real)
    requires LateStranger(s, ttl, longer)
    ensures StreamSimilarity(s, ttl) == 0.92 && StreamSimilarity(s, longer) == 34.04 / 39.0
  {
    StrangerReach(s.times, ttl, longer);
    CloseLonger(s.times, 20, ttl, longer);
    StrangerSum(s, ttl);
    StrangerSum(s, longer);
    MeanOfStranger(AllSimilarities(s.times, s.sim, ttl), 0);
    MeanOfStranger(AllSimilarities(s.times, s.sim, longer), 2);
  }

  lemma StrangerReach(times: seq<real>, ttl: real, longer: real)
    requires |times| == 21 && Ordered(times) && ttl < times[20] - times[19] && times[20] - times[18] <= longer
    ensures ttl < longer && CasesAt(times, ttl, 20) == 0 && CasesAt(times, longer, 20) == 2
  {
    assert times[18] <= times[19];
  }

  lemma MeanOfStranger(values: seq<real>, more: nat)
    requires |values| == 37 + more && (more == 0 || more == 2) && Sum(values) == 34.04
    ensures Mean(values) == if more == 0 then 0.92 else 34.04 / 39.0
  {}

  // ---------------------------------------------------------------- means over streams

  lemma {:induction false} SumAtLeast(streams: seq<seq<real>>, rate: (seq<real>, real) -> real, ttl: real, x: real)
    requires forall times :: times in streams ==> rate(times, ttl) >= x
    ensures SumOver(streams, rate, ttl) >= Scaled(|streams|, x)
  {
    if streams != [] {
      SumAtLeast(streams[..|streams| - 1], rate, ttl, x);
      ScaledNext(|streams|, x);
    }
  }

  lemma {:induction false} SumOfSameMeans(streams: seq<Stream>, ttl: real, x: real)
    requires forall s :: s in streams ==> StreamSimilarity(s, ttl) == x
    ensures SumOfMeans(streams, ttl) == Scaled(|streams|, x)
  {
    if streams != [] {
      SumOfSameMeans(streams[..|streams| - 1], ttl, x);
      ScaledNext(|streams|, x);
    }
  }

  lemma ScaledDown(n: nat, x: real)
    requires n > 0
    ensures Scaled(n, x) / n as real == x
  {
    DivBetween(Scaled(n, x), n as real, x, x);
  }

  lemma MetricAtLeast(round4: Rounding, streams: seq<seq<real>>, ttl: real, x: real)
    requires streams != [] && forall times :: times in streams ==> CoverageTop2(times, ttl) >= x
    ensures Metric(round4, streams, CoverageTop2, ttl) >= round4(x)
  {
    SumAtLeast(streams, CoverageTop2, ttl, x);
    RoundedDivMonotone(round4, Scaled(|streams|, x), SumOver(streams, CoverageTop2, ttl), |streams| as real);
    ScaledDown(|streams|, x);
  }

  lemma SimilarityOfAll(round4: Rounding, streams: seq<Stream>, ttl: real, x: real)
    requires streams != [] && forall s :: s in streams ==> StreamSimilarity(s, ttl) == x
    ensures SimilarityAt(round4, streams)(ttl) == round4(x)
  {
    SumOfSameMeans(streams, ttl, x);
    ScaledDown(|streams|, x);
  }

  lemma {:induction false} TimesAre(streams: seq<Stream>, times: seq<real>)
    requires times in TimesOf(streams)
    ensures exists s :: s in streams && s.times == times
  {
    var last := streams[|streams| - 1];
    if times != last.times {
      TimesAre(streams[..|streams| - 1], times);
    } else {
      assert last in streams;
    }
  }

  // ---------------------------------------------------------------- the choice is no threshold

  ghost predicate MovesLittle(round4: Rounding) {
    forall v: real :: v - 0.0001 <= round4(v) <= v + 0.0001
  }

  /** With any number of such streams in the normal cadence, and dense ones in the busy cadence, the shorter
      candidate is chosen and passes, and the longer one, which reaches back from the strangers, does not.
      Rounding may move a number by a ten-thousandth. */
  lemma LongerCanFail(round4: Rounding, normal: seq<Stream>, busy: seq<Stream>, ttl: real, longer: real)
    requires normal != [] && forall s :: s in normal ==> LateStranger(s, ttl, longer)
    requires busy != [] && forall s :: s in busy ==> Dense(s, ttl)
    requires MovesLittle(round4) && round4(0.90) == 0.90 && round4(0.95) == 0.95
    ensures var pass := Gates(round4, normal, busy);
      FirstPassing([ttl, longer], pass) == Some(ttl) && pass(ttl) && !pass(longer)
  {
    SimilaritiesAre(round4, normal, ttl, longer);
    NearNineTenths(round4);
    AllCovered(round4, normal, busy, ttl, longer);
    GatesAre(round4, normal, busy, ttl);
    GatesAre(round4, normal, busy, longer);
    FirstIsChosen(ttl, longer, Gates(round4, normal, busy));
  }

  lemma AllCovered(round4: Rounding, normal: seq<Stream>, busy: seq<Stream>, ttl: real, longer: real)
    requires normal != [] && forall s :: s in normal ==> LateStranger(s, ttl, longer)
    requires busy != [] && forall s :: s in busy ==> Dense(s, ttl)
    requires round4(0.90) == 0.90 && round4(0.95) == 0.95
    ensures CoveragePass(round4, TimesOf(normal), TimesOf(busy), ttl)
  {
    NormalCovered(round4, normal, ttl, longer);
    BusyCovered(round4, busy, ttl);
  }

  lemma GatesAre(round4: Rounding, normal: seq<Stream>, busy: seq<Stream>, ttl: real)
    requires normal != [] && busy != []
    ensures Gates(round4, normal, busy)(ttl) <==>
      CoveragePass(round4, TimesOf(normal), TimesOf(busy), ttl) && SimilarityAt(round4, normal)(ttl) >= 0.90
  {
    PassUnfold(round4, TimesOf(normal), TimesOf(busy), SimilarityAt(round4, normal), ttl);
  }

  lemma SimilaritiesAre(round4: Rounding, normal: seq<Stream>, ttl: real, longer: real)
    requires normal != [] && forall s :: s in normal ==> LateStranger(s, ttl, longer)
    ensures SimilarityAt(round4, normal)(ttl) == round4(0.92)
      && SimilarityAt(round4, normal)(longer) == round4(34.04 / 39.0)
  {
    forall s | s in normal ensures StreamSimilarity(s, ttl) == 0.92 && StreamSimilarity(s, longer) == 34.04 / 39.0 {
      StrangerMeans(s, ttl, longer);
    }
    SimilarityOfAll(round4, normal, ttl, 0.92);
    SimilarityOfAll(round4, normal, longer, 34.04 / 39.0);
  }

  lemma NearNineTenths(round4: Rounding)
    requires MovesLittle(round4)
    ensures round4(34.04 / 39.0) < 0.90 <= round4(0.92)
  {}

  lemma NormalCovered(round4: Rounding, normal: seq<Stream>, ttl: real, longer: real)
    requires normal != [] && forall s :: s in normal ==> LateStranger(s, ttl, longer)
    ensures Metric(round4, TimesOf(normal), CoverageTop2, ttl) >= round4(0.90)
  {
    forall times | times in TimesOf(normal) ensures CoverageTop2(times, ttl) >= 0.90 {
      TimesAre(normal, times);
      StrangerRate(times, ttl);
    }
    MetricAtLeast(round4, TimesOf(normal), ttl, 0.90);
  }

  lemma BusyCovered(round4: Rounding, busy: seq<Stream>, ttl: real)
    requires busy != [] && forall s :: s in busy ==> Dense(s, ttl)
    ensures Metric(round4, TimesOf(busy), CoverageTop2, ttl) >= round4(0.95)
  {
    forall times | times in TimesOf(busy) ensures CoverageTop2(times, ttl) >= 0.95 {
      TimesAre(busy, times);
      DenseRate(times, ttl);
    }
    MetricAtLeast(round4, TimesOf(busy), ttl, 0.95);
  }

  lemma StrangerRate(times: seq<real>, ttl: real)
    requires |times| == 21 && Close(times, 20, ttl)
    ensures CoverageTop2(times, ttl) >= 0.90
  {
    GapsWhenClose(times, 2, 20, 2, ttl);
    RateOf(times, ttl, 18, 0.90);
  }

  lemma DenseRate(times: seq<real>, ttl: real)
    requires |times| >= 21 && Close(times, |times|, ttl)
    ensures CoverageTop2(times, ttl) >= 0.95
  {
    GapsWhenClose(times, 2, |times|, 2, ttl);
    RateOf(times, ttl, |times| - 2, 0.95);
  }

  lemma RateOf(times: seq<real>, ttl: real, covered: nat, x: real)
    requires |times| >= 2 && Gaps(times, 2, |times|, 2, ttl) >= covered && x * (|times| - 1) as real <= covered as real
    ensures CoverageTop2(times, ttl) >= x
  {
    var n, d := Gaps(times, 2, |times|, 2, ttl) as real, (|times| - 1) as real;
    Quotient(n, d);
    if n / d < x {
      MulStrict(n / d, x, d);
    }
  }

  lemma FirstIsChosen(c: real, d: real, pass: real -> bool)
    ensures pass(c) ==> FirstPassing([c, d], pass) == Some(c)
  {}

  lemma PassUnfold(round4: Rounding, normal: seq<seq<real>>, busy: seq<seq<real>>, similarity: real -> real, ttl: real)
    requires normal != [] && busy != []
    ensures RecentPass(round4, normal, busy, similarity)(ttl) <==>
      CoveragePass(round4, normal, busy, ttl) && similarity(ttl) >= 0.90
  {}
}
