/** What the time-to-live experiment measures and asks for, told without its scans: how many arrivals find what they
    need, what the means are means of, and how high the gates stand. */
module TtlRules {
  import opened Reals
  import opened TtlExperiment
  import opened RecentCases
  import opened RecentChoice

  /** Arrival `i` comes within the time to live of the one `k` before. */
  predicate ComesWithin(times: seq<real>, i: nat, k: nat, ttl: real) {
    k <= i < |times| && times[i] - times[i - k] <= ttl
  }

  /** The arrivals from number `from` up to `n` that do. */
  function Served(times: seq<real>, from: nat, n: nat, k: nat, ttl: real): set<nat> {
    set i: nat | from <= i < n && ComesWithin(times, i, k, ttl)
  }

  lemma {:induction false} ServedCount(times: seq<real>, from: nat, n: nat, k: nat, ttl: real)
    requires k <= from && n <= |times|
    ensures Gaps(times, from, n, k, ttl) == |Served(times, from, n, k, ttl)|
  {
    if n <= from {
      assert Served(times, from, n, k, ttl) == {};
    } else {
      ServedCount(times, from, n - 1, k, ttl);
      var before, last := Served(times, from, n - 1, k, ttl), if ComesWithin(times, n - 1, k, ttl) then {n - 1} else {};
      assert Served(times, from, n, k, ttl) == before + last && before !! last;
    }
  }

  lemma RateTimes(count: nat, eligible: nat)
    ensures Rate(count, eligible) * (if eligible == 0 then 1 else eligible) as real == count as real
  {
    Quotient(count as real, (if eligible == 0 then 1 else eligible) as real);
  }

  /** Coverage by two cases is the share of the arrivals but the first that come within the time to live of the
      second one before them. */
  lemma CoverageIs(times: seq<real>, ttl: real)
    ensures CoverageTop2(times, ttl) * (if |times| < 2 then 1 else |times| - 1) as real ==
      |Served(times, 2, |times|, 2, ttl)| as real
  {
    ServedCount(times, 2, |times|, 2, ttl);
    RateTimes(Gaps(times, 2, |times|, 2, ttl), if |times| == 0 then 0 else |times| - 1);
  }

  /** A profile is available to the share of the arrivals but the first three that come within the time to live of
      the one before them. */
  lemma AvailabilityIs(times: seq<real>, ttl: real)
    ensures Availability(times, ttl) * (if |times| < 4 then 1 else |times| - 3) as real ==
      |Served(times, 3, |times|, 1, ttl)| as real
  {
    ServedCount(times, 3, |times|, 1, ttl);
    RateTimes(Gaps(times, 3, |times|, 1, ttl), if |times| <= 3 then 0 else |times| - 3);
  }

  /** The value is the rounded mean of some numbers with that total. */
  ghost predicate IsMean(round4: Rounding, value: real, total: real, count: nat) {
    exists mean :: IsShare(mean, total, count) && value == round4(mean)
  }

  predicate IsShare(mean: real, total: real, count: nat) { mean * count as real == total }

  lemma MeanOf(round4: Rounding, total: real, count: nat)
    requires count > 0
    ensures IsMean(round4, round4(total / count as real), total, count)
  {
    Quotient(total, count as real);
    assert IsShare(total / count as real, total, count);
  }

  lemma MeansAre(round4: Rounding, streams: seq<seq<real>>, rate: (seq<real>, real) -> real, ttl: real)
    requires streams != []
    ensures IsMean(round4, Metric(round4, streams, rate, ttl), SumOver(streams, rate, ttl), |streams|)
  {
    MeanOf(round4, SumOver(streams, rate, ttl), |streams|);
  }

  /** The similarity of a cadence is the rounded mean over its streams, and that of a stream the mean of what it
      selects, or zero if that is nothing. */
  lemma SimilaritiesAre(round4: Rounding, streams: seq<Stream>, ttl: real)
    requires streams != []
    ensures IsMean(round4, MeanSimilarity(round4, streams, ttl), SumOfMeans(streams, ttl), |streams|)
  {
    MeanOf(round4, SumOfMeans(streams, ttl), |streams|);
  }

  lemma MeanIs(values: seq<real>)
    ensures if values == [] then Mean(values) == 0.0 else IsShare(Mean(values), Sum(values), |values|)
  {
    if values != [] {
      Quotient(Sum(values), |values| as real);
    }
  }

  /** Two recent cases must be there for 90 % of the arrivals of the normal cadence and 95 % of those of the busy
      one. */
  lemma CoverageGatesAre(round4: Rounding, normal: seq<seq<real>>, busy: seq<seq<real>>, ttl: real)
    requires normal != [] && busy != []
    ensures CoveragePass(round4, normal, busy, ttl) <==>
      Metric(round4, normal, CoverageTop2, ttl) >= 0.9 && Metric(round4, busy, CoverageTop2, ttl) >= 0.95
  {}

  /** And their similarity must be 0.9. */
  lemma SimilarityGateIs(round4: Rounding, normal: seq<seq<real>>, busy: seq<seq<real>>, similarity: real -> real,
                         ttl: real)
    requires normal != [] && busy != []
    ensures RecentPass(round4, normal, busy, similarity)(ttl) <==>
      CoveragePass(round4, normal, busy, ttl) && similarity(ttl) >= 0.9
  {}

  /** A profile must be available to 99 % of the arrivals in every cadence. */
  lemma ProfileGatesAre(round4: Rounding, cadences: seq<seq<seq<real>>>, ttl: real)
    requires forall streams :: streams in cadences ==> streams != []
    ensures ProfilePass(round4, cadences)(ttl) <==>
      forall streams :: streams in cadences ==> Metric(round4, streams, Availability, ttl) >= 0.99
  {}

  /** The times of the streams, in their order. */
  lemma {:induction false} TimesAre(streams: seq<Stream>, i: nat)
    requires i < |streams|
    ensures TimesOf(streams)[i] == streams[i].times
  {
    if i < |streams| - 1 {
      TimesAre(streams[..|streams| - 1], i);
    }
  }
}
