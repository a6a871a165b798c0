/** The controlled time-to-live experiment: how often an arrival finds recent cases, or a consolidated
    profile, that have not expired. Events are their arrival times in days. */
module TtlExperiment {
  import opened Optional
  import opened Reals

  /** Times do not decrease. */
  predicate Ordered(times: seq<real>) {
    forall i, j :: 0 <= i < j < |times| ==> times[i] <= times[j]
  }

  lemma OrderedSnoc(times: seq<real>, at: real)
    requires Ordered(times) && (times != [] ==> times[|times| - 1] <= at)
    ensures Ordered(times + [at])
  {}

  const SIMULATION_DAYS := 365.0

  /** The time that the first `n` gaps take. */
  function Elapsed(gaps: seq<real>, n: nat): real
    requires n <= |gaps|
  {
    if n == 0 then 0.0 else Elapsed(gaps, n - 1) + gaps[n - 1]
  }

  /** `generate_events`, for the gaps drawn by the random number generator: event `i` comes after `i + 1` gaps, and
      there are as many events as the gaps leave in the simulated year. */
  method GenerateEvents(gaps: seq<real>) returns (times: seq<real>)
    requires forall i :: 0 <= i < |gaps| ==> gaps[i] >= 0.0
    ensures Ordered(times) && forall i :: 0 <= i < |times| ==> 0.0 <= times[i] <= SIMULATION_DAYS
    ensures |times| <= |gaps| && forall i :: 0 <= i < |times| ==> times[i] == Elapsed(gaps, i + 1)
    ensures |times| < |gaps| ==> Elapsed(gaps, |times| + 1) > 365.0
  {
    var now := 0.0;
    times := [];
    for i := 0 to |gaps|
      invariant Ordered(times) && forall i :: 0 <= i < |times| ==> 0.0 <= times[i] <= SIMULATION_DAYS
      invariant now >= 0.0 && (times != [] ==> times[|times| - 1] <= now)
      invariant |times| == i && now == Elapsed(gaps, i)
      invariant forall k :: 0 <= k < i ==> times[k] == Elapsed(gaps, k + 1)
    {
      now := now + gaps[i];
      if now > SIMULATION_DAYS {
        return;
      }
      OrderedSnoc(times, now);
      times := times + [now];
    }
  }

  // ---------------------------------------------------------------- recent cases

  const PROFILE_MIN_CASES := 3

  /** How many of the first `n` arrivals have not expired at a time: what the inner comprehension keeps. */
  function Available(times: seq<real>, at: real, n: nat, ttl: real): nat
    requires n <= |times|
  {
    if n == 0 then 0 else Available(times, at, n - 1, ttl) + (if at - times[n - 1] <= ttl then 1 else 0)
  }

  /** `k` arrivals are available exactly when the `k`-th last one is. */
  lemma {:induction false} AvailableExactlyWhen(times: seq<real>, at: real, n: nat, ttl: real, k: nat)
    requires Ordered(times) && n <= |times|
    ensures Available(times, at, n, ttl) >= k <==> k == 0 || (k <= n && at - times[n - k] <= ttl)
  {
    if n > 0 && k > 0 {
      if at - times[n - 1] <= ttl {
        AvailableExactlyWhen(times, at, n - 1, ttl, k - 1);
      } else {
        AvailableExactlyWhen(times, at, n - 1, ttl, k);
      }
    }
  }

  /** How many of the arrivals from `from` up to `n` come within the time to live of the one `k` before. */
  function Gaps(times: seq<real>, from: nat, n: nat, k: nat, ttl: real): nat
    requires n <= |times| && k <= from
  {
    if n <= from then 0
    else Gaps(times, from, n - 1, k, ttl) + (if times[n - 1] - times[n - 1 - k] <= ttl then 1 else 0)
  }

  function Total(s: seq<nat>): nat {
    if s == [] then 0 else Total(s[..|s| - 1]) + s[|s| - 1]
  }

  lemma TotalSnoc(s: seq<nat>, x: nat)
    ensures Total(s + [x]) == Total(s) + x
  {
    assert (s + [x])[..|s|] == s;
  }

  /** `evaluate_profile`: from the fourth arrival on, the profile is available when the previous arrival
      was recent enough. */
  method EvaluateProfile(times: seq<real>, ttl: real) returns (eligible: nat, available: nat)
    ensures eligible == (if |times| <= PROFILE_MIN_CASES then 0 else |times| - PROFILE_MIN_CASES)
    ensures available == Gaps(times, PROFILE_MIN_CASES, |times|, 1, ttl)
  {
    var priorCount: nat, lastUpdate := 0, None;
    eligible, available := 0, 0;
    for i := 0 to |times|
      invariant priorCount == i && lastUpdate == if i == 0 then None else Some(times[i - 1])
      invariant eligible == if i <= PROFILE_MIN_CASES then 0 else i - PROFILE_MIN_CASES
      invariant available == Gaps(times, PROFILE_MIN_CASES, i, 1, ttl)
    {
      if priorCount >= PROFILE_MIN_CASES && lastUpdate.Some? {
        eligible := eligible + 1;
        if times[i] - lastUpdate.value <= ttl {
          available := available + 1;
        }
      }
      priorCount := priorCount + 1;
      lastUpdate := Some(times[i]);
    }
  }

  /** A longer time to live never loses coverage, and coverage is at most complete. */
  lemma {:induction false} GapsMonotone(times: seq<real>, from: nat, n: nat, k: nat, ttl: real, longer: real)
    requires n <= |times| && k <= from && ttl <= longer
    ensures Gaps(times, from, n, k, ttl) <= Gaps(times, from, n, k, longer)
    ensures Gaps(times, from, n, k, longer) <= if n <= from then 0 else n - from
  {
    if n > from {
      GapsMonotone(times, from, n - 1, k, ttl, longer);
    }
  }

  /** Two cases are found no more often than one, and one exactly as often as the profile is available,
      apart from the first arrivals. */
  lemma {:induction false} RecentAndProfile(times: seq<real>, n: nat, ttl: real)
    requires Ordered(times) && n <= |times|
    ensures Gaps(times, 2, n, 2, ttl) <= Gaps(times, 1, n, 1, ttl)
    ensures Gaps(times, 3, n, 1, ttl) <= Gaps(times, 1, n, 1, ttl) <= Gaps(times, 3, n, 1, ttl) + 2
  {
    if n > 0 {
      RecentAndProfile(times, n - 1, ttl);
      if n <= 3 {
        FewGaps(times, n, ttl);
      }
    }
  }

  lemma FewGaps(times: seq<real>, n: nat, ttl: real)
    requires n <= 3 && n <= |times|
    ensures Gaps(times, 3, n, 1, ttl) == 0 && Gaps(times, 1, n, 1, ttl) <= 2
  {
    GapsMonotone(times, 1, n, 1, ttl, ttl);
  }

  // ---------------------------------------------------------------- rates

  function Rate(count: nat, eligible: nat): (r: real)
    ensures count <= eligible ==> 0.0 <= r <= 1.0
  {
    var d := (if eligible == 0 then 1 else eligible) as real;
    if count <= eligible then DivBounds(count as real, d); count as real / d else count as real / d
  }

  function CoverageTop2(times: seq<real>, ttl: real): real {
    Rate(Gaps(times, 2, |times|, 2, ttl), if |times| == 0 then 0 else |times| - 1)
  }

  function Availability(times: seq<real>, ttl: real): real {
    Rate(Gaps(times, PROFILE_MIN_CASES, |times|, 1, ttl),
         if |times| <= PROFILE_MIN_CASES then 0 else |times| - PROFILE_MIN_CASES)
  }

  lemma RatesMonotone(times: seq<real>, ttl: real, longer: real)
    requires ttl <= longer
    ensures 0.0 <= CoverageTop2(times, ttl) <= CoverageTop2(times, longer) <= 1.0
    ensures 0.0 <= Availability(times, ttl) <= Availability(times, longer) <= 1.0
  {
    RateMonotone(times, 2, 2, if |times| == 0 then 0 else |times| - 1, ttl, longer);
    RateMonotone(times, PROFILE_MIN_CASES, 1,
                 if |times| <= PROFILE_MIN_CASES then 0 else |times| - PROFILE_MIN_CASES, ttl, longer);
  }

  lemma RateMonotone(times: seq<real>, from: nat, k: nat, eligible: nat, ttl: real, longer: real)
    requires k <= from && ttl <= longer && (if |times| <= from then 0 else |times| - from) <= eligible
    ensures 0.0 <= Rate(Gaps(times, from, |times|, k, ttl), eligible) <=
      Rate(Gaps(times, from, |times|, k, longer), eligible) <= 1.0
  {
    GapsMonotone(times, from, |times|, k, ttl, longer);
    DivMonotone(Gaps(times, from, |times|, k, ttl) as real, Gaps(times, from, |times|, k, longer) as real,
                (if eligible == 0 then 1 else eligible) as real);
  }

  function SumOver(streams: seq<seq<real>>, rate: (seq<real>, real) -> real, ttl: real): real {
    if streams == [] then 0.0 else SumOver(streams[..|streams| - 1], rate, ttl) + rate(streams[|streams| - 1], ttl)
  }

  /** The mean over the event streams of a cadence, rounded. */
  function Metric(round4: Rounding, streams: seq<seq<real>>, rate: (seq<real>, real) -> real, ttl: real): real
    requires streams != []
  {
    round4(SumOver(streams, rate, ttl) / |streams| as real)
  }

  ghost predicate MonotoneRate(rate: (seq<real>, real) -> real) {
    forall times, ttl, longer :: ttl <= longer ==> rate(times, ttl) <= rate(times, longer)
  }

  lemma {:induction false} SumMonotone(streams: seq<seq<real>>, rate: (seq<real>, real) -> real, ttl: real,
                                       longer: real)
    requires MonotoneRate(rate) && ttl <= longer
    ensures SumOver(streams, rate, ttl) <= SumOver(streams, rate, longer)
  {
    if streams != [] {
      SumMonotone(streams[..|streams| - 1], rate, ttl, longer);
    }
  }

  lemma MetricMonotone(round4: Rounding, streams: seq<seq<real>>, rate: (seq<real>, real) -> real, ttl: real,
                       longer: real)
    requires streams != [] && MonotoneRate(rate) && ttl <= longer
    ensures Metric(round4, streams, rate, ttl) <= Metric(round4, streams, rate, longer)
  {
    SumMonotone(streams, rate, ttl, longer);
    RoundedDivMonotone(round4, SumOver(streams, rate, ttl), SumOver(streams, rate, longer), |streams| as real);
  }

  // ---------------------------------------------------------------- the choice

  predicate Increasing(candidates: seq<real>) {
    forall i, j :: 0 <= i < j < |candidates| ==> candidates[i] < candidates[j]
  }

  /** `next((ttl for ttl in candidates if ...), None)` */
  function FirstPassing(candidates: seq<real>, pass: real -> bool): Option<real> {
    if candidates == [] then None
    else if pass(candidates[0]) then Some(candidates[0])
    else FirstPassing(candidates[1..], pass)
  }

  /** Once a candidate passes, all longer ones do. */
  ghost predicate UpwardClosed(candidates: seq<real>, pass: real -> bool) {
    forall c, d :: c in candidates && d in candidates && c <= d && pass(c) ==> pass(d)
  }

  /** The first passing candidate is the least one. */
  lemma {:induction false} FirstPassingIsLeast(candidates: seq<real>, pass: real -> bool)
    requires Increasing(candidates)
    ensures var r := FirstPassing(candidates, pass);
      && (r.None? <==> forall c :: c in candidates ==> !pass(c))
      && (r.Some? ==> r.value in candidates && pass(r.value) && forall c :: c in candidates && pass(c) ==> r.value <= c)
  {
    if candidates != [] {
      var rest := candidates[1..];
      assert Increasing(rest) by {
        forall i, j | 0 <= i < j < |rest| ensures rest[i] < rest[j] {
          assert candidates[i + 1] < candidates[j + 1];
        }
      }
      FirstPassingIsLeast(rest, pass);
      forall c | c in candidates ensures c == candidates[0] || (c in rest && candidates[0] < c) {
        var i :| 0 <= i < |candidates| && candidates[i] == c;
        assert i > 0 ==> rest[i - 1] == c;
      }
      assert candidates[0] in candidates && forall c :: c in rest ==> c in candidates;
    }
  }

  /** When passing is upward closed, the choice is a threshold. */
  lemma ChoiceIsThreshold(candidates: seq<real>, pass: real -> bool)
    requires Increasing(candidates) && UpwardClosed(candidates, pass)
    ensures var r := FirstPassing(candidates, pass);
      forall c :: c in candidates ==> (pass(c) <==> r.Some? && r.value <= c)
  {
    FirstPassingIsLeast(candidates, pass);
  }

  /** The profile gate: availability in every cadence. */
  function ProfilePass(round4: Rounding, cadences: seq<seq<seq<real>>>): real -> bool
    requires forall streams :: streams in cadences ==> streams != []
  {
    (ttl: real) => forall streams :: streams in cadences ==> Metric(round4, streams, Availability, ttl) >= 0.99
  }

  lemma RatesAreMonotone()
    ensures MonotoneRate(Availability) && MonotoneRate(CoverageTop2)
  {
    forall times: seq<real>, ttl: real, longer: real | ttl <= longer
      ensures Availability(times, ttl) <= Availability(times, longer)
        && CoverageTop2(times, ttl) <= CoverageTop2(times, longer)
    {
      RatesMonotone(times, ttl, longer);
    }
  }

  /** The chosen profile time to live is a threshold: exactly the candidates from it on pass. */
  lemma ProfileChoiceIsThreshold(round4: Rounding, cadences: seq<seq<seq<real>>>, candidates: seq<real>)
    requires (forall streams :: streams in cadences ==> streams != []) && Increasing(candidates)
    ensures var pass := ProfilePass(round4, cadences);
      var r := FirstPassing(candidates, pass);
      forall c :: c in candidates ==> (pass(c) <==> r.Some? && r.value <= c)
  {
    var pass := ProfilePass(round4, cadences);
    RatesAreMonotone();
    forall c, d | c in candidates && d in candidates && c <= d && pass(c) ensures pass(d) {
      forall streams | streams in cadences ensures Metric(round4, streams, Availability, d) >= 0.99 {
        MetricMonotone(round4, streams, Availability, c, d);
        assert Metric(round4, streams, Availability, c) >= 0.99;
      }
    }
    ChoiceIsThreshold(candidates, pass);
  }

  /** The coverage gates of recent cases. */
  predicate CoveragePass(round4: Rounding, normal: seq<seq<real>>, busy: seq<seq<real>>, ttl: real)
    requires normal != [] && busy != []
  {
    Metric(round4, normal, CoverageTop2, ttl) >= 0.90 && Metric(round4, busy, CoverageTop2, ttl) >= 0.95
  }

  /** Recent cases must also be similar enough; how similar they are is arbitrary. */
  function RecentPass(round4: Rounding, normal: seq<seq<real>>, busy: seq<seq<real>>,
                      similarity: real -> real): real -> bool
    requires normal != [] && busy != []
  {
    (ttl: real) => CoveragePass(round4, normal, busy, ttl) && similarity(ttl) >= 0.90
  }

  lemma CoverageStays(round4: Rounding, normal: seq<seq<real>>, busy: seq<seq<real>>, ttl: real, longer: real)
    requires normal != [] && busy != [] && ttl <= longer && CoveragePass(round4, normal, busy, ttl)
    ensures CoveragePass(round4, normal, busy, longer)
  {
    RatesAreMonotone();
    MetricMonotone(round4, normal, CoverageTop2, ttl, longer);
    MetricMonotone(round4, busy, CoverageTop2, ttl, longer);
  }

  /** The chosen time to live for recent cases is the least that passes. All longer candidates keep the
      coverage, so such a candidate passes exactly when it keeps the similarity: the choice is a
      threshold exactly when all longer candidates do. */
  lemma RecentChoiceIsThresholdExactlyWhen(round4: Rounding, normal: seq<seq<real>>, busy: seq<seq<real>>,
                                           similarity: real -> real, candidates: seq<real>, c: real)
    requires normal != [] && busy != [] && Increasing(candidates) && c in candidates
    ensures var pass := RecentPass(round4, normal, busy, similarity);
      var r := FirstPassing(candidates, pass);
      && (r.None? ==> !pass(c))
      && (r.Some? && pass(c) ==> r.value <= c)
      && (r.Some? && r.value <= c ==> (pass(c) <==> similarity(c) >= 0.90))
  {
    var pass := RecentPass(round4, normal, busy, similarity);
    FirstPassingIsLeast(candidates, pass);
    var r := FirstPassing(candidates, pass);
    if r.Some? && r.value <= c {
      assert pass(r.value);
      CoverageStays(round4, normal, busy, r.value, c);
    }
  }
}
