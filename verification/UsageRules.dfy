/** What the usage replay counts, told without its loops: what becomes of a row, and what the fractions of a candidate
    are fractions of. */
module UsageRules {
  import opened Optional
  import opened Reals
  import opened UsageReplay

  // ---------------------------------------------------------------- one row

  /** The current type of every accepted one: the four themselves, and seven legacy names for three of them. */
  lemma CurrentTypes(k: Kind)
    ensures Remap(k) == Working <==> k in {Working, Conversation, ShortTerm}
    ensures Remap(k) == Semantic <==> k in {Semantic, Preference, UserPreference, HrFeedback, Domain}
    ensures Remap(k) == Episodic <==> k in {Episodic, Failure}
    ensures Remap(k) == Procedural <==> k == Procedural
    ensures Canonical(Remap(k)) <==> Remap(k) in {Working, Semantic, Episodic, Procedural}
  {}

  /** A row is dropped for the first of four reasons that applies, and is a sample otherwise. */
  lemma DroppedExactlyWhen(row: Row)
    ensures var known := Remap(row.kind) in {Working, Semantic, Episodic, Procedural};
      var aged := row.age.Some? && 0.0 <= row.age.value;
      && (Judge(row) == MissingType <==> !known)
      && (Judge(row) == MissingAge <==> known && row.age.None?)
      && (Judge(row) == NegativeAge <==> known && row.age.Some? && row.age.value < 0.0)
      && (Judge(row) == UnsupportedDecision <==> known && aged && row.decision != Used && row.decision != Ignored)
      && (Judge(row).Valid? <==> known && aged && (row.decision == Used || row.decision == Ignored))
  {}

  /** The sample of a row: its current type, whether it was used, its age in days of 86400 seconds, and its score
      brought into the range from one twentieth to one - one if it has none. */
  lemma SampleIs(row: Row)
    requires Judge(row).Valid?
    ensures var s := Judge(row).sample;
      && s.kind == Remap(row.kind) && (s.used <==> row.decision == Used)
      && row.age.Some? && s.age * 86400.0 == row.age.value
      && (row.score.None? ==> s.weight == 1.0)
      && (row.score.Some? ==>
            && 1.0 <= 20.0 * s.weight <= 20.0
            && (1.0 <= 20.0 * row.score.value <= 20.0 ==> s.weight == row.score.value)
            && (20.0 * row.score.value < 1.0 ==> 20.0 * s.weight == 1.0)
            && (1.0 < row.score.value ==> s.weight == 1.0))
  {}

  // ---------------------------------------------------------------- counting

  /** The places at which a sample satisfies `p`. */
  function Places(samples: seq<Sample>, p: Sample -> bool): set<nat> {
    set i: nat | i < |samples| && p(samples[i])
  }

  /** How many samples satisfy `p`. */
  function Count(samples: seq<Sample>, p: Sample -> bool): nat { |Places(samples, p)| }

  lemma PlacesSnoc(samples: seq<Sample>, p: Sample -> bool)
    requires samples != []
    ensures var n := |samples| - 1;
      |Places(samples, p)| == |Places(samples[..n], p)| + if p(samples[n]) then 1 else 0
  {
    var n := |samples| - 1;
    var init := samples[..n];
    assert Places(samples, p) == Places(init, p) + (if p(samples[n]) then {n} else {}) by {
      assert forall i: nat :: i < n ==> init[i] == samples[i];
    }
    assert n !in Places(init, p);
  }

  lemma {:induction false} KeptCounts(samples: seq<Sample>, p: Sample -> bool)
    ensures |Kept(samples, p)| == Count(samples, p)
  {
    if samples == [] {
      assert Places(samples, p) == {};
    } else {
      KeptCounts(samples[..|samples| - 1], p);
      PlacesSnoc(samples, p);
    }
  }

  /** Keeping twice is keeping what satisfies both. */
  function Both(p: Sample -> bool, q: Sample -> bool): Sample -> bool {
    (s: Sample) => p(s) && q(s)
  }

  lemma {:induction false} KeptTwice(samples: seq<Sample>, p: Sample -> bool, q: Sample -> bool)
    ensures Kept(Kept(samples, p), q) == Kept(samples, Both(p, q))
  {
    if samples != [] {
      var init, last := samples[..|samples| - 1], samples[|samples| - 1];
      KeptTwice(init, p, q);
      if p(last) {
        KeptSnoc(Kept(init, p), last, q);
      } else {
        assert Kept(init, p) + [] == Kept(init, p);
        assert Kept(init, Both(p, q)) + [] == Kept(init, Both(p, q));
      }
    }
  }

  lemma KeptSnoc(samples: seq<Sample>, last: Sample, q: Sample -> bool)
    ensures Kept(samples + [last], q) == Kept(samples, q) + if q(last) then [last] else []
  {
    assert (samples + [last])[..|samples|] == samples;
  }

  /** What the samples that satisfy `p` weigh together. */
  function WeightWhere(samples: seq<Sample>, p: Sample -> bool): real {
    if samples == [] then 0.0
    else (if p(samples[0]) then samples[0].weight else 0.0) + WeightWhere(samples[1..], p)
  }

  lemma {:induction false} WeightWhereSnoc(samples: seq<Sample>, last: Sample, p: Sample -> bool)
    ensures WeightWhere(samples + [last], p) == WeightWhere(samples, p) + if p(last) then last.weight else 0.0
  {
    if samples != [] {
      WeightWhereSnoc(samples[1..], last, p);
      assert (samples + [last])[1..] == samples[1..] + [last];
    } else {
      assert [last][1..] == [];
      assert WeightWhere([], p) == 0.0;
    }
  }

  lemma {:induction false} KeptWeighs(samples: seq<Sample>, p: Sample -> bool)
    ensures WeightOf(Kept(samples, p)) == WeightWhere(samples, p)
  {
    if samples != [] {
      var init, last := samples[..|samples| - 1], samples[|samples| - 1];
      KeptWeighs(init, p);
      KeptInit(samples, p);
      WeightWhereSnoc(init, last, p);
      assert samples == init + [last];
    }
  }

  // ---------------------------------------------------------------- the fractions of a candidate

  /** `r` is the rounded fraction `part / whole`, which there is only of something. */
  ghost predicate IsFraction(round4: Rounding, r: Option<real>, part: real, whole: real) {
    if whole <= 0.0 then r.None? else exists q :: IsQuotient(q, part, whole) && r == Some(round4(q))
  }

  predicate IsQuotient(q: real, part: real, whole: real) { q * whole == part }

  lemma RatioIsFraction(round4: Rounding, part: real, whole: real)
    ensures IsFraction(round4, Ratio(round4, part, whole), part, whole)
  {
    if whole > 0.0 {
      Quotient(part, whole);
      assert IsQuotient(part / whole, part, whole);
    }
  }

  /** Used, and not older than the time to live. */
  function UsedWithin(ttl: real): Sample -> bool { (s: Sample) => s.used && s.age <= ttl }

  /** Ignored, and older than the time to live. */
  function IgnoredAfter(ttl: real): Sample -> bool { (s: Sample) => !s.used && s.age > ttl }

  /** What a candidate is judged by: of the used samples the share, by number and by weight, that is not older than
      it; of the ignored ones the share that is; and of all samples the share that is not. */
  ghost predicate IsJudged(round4: Rounding, samples: seq<Sample>, c: Candidate) {
    && IsFraction(round4, c.retention, Count(samples, UsedWithin(c.ttl)) as real, Count(samples, IsUsed()) as real)
    && IsFraction(round4, c.weighted, WeightWhere(samples, UsedWithin(c.ttl)), WeightWhere(samples, IsUsed()))
    && IsFraction(round4, c.expired, Count(samples, IgnoredAfter(c.ttl)) as real, Count(samples, IsIgnored()) as real)
    && IsFraction(round4, c.all, Count(samples, Within(c.ttl)) as real, |samples| as real)
  }

  predicate Reaches(share: Option<real>, floor: real) { share.Some? && share.value >= floor }

  /** A candidate is judged by these shares, and passes when both shares of the used samples reach the floor. */
  lemma CandidateMeans(round4: Rounding, samples: seq<Sample>, floor: real, ttl: real)
    ensures var c := CandidateFor(round4, samples, floor, ttl);
      && c.ttl == ttl && IsJudged(round4, samples, c)
      && (c.passes <==> Reaches(c.retention, floor) && Reaches(c.weighted, floor))
  {
    UsedMeans(round4, samples, ttl);
    IgnoredMeans(round4, samples, ttl);
    AllMeans(round4, samples, ttl);
  }

  lemma AllMeans(round4: Rounding, samples: seq<Sample>, ttl: real)
    ensures IsFraction(round4, Ratio(round4, |Kept(samples, Within(ttl))| as real, |samples| as real),
                       Count(samples, Within(ttl)) as real, |samples| as real)
  {
    KeptCounts(samples, Within(ttl));
    RatioIsFraction(round4, |Kept(samples, Within(ttl))| as real, |samples| as real);
  }

  lemma UsedMeans(round4: Rounding, samples: seq<Sample>, ttl: real)
    ensures IsFraction(round4, Retention(round4, Kept(samples, IsUsed()), ttl),
                       Count(samples, UsedWithin(ttl)) as real, Count(samples, IsUsed()) as real)
    ensures IsFraction(round4, WeightedRetention(round4, Kept(samples, IsUsed()), ttl),
                       WeightWhere(samples, UsedWithin(ttl)), WeightWhere(samples, IsUsed()))
  {
    var used := Kept(samples, IsUsed());
    KeptTwice(samples, IsUsed(), Within(ttl));
    KeptSame(samples, Both(IsUsed(), Within(ttl)), UsedWithin(ttl));
    KeptCounts(samples, IsUsed());
    KeptCounts(samples, UsedWithin(ttl));
    KeptWeighs(samples, IsUsed());
    KeptWeighs(samples, UsedWithin(ttl));
    RatioIsFraction(round4, |Kept(used, Within(ttl))| as real, |used| as real);
    RatioIsFraction(round4, WeightOf(Kept(used, Within(ttl))), WeightOf(used));
  }

  lemma {:induction false} KeptSame(samples: seq<Sample>, p: Sample -> bool, q: Sample -> bool)
    requires forall s :: p(s) == q(s)
    ensures Kept(samples, p) == Kept(samples, q)
  {
    if samples != [] {
      KeptSame(samples[..|samples| - 1], p, q);
    }
  }

  lemma IgnoredMeans(round4: Rounding, samples: seq<Sample>, ttl: real)
    ensures IsFraction(round4, Expired(round4, Kept(samples, IsIgnored()), ttl),
                       Count(samples, IgnoredAfter(ttl)) as real, Count(samples, IsIgnored()) as real)
  {
    var ignored := Kept(samples, IsIgnored());
    KeptTwice(samples, IsIgnored(), Within(ttl));
    KeptCounts(samples, IsIgnored());
    Complement(samples, ttl);
    assert Lost(ignored, ttl) == Count(samples, IgnoredAfter(ttl));
    RatioIsFraction(round4, Lost(ignored, ttl) as real, |ignored| as real);
  }

  /** The ignored samples are those that are still there and those that have expired. */
  lemma {:induction false} Complement(samples: seq<Sample>, ttl: real)
    ensures |Kept(samples, IsIgnored())| ==
      |Kept(samples, Both(IsIgnored(), Within(ttl)))| + Count(samples, IgnoredAfter(ttl))
  {
    if samples == [] {
      assert Places(samples, IgnoredAfter(ttl)) == {};
    } else {
      Complement(samples[..|samples| - 1], ttl);
      PlacesSnoc(samples, IgnoredAfter(ttl));
    }
  }

  // ---------------------------------------------------------------- buckets and ages

  function AgedFromTo(lower: real, upper: real): Sample -> bool { (s: Sample) => lower <= s.age < upper }

  function AgedFrom(lower: real): Sample -> bool { (s: Sample) => lower <= s.age }

  /** A bucket holds the samples whose age lies in its half-open range. */
  lemma {:induction false} BucketCounts(samples: seq<Sample>, lower: real, upper: real)
    ensures CountIn(samples, lower, upper) == Count(samples, AgedFromTo(lower, upper))
    ensures CountFrom(samples, lower) == Count(samples, AgedFrom(lower))
  {
    if samples == [] {
      assert Places(samples, AgedFromTo(lower, upper)) == {} && Places(samples, AgedFrom(lower)) == {};
    } else {
      BucketCounts(samples[..|samples| - 1], lower, upper);
      PlacesSnoc(samples, AgedFromTo(lower, upper));
      PlacesSnoc(samples, AgedFrom(lower));
    }
  }

  /** The age that the history must reach is compared with that of the oldest sample. */
  lemma {:induction false} MaxAgeIs(samples: seq<Sample>)
    requires Sound(samples)
    ensures forall s :: s in samples ==> s.age <= MaxAge(samples)
    ensures if samples == [] then MaxAge(samples) == 0.0 else exists s :: s in samples && s.age == MaxAge(samples)
  {
    if samples != [] {
      var init, last := samples[..|samples| - 1], samples[|samples| - 1];
      assert (forall s :: s in init ==> s in samples) && last in samples;
      assert forall s :: s in samples ==> s in init || s == last;
      MaxAgeIs(init);
    }
  }
}
