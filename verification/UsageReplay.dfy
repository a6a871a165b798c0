/** Replaying recorded memory usage under different times to live: cleaning the rows, the histogram of
    ages, and the least candidate that keeps enough of what was used. */
module UsageReplay {
  import opened Optional
  import opened Reals
  import opened TtlExperiment

  // ---------------------------------------------------------------- cleaning the rows

  /** A memory type, stripped and in upper case; `Other` is any further text. */
  datatype Kind = Working | Semantic | Episodic | Procedural
    | Conversation | ShortTerm | Preference | UserPreference | HrFeedback | Domain | Failure | Other(text: string)

  function Remap(k: Kind): Kind {
    match k
    case Conversation | ShortTerm => Working
    case Preference | UserPreference | HrFeedback | Domain => Semantic
    case Failure => Episodic
    case _ => k
  }

  predicate Canonical(k: Kind) {
    k == Working || k == Semantic || k == Episodic || k == Procedural
  }

  const LEGACY := [Conversation, ShortTerm, Preference, UserPreference, HrFeedback, Domain, Failure]

  datatype Decision = Used | Ignored | Unsupported

  /** Age in seconds and score, where they are finite numbers. */
  datatype Row = Row(kind: Kind, age: Option<real>, decision: Decision, score: Option<real>)

  datatype Sample = Sample(kind: Kind, used: bool, age: real, weight: real)

  datatype Verdict = Valid(sample: Sample) | MissingType | MissingAge | NegativeAge | UnsupportedDecision

  function Weight(score: Option<real>): (w: real)
    ensures 0.05 <= w <= 1.0
  {
    var s := if score.Some? then score.value else 1.0;
    var low := if s < 0.05 then 0.05 else s;
    if low < 1.0 then low else 1.0
  }

  function Judge(row: Row): Verdict {
    var kind := Remap(row.kind);
    if !Canonical(kind) then MissingType
    else if row.age.None? then MissingAge
    else if row.age.value < 0.0 then NegativeAge
    else if row.decision.Unsupported? then UnsupportedDecision
    else Valid(Sample(kind, row.decision.Used?, row.age.value / 86400.0, Weight(row.score)))
  }

  /** The valid samples, in order. */
  function Samples(rows: seq<Row>): seq<Sample> {
    if rows == [] then []
    else
      var v := Judge(rows[|rows| - 1]);
      Samples(rows[..|rows| - 1]) + (if v.Valid? then [v.sample] else [])
  }

  function Remapped(rows: seq<Row>): nat {
    if rows == [] then 0
    else
      var last := rows[|rows| - 1].kind;
      Remapped(rows[..|rows| - 1]) + (if Remap(last) != last then 1 else 0)
  }

  datatype Diagnostics = Diagnostics(inputRows: nat, missingType: nat, remapped: nat, legacyCounts: map<Kind, nat>,
                                     missingAge: nat, negativeAge: nat, unsupported: nat, validRows: nat)

  function Get(counts: map<Kind, nat>, k: Kind): nat {
    if k in counts then counts[k] else 0
  }

  function SumCounts(counts: map<Kind, nat>, kinds: seq<Kind>): nat {
    if kinds == [] then 0 else Get(counts, kinds[0]) + SumCounts(counts, kinds[1..])
  }

  lemma {:induction false} SumUpdate(counts: map<Kind, nat>, kinds: seq<Kind>, k: Kind)
    requires forall i, j :: 0 <= i < j < |kinds| ==> kinds[i] != kinds[j]
    ensures SumCounts(counts[k := Get(counts, k) + 1], kinds) == SumCounts(counts, kinds) +
      (if k in kinds then 1 else 0)
  {
    if kinds != [] {
      SumUpdate(counts, kinds[1..], k);
      assert k in kinds <==> k == kinds[0] || k in kinds[1..];
      assert kinds[0] !in kinds[1..];
    }
  }

  lemma LegacyKinds(k: Kind)
    ensures Remap(k) != k <==> k in LEGACY
    ensures Canonical(k) ==> Remap(k) == k
    ensures Remap(Remap(k)) == Remap(k)
  {}

  /** Every row is accounted for once: it is a sample or was dropped for one reason. */
  predicate Accounted(d: Diagnostics) {
    d.inputRows == d.validRows + d.missingType + d.missingAge + d.negativeAge + d.unsupported
  }

  /** Counting a row and its legacy type. */
  function TallyKind(d: Diagnostics, kind: Kind): Diagnostics {
    if Remap(kind) == kind then d.(inputRows := d.inputRows + 1)
    else d.(inputRows := d.inputRows + 1, remapped := d.remapped + 1,
            legacyCounts := d.legacyCounts[kind := Get(d.legacyCounts, kind) + 1])
  }

  /** Counting what became of a row. */
  function TallyVerdict(d: Diagnostics, v: Verdict): Diagnostics {
    match v
    case MissingType => d.(missingType := d.missingType + 1)
    case MissingAge => d.(missingAge := d.missingAge + 1)
    case NegativeAge => d.(negativeAge := d.negativeAge + 1)
    case UnsupportedDecision => d.(unsupported := d.unsupported + 1)
    case Valid(_) => d.(validRows := d.validRows + 1)
  }

  /** How many rows have a legacy type. */
  function LegacyCount(rows: seq<Row>, k: Kind): nat {
    if rows == [] then 0
    else
      var last := rows[|rows| - 1].kind;
      LegacyCount(rows[..|rows| - 1], k) + (if last == k && Remap(last) != last then 1 else 0)
  }

  ghost predicate KindsDescribed(d: Diagnostics, rows: seq<Row>) {
    && d.remapped == Remapped(rows) == SumCounts(d.legacyCounts, LEGACY)
    && forall k :: Get(d.legacyCounts, k) == LegacyCount(rows, k)
  }

  /** What the diagnostics say after some rows. */
  ghost predicate Describes(d: Diagnostics, rows: seq<Row>) {
    d.inputRows == |rows| && d.validRows == |Samples(rows)| && Accounted(d) && KindsDescribed(d, rows)
  }

  lemma KindSnoc(rows: seq<Row>, row: Row)
    ensures Remapped(rows + [row]) == Remapped(rows) + (if Remap(row.kind) != row.kind then 1 else 0)
    ensures forall k ::
      LegacyCount(rows + [row], k) == LegacyCount(rows, k) + (if row.kind == k && Remap(k) != k then 1 else 0)
  {
    var all := rows + [row];
    assert all[..|all| - 1] == rows && all[|all| - 1] == row;
  }

  lemma KindsNext(d: Diagnostics, rows: seq<Row>, row: Row)
    requires KindsDescribed(d, rows)
    ensures KindsDescribed(TallyKind(d, row.kind), rows + [row])
  {
    KindSnoc(rows, row);
    SumUpdate(d.legacyCounts, LEGACY, row.kind);
    LegacyKinds(row.kind);
    CountsNext(d, rows, row);
  }

  lemma CountsNext(d: Diagnostics, rows: seq<Row>, row: Row)
    requires forall k :: Get(d.legacyCounts, k) == LegacyCount(rows, k)
    ensures forall k :: Get(TallyKind(d, row.kind).legacyCounts, k) == LegacyCount(rows + [row], k)
  {
    KindSnoc(rows, row);
  }

  lemma SamplesNext(rows: seq<Row>, row: Row)
    ensures Samples(rows + [row]) == Samples(rows) + if Judge(row).Valid? then [Judge(row).sample] else []
  {
    var all := rows + [row];
    assert all[..|all| - 1] == rows && all[|all| - 1] == row;
  }

  lemma VerdictKeepsKinds(d: Diagnostics, v: Verdict, rows: seq<Row>)
    requires KindsDescribed(d, rows)
    ensures KindsDescribed(TallyVerdict(d, v), rows)
  {}

  lemma {:induction false} NothingCounted(kinds: seq<Kind>)
    ensures SumCounts(map[], kinds) == 0
  {
    if kinds != [] {
      NothingCounted(kinds[1..]);
    }
  }

  /** The diagnostics of a list of rows. */
  function Diagnose(rows: seq<Row>): Diagnostics {
    if rows == [] then Diagnostics(0, 0, 0, map[], 0, 0, 0, 0)
    else
      var row := rows[|rows| - 1];
      TallyVerdict(TallyKind(Diagnose(rows[..|rows| - 1]), row.kind), Judge(row))
  }

  lemma RowNext(rows: seq<Row>, i: nat)
    requires i < |rows|
    ensures Diagnose(rows[..i + 1]) == TallyVerdict(TallyKind(Diagnose(rows[..i]), rows[i].kind), Judge(rows[i]))
    ensures Samples(rows[..i + 1]) == Samples(rows[..i]) + if Judge(rows[i]).Valid? then [Judge(rows[i]).sample] else []
  {
    assert rows[..i + 1][..i] == rows[..i];
  }

  /** `normalize_usage`: the samples are the valid rows, in order. */
  method NormalizeUsage(rows: seq<Row>) returns (samples: seq<Sample>, d: Diagnostics)
    ensures samples == Samples(rows) && d == Diagnose(rows)
  {
    samples, d := [], Diagnostics(0, 0, 0, map[], 0, 0, 0, 0);
    for i := 0 to |rows|
      invariant samples == Samples(rows[..i]) && d == Diagnose(rows[..i])
    {
      RowNext(rows, i);
      var v := Judge(rows[i]);
      d := TallyVerdict(TallyKind(d, rows[i].kind), v);
      if v.Valid? {
        samples := samples + [v.sample];
      }
    }
    assert rows[..|rows|] == rows;
  }

  lemma NothingDescribed()
    ensures Describes(Diagnostics(0, 0, 0, map[], 0, 0, 0, 0), [])
  {
    NothingCounted(LEGACY);
  }

  lemma RowCounted(d: Diagnostics, kind: Kind, v: Verdict)
    requires Accounted(d)
    ensures var n := TallyVerdict(TallyKind(d, kind), v);
      n.inputRows == d.inputRows + 1 && n.validRows == d.validRows + (if v.Valid? then 1 else 0) && Accounted(n)
  {}

  lemma StepDescribed(d: Diagnostics, rows: seq<Row>, row: Row)
    requires Describes(d, rows)
    ensures Describes(TallyVerdict(TallyKind(d, row.kind), Judge(row)), rows + [row])
  {
    KindsNext(d, rows, row);
    VerdictKeepsKinds(TallyKind(d, row.kind), Judge(row), rows + [row]);
    SamplesNext(rows, row);
    RowCounted(d, row.kind, Judge(row));
  }

  /** Every input row is a sample or was dropped for exactly one reason, and the counts of legacy types
      are exact and add up to the number of remapped rows. */
  lemma {:induction false} EveryRowIsAccountedFor(rows: seq<Row>)
    ensures Describes(Diagnose(rows), rows)
  {
    if rows == [] {
      NothingDescribed();
    } else {
      var init, row := rows[..|rows| - 1], rows[|rows| - 1];
      EveryRowIsAccountedFor(init);
      StepDescribed(Diagnose(init), init, row);
      assert rows == init + [row];
    }
  }

  ghost predicate Sound(samples: seq<Sample>) {
    forall s :: s in samples ==> Canonical(s.kind) && s.age >= 0.0 && 0.05 <= s.weight <= 1.0
  }

  /** Samples have a current type, an age that is not negative and a weight between 0.05 and 1. */
  lemma {:induction false} SamplesAreSound(rows: seq<Row>)
    ensures Sound(Samples(rows)) && |Samples(rows)| <= |rows|
  {
    if rows != [] {
      SamplesAreSound(rows[..|rows| - 1]);
    }
  }

  // ---------------------------------------------------------------- the histogram

  /** How many samples have an age in a half-open range. */
  function CountIn(samples: seq<Sample>, lower: real, upper: real): nat {
    if samples == [] then 0
    else
      CountIn(samples[..|samples| - 1], lower, upper) +
      (if lower <= samples[|samples| - 1].age < upper then 1 else 0)
  }

  function CountFrom(samples: seq<Sample>, lower: real): nat {
    if samples == [] then 0
    else CountFrom(samples[..|samples| - 1], lower) + (if samples[|samples| - 1].age >= lower then 1 else 0)
  }

  lemma {:induction false} RangesAdd(samples: seq<Sample>, a: real, b: real, c: real)
    requires a <= b <= c
    ensures CountIn(samples, a, b) + CountIn(samples, b, c) == CountIn(samples, a, c)
    ensures CountIn(samples, a, b) + CountFrom(samples, b) == CountFrom(samples, a)
    ensures CountIn(samples, a, a) == 0
  {
    if samples != [] {
      RangesAdd(samples[..|samples| - 1], a, b, c);
    }
  }

  lemma {:induction false} AllFromZero(samples: seq<Sample>)
    requires Sound(samples)
    ensures CountFrom(samples, 0.0) == |samples|
  {
    if samples != [] {
      var init := samples[..|samples| - 1];
      assert forall s :: s in init ==> s in samples;
      AllFromZero(init);
      assert samples[|samples| - 1] in samples;
    }
  }

  const AGE_BUCKETS := [1.0, 7.0, 30.0, 90.0, 180.0, 365.0]

  /** `age_histogram`: seven buckets that partition the samples. */
  method AgeHistogram(samples: seq<Sample>) returns (counts: seq<nat>)
    requires Sound(samples)
    ensures |counts| == 7 && Total(counts) == |samples|
    ensures forall i :: 0 <= i < 6 ==>
      counts[i] == CountIn(samples, if i == 0 then 0.0 else AGE_BUCKETS[i - 1], AGE_BUCKETS[i])
    ensures counts[6] == CountFrom(samples, 365.0)
  {
    counts := Histogram(samples, AGE_BUCKETS);
  }

  /** The loop over any increasing list of upper bounds. */
  method Histogram(samples: seq<Sample>, uppers: seq<real>) returns (counts: seq<nat>)
    requires Sound(samples) && uppers != [] && uppers[0] >= 0.0
    requires forall i, j :: 0 <= i < j < |uppers| ==> uppers[i] <= uppers[j]
    ensures |counts| == |uppers| + 1 && Total(counts) == |samples|
    ensures forall i :: 0 <= i < |uppers| ==>
      counts[i] == CountIn(samples, if i == 0 then 0.0 else uppers[i - 1], uppers[i])
    ensures counts[|uppers|] == CountFrom(samples, uppers[|uppers| - 1])
  {
    counts := [];
    var lower := 0.0;
    RangesAdd(samples, 0.0, 0.0, 0.0);
    for i := 0 to |uppers|
      invariant |counts| == i && lower == (if i == 0 then 0.0 else uppers[i - 1]) && 0.0 <= lower
      invariant Total(counts) == CountIn(samples, 0.0, lower)
      invariant forall k :: 0 <= k < i ==>
        counts[k] == CountIn(samples, if k == 0 then 0.0 else uppers[k - 1], uppers[k])
    {
      RangesAdd(samples, 0.0, lower, uppers[i]);
      TotalSnoc(counts, CountIn(samples, lower, uppers[i]));
      counts := counts + [CountIn(samples, lower, uppers[i])];
      lower := uppers[i];
    }
    RangesAdd(samples, 0.0, lower, lower);
    AllFromZero(samples);
    TotalSnoc(counts, CountFrom(samples, lower));
    counts := counts + [CountFrom(samples, lower)];
  }

  // ---------------------------------------------------------------- candidates

  function Kept(samples: seq<Sample>, p: Sample -> bool): seq<Sample> {
    if samples == [] then []
    else
      var last := samples[|samples| - 1];
      Kept(samples[..|samples| - 1], p) + (if p(last) then [last] else [])
  }

  function IsUsed(): Sample -> bool {
    (s: Sample) => s.used
  }

  function IsIgnored(): Sample -> bool {
    (s: Sample) => !s.used
  }

  function Within(ttl: real): Sample -> bool {
    (s: Sample) => s.age <= ttl
  }

  function WeightOf(samples: seq<Sample>): real {
    if samples == [] then 0.0 else WeightOf(samples[..|samples| - 1]) + samples[|samples| - 1].weight
  }

  /** `ratio` */
  function Ratio(round4: Rounding, numerator: real, denominator: real): Option<real> {
    if denominator <= 0.0 then None else Some(round4(numerator / denominator))
  }

  function Retention(round4: Rounding, used: seq<Sample>, ttl: real): Option<real> {
    Ratio(round4, |Kept(used, Within(ttl))| as real, |used| as real)
  }

  function WeightedRetention(round4: Rounding, used: seq<Sample>, ttl: real): Option<real> {
    Ratio(round4, WeightOf(Kept(used, Within(ttl))), WeightOf(used))
  }

  /** The share of ignored samples that is no longer there. */
  function Expired(round4: Rounding, ignored: seq<Sample>, ttl: real): Option<real> {
    Ratio(round4, Lost(ignored, ttl) as real, |ignored| as real)
  }

  function Lost(samples: seq<Sample>, ttl: real): int { |samples| - |Kept(samples, Within(ttl))| }

  /** The quality gate of a candidate. */
  predicate Passes(round4: Rounding, used: seq<Sample>, floor: real, ttl: real) {
    var plain, weighted := Retention(round4, used, ttl), WeightedRetention(round4, used, ttl);
    plain.Some? && weighted.Some? && plain.value >= floor && weighted.value >= floor
  }

  lemma WeightSnoc(samples: seq<Sample>, s: Sample)
    ensures WeightOf(samples + [s]) == WeightOf(samples) + s.weight
  {
    assert (samples + [s])[..|samples|] == samples;
  }

  lemma KeptInit(samples: seq<Sample>, p: Sample -> bool)
    requires samples != []
    ensures var last := samples[|samples| - 1];
      WeightOf(Kept(samples, p)) == WeightOf(Kept(samples[..|samples| - 1], p)) + if p(last) then last.weight else 0.0
  {
    var last, before := samples[|samples| - 1], Kept(samples[..|samples| - 1], p);
    if p(last) {
      WeightSnoc(before, last);
    } else {
      assert before + [] == before;
    }
  }

  /** A longer time to live keeps no less. */
  lemma {:induction false} KeptMonotone(samples: seq<Sample>, ttl: real, longer: real)
    requires Sound(samples) && ttl <= longer
    ensures |Kept(samples, Within(ttl))| <= |Kept(samples, Within(longer))| <= |samples|
    ensures 0.0 <= WeightOf(Kept(samples, Within(ttl))) <= WeightOf(Kept(samples, Within(longer))) <= WeightOf(samples)
  {
    if samples != [] {
      var init, last := samples[..|samples| - 1], samples[|samples| - 1];
      assert (forall s :: s in init ==> s in samples) && last in samples;
      KeptMonotone(init, ttl, longer);
      KeptInit(samples, Within(ttl));
      KeptInit(samples, Within(longer));
    }
  }

  /** Passing is upward closed. */
  lemma PassesUpward(round4: Rounding, used: seq<Sample>, floor: real, ttl: real, longer: real)
    requires Sound(used) && ttl <= longer && Passes(round4, used, floor, ttl)
    ensures Passes(round4, used, floor, longer)
  {
    KeptMonotone(used, ttl, longer);
    RoundedDivMonotone(round4, |Kept(used, Within(ttl))| as real, |Kept(used, Within(longer))| as real, |used| as real);
    RoundedDivMonotone(round4, WeightOf(Kept(used, Within(ttl))), WeightOf(Kept(used, Within(longer))), WeightOf(used));
  }

  // ---------------------------------------------------------------- evaluating a type

  /** `sorted(set(...))`, one element at a time. */
  function InsertNew(x: real, s: seq<real>): seq<real> {
    if s == [] then [x] else if x < s[0] then [x] + s else if x == s[0] then s else [s[0]] + InsertNew(x, s[1..])
  }

  function SortedSet(values: seq<real>): seq<real> {
    if values == [] then [] else InsertNew(values[0], SortedSet(values[1..]))
  }

  lemma {:induction false} InsertNewFacts(x: real, s: seq<real>)
    requires Increasing(s)
    ensures Increasing(InsertNew(x, s))
    ensures forall y :: y in InsertNew(x, s) <==> y == x || y in s
  {
    if s != [] && x > s[0] {
      var rest, r := s[1..], InsertNew(x, s[1..]);
      assert Increasing(rest) by {
        forall i, j | 0 <= i < j < |rest| ensures rest[i] < rest[j] {
          assert s[i + 1] < s[j + 1];
        }
      }
      InsertNewFacts(x, rest);
      forall y | y in r ensures s[0] < y {
        if y != x {
          var k :| 0 <= k < |rest| && rest[k] == y;
          assert s[k + 1] == y;
        }
      }
      PrependIncreasing(s[0], r);
      assert s == [s[0]] + rest;
    } else if s != [] && x < s[0] {
      forall y | y in s ensures x < y {
        var k :| 0 <= k < |s| && s[k] == y;
      }
      PrependIncreasing(x, s);
    }
  }

  lemma PrependIncreasing(x: real, s: seq<real>)
    requires Increasing(s) && forall y :: y in s ==> x < y
    ensures Increasing([x] + s)
  {
    var r := [x] + s;
    forall i, j | 0 <= i < j < |r| ensures r[i] < r[j] {
      assert r[j] == s[j - 1] && s[j - 1] in s;
      assert i > 0 ==> r[i] == s[i - 1];
    }
  }

  lemma {:induction false} SortedSetFacts(values: seq<real>)
    ensures Increasing(SortedSet(values)) && forall y :: y in SortedSet(values) <==> y in values
  {
    if values != [] {
      SortedSetFacts(values[1..]);
      InsertNewFacts(values[0], SortedSet(values[1..]));
      assert values == [values[0]] + values[1..];
    }
  }

  datatype Candidate = Candidate(ttl: real, retention: Option<real>, weighted: Option<real>, expired: Option<real>,
                                 all: Option<real>, passes: bool)

  function CandidateFor(round4: Rounding, samples: seq<Sample>, floor: real, ttl: real): Candidate {
    var used, ignored := Kept(samples, IsUsed()), Kept(samples, IsIgnored());
    Candidate(ttl, Retention(round4, used, ttl), WeightedRetention(round4, used, ttl),
              Expired(round4, ignored, ttl),
              Ratio(round4, |Kept(samples, Within(ttl))| as real, |samples| as real),
              Passes(round4, used, floor, ttl))
  }

  function MaxAge(samples: seq<Sample>): real {
    if samples == [] then 0.0
    else
      var before, age := MaxAge(samples[..|samples| - 1]), samples[|samples| - 1].age;
      if age > before then age else before
  }

  function LeastPassing(rows: seq<Candidate>): Option<real> {
    if rows == [] then None
    else
      var before, last := LeastPassing(rows[..|rows| - 1]), rows[|rows| - 1];
      if !last.passes || (before.Some? && before.value <= last.ttl) then before else Some(last.ttl)
  }

  function Candidates(round4: Rounding, samples: seq<Sample>, floor: real, ttls: seq<real>): seq<Candidate> {
    if ttls == [] then []
    else
      Candidates(round4, samples, floor, ttls[..|ttls| - 1]) +
      [CandidateFor(round4, samples, floor, ttls[|ttls| - 1])]
  }

  lemma CandidatesNext(round4: Rounding, samples: seq<Sample>, floor: real, ttls: seq<real>, i: nat)
    requires i < |ttls|
    ensures Candidates(round4, samples, floor, ttls[..i + 1]) ==
      Candidates(round4, samples, floor, ttls[..i]) + [CandidateFor(round4, samples, floor, ttls[i])]
  {
    assert ttls[..i + 1][..i] == ttls[..i];
  }

  lemma {:induction false} CandidatesAre(round4: Rounding, samples: seq<Sample>, floor: real, ttls: seq<real>,
                                         c: Candidate)
    ensures c in Candidates(round4, samples, floor, ttls) <==>
      c.ttl in ttls && c == CandidateFor(round4, samples, floor, c.ttl)
  {
    if ttls != [] {
      var init, last := ttls[..|ttls| - 1], ttls[|ttls| - 1];
      CandidatesAre(round4, samples, floor, init, c);
      InitLast(ttls);
      InSnoc(init, last, c.ttl);
      InSnoc(Candidates(round4, samples, floor, init), CandidateFor(round4, samples, floor, last), c);
      CandidateTtl(round4, samples, floor, last);
    }
  }

  lemma InitLast<T>(s: seq<T>)
    requires s != []
    ensures s == s[..|s| - 1] + [s[|s| - 1]]
  {}

  lemma InSnoc<T>(s: seq<T>, x: T, y: T)
    ensures y in s + [x] <==> y in s || y == x
  {}

  lemma CandidateTtl(round4: Rounding, samples: seq<Sample>, floor: real, ttl: real)
    ensures CandidateFor(round4, samples, floor, ttl).ttl == ttl
  {}

  /** How many different whole days the ages fall on. */
  function ObservedDays(samples: seq<Sample>): nat {
    |set s | s in samples :: s.age.Floor|
  }

  /** How many different results the candidates have. */
  function Signatures(rows: seq<Candidate>): nat {
    |set c | c in rows :: (c.retention, c.weighted, c.expired, c.all)|
  }

  datatype Reasons = Reasons(fewUsed: bool, shortHistory: bool, fewDays: bool, sameResults: bool)

  datatype Outcome = Propose(ttl: real) | KeepInsufficientData | KeepQualityFailed

  predicate Conclusive(r: Reasons) {
    !r.fewUsed && !r.shortHistory && !r.fewDays && !r.sameResults
  }

  /** `evaluate_type`; `required` is the age that the samples must reach. */
  method EvaluateType(round4: Rounding, samples: seq<Sample>, defaultTtl: real, candidates: seq<real>, minUsed: nat,
                      floor: real, required: real) returns (rows: seq<Candidate>, reasons: Reasons, r: Outcome)
    ensures rows == Candidates(round4, samples, floor, SortedSet(candidates + [defaultTtl]))
    ensures reasons == Reasons(|Kept(samples, IsUsed())| < minUsed, MaxAge(samples) < required,
                               ObservedDays(samples) < 3, Signatures(rows) < 2)
    ensures r == if reasons != Reasons(false, false, false, false) then KeepInsufficientData
                 else if LeastPassing(rows).None? then KeepQualityFailed else Propose(LeastPassing(rows).value)
  {
    var ttls := SortedSet(candidates + [defaultTtl]);
    rows := [];
    for i := 0 to |ttls|
      invariant rows == Candidates(round4, samples, floor, ttls[..i])
    {
      CandidatesNext(round4, samples, floor, ttls, i);
      rows := rows + [CandidateFor(round4, samples, floor, ttls[i])];
    }
    assert ttls[..|ttls|] == ttls;
    reasons := Reasons(|Kept(samples, IsUsed())| < minUsed, MaxAge(samples) < required,
                       ObservedDays(samples) < 3, Signatures(rows) < 2);
    var proposed := if Conclusive(reasons) then LeastPassing(rows) else None;
    r := if proposed.Some? then Propose(proposed.value)
         else if Conclusive(reasons) then KeepQualityFailed else KeepInsufficientData;
  }

  lemma {:induction false} LeastPassingIsLeast(rows: seq<Candidate>)
    ensures var r := LeastPassing(rows);
      && (r.None? <==> forall c :: c in rows ==> !c.passes)
      && (r.Some? ==> (exists c :: c in rows && c.passes && c.ttl == r.value) && forall c :: c in rows && c.passes ==>
        r.value <= c.ttl)
  {
    if rows != [] {
      var init, last := rows[..|rows| - 1], rows[|rows| - 1];
      LeastPassingIsLeast(init);
      assert rows == init + [last];
    }
  }

  lemma {:induction false} KeptIsSound(samples: seq<Sample>, p: Sample -> bool)
    requires Sound(samples)
    ensures Sound(Kept(samples, p))
  {
    if samples != [] {
      var init := samples[..|samples| - 1];
      assert forall s :: s in init ==> s in samples;
      KeptIsSound(init, p);
      assert samples[|samples| - 1] in samples;
    }
  }

  /** The least passing candidate is a threshold: exactly the candidates from it on pass the gate. */
  lemma ProposalIsThreshold(round4: Rounding, samples: seq<Sample>, floor: real, ttls: seq<real>, ttl: real)
    requires Sound(samples) && ttl in ttls
    ensures var r := LeastPassing(Candidates(round4, samples, floor, ttls));
      && (Passes(round4, Kept(samples, IsUsed()), floor, ttl) <==> r.Some? && r.value <= ttl)
      && (r.Some? ==> r.value in ttls)
  {
    var used, rows := Kept(samples, IsUsed()), Candidates(round4, samples, floor, ttls);
    var r := LeastPassing(rows);
    LeastPassingIsLeast(rows);
    KeptIsSound(samples, IsUsed());
    CandidatesAre(round4, samples, floor, ttls, CandidateFor(round4, samples, floor, ttl));
    if r.Some? {
      var c :| c in rows && c.passes && c.ttl == r.value;
      CandidatesAre(round4, samples, floor, ttls, c);
      if r.value <= ttl {
        PassesUpward(round4, used, floor, c.ttl, ttl);
      }
    }
  }

  /** So the proposed time to live is a candidate or the default, and every row passes exactly from it on. */
  lemma ProposalAmongCandidates(round4: Rounding, samples: seq<Sample>, floor: real, candidates: seq<real>,
                                defaultTtl: real, ttl: real)
    requires Sound(samples) && (ttl in candidates || ttl == defaultTtl)
    ensures var r := LeastPassing(Candidates(round4, samples, floor, SortedSet(candidates + [defaultTtl])));
      && (Passes(round4, Kept(samples, IsUsed()), floor, ttl) <==> r.Some? && r.value <= ttl)
      && (r.Some? ==> r.value in candidates || r.value == defaultTtl)
  {
    SortedSetFacts(candidates + [defaultTtl]);
    ProposalIsThreshold(round4, samples, floor, SortedSet(candidates + [defaultTtl]), ttl);
  }

  lemma {:induction false} KeptAll(samples: seq<Sample>, p: Sample -> bool)
    requires forall s :: s in samples ==> p(s)
    ensures Kept(samples, p) == samples
  {
    if samples != [] {
      var init := samples[..|samples| - 1];
      assert (forall s :: s in init ==> s in samples) && samples[|samples| - 1] in samples;
      KeptAll(init, p);
      assert samples == init + [samples[|samples| - 1]];
    }
  }

  lemma {:induction false} WeightPositive(samples: seq<Sample>)
    requires Sound(samples) && samples != []
    ensures WeightOf(samples) > 0.0
  {
    var init := samples[..|samples| - 1];
    assert (forall s :: s in init ==> s in samples) && samples[|samples| - 1] in samples;
    if init != [] {
      WeightPositive(init);
    }
  }

  /** A candidate that outlives every use passes, whenever something was used and the floor is at most one. */
  lemma LongEnoughPasses(round4: Rounding, used: seq<Sample>, floor: real, ttl: real)
    requires Sound(used) && used != [] && floor <= 1.0 && round4(1.0) == 1.0
    requires forall s :: s in used ==> s.age <= ttl
    ensures Passes(round4, used, floor, ttl)
  {
    KeptAll(used, Within(ttl));
    WeightPositive(used);
    RatioOne(round4, |used| as real);
    RatioOne(round4, WeightOf(used));
  }

  lemma RatioOne(round4: Rounding, x: real)
    requires x > 0.0 && round4(1.0) == 1.0
    ensures Ratio(round4, x, x) == Some(1.0)
  {
    assert x / x == 1.0;
  }
}
