/** Choosing a configuration from evaluated trials: the Pareto frontier of a joint search and the
    winner of a single phase. Names are natural numbers ordered like the strings they stand for. */
module Selection {
  import opened Optional
  import opened Sorting

  /** An evaluated configuration. `quality` is its calibration utility, which means something only if
      the evaluation succeeded. */
  datatype Trial = Trial(name: nat, ok: bool, quality: real, generationCalls: real, vectorBytes: real,
                         mixedRate: real, duplication: real, dimension: real)

  const UNAVAILABLE: real := -1000000000.0

  function Utility(t: Trial): real { if t.ok then t.quality else UNAVAILABLE }

  /** Results are a dictionary: names are distinct. */
  ghost predicate DistinctNames(ts: seq<Trial>) {
    forall i, j :: 0 <= i < j < |ts| ==> ts[i].name != ts[j].name
  }

  function Available(ts: seq<Trial>): seq<Trial> {
    if ts == [] then []
    else Available(ts[..|ts| - 1]) + (if ts[|ts| - 1].ok then [ts[|ts| - 1]] else [])
  }

  lemma {:induction false} AvailableAre(ts: seq<Trial>, t: Trial)
    ensures t in Available(ts) <==> t in ts && t.ok
  {
    if ts != [] {
      AvailableAre(ts[..|ts| - 1], t);
      assert ts == ts[..|ts| - 1] + [ts[|ts| - 1]];
    }
  }

  // ---------------------------------------------------------------- dominance

  predicate NoWorse(o: Trial, t: Trial) {
    && Utility(o) >= Utility(t)
    && o.generationCalls <= t.generationCalls && o.vectorBytes <= t.vectorBytes && o.mixedRate <= t.mixedRate
  }

  /** Utility must be better by more than a rounding tolerance; any lower cost counts. */
  predicate StrictlyBetter(o: Trial, t: Trial) {
    || Utility(o) > Utility(t) + 0.000000001
    || o.generationCalls < t.generationCalls || o.vectorBytes < t.vectorBytes || o.mixedRate < t.mixedRate
  }

  predicate Dominates(o: Trial, t: Trial) {
    NoWorse(o, t) && StrictlyBetter(o, t)
  }

  /** Despite the tolerance, dominance is a strict partial order. */
  lemma DominanceIsStrictOrder(a: Trial, b: Trial, c: Trial)
    ensures !Dominates(a, a)
    ensures Dominates(a, b) && Dominates(b, c) ==> Dominates(a, c)
    ensures Dominates(a, b) ==> !Dominates(b, a)
  {}

  ghost predicate Undominated(ts: seq<Trial>, t: Trial) {
    t in ts && forall o :: o in ts ==> !Dominates(o, t)
  }

  ghost function Dominators(ts: seq<Trial>, t: Trial): set<Trial> {
    set o | o in ts && Dominates(o, t)
  }

  /** Every trial is on the frontier or dominated by a trial on it. */
  lemma {:induction false} FrontierCovers(ts: seq<Trial>, t: Trial) returns (f: Trial)
    requires t in ts
    ensures Undominated(ts, f) && (f == t || Dominates(f, t))
    decreases Dominators(ts, t)
  {
    if Undominated(ts, t) {
      f := t;
    } else {
      var o :| o in ts && Dominates(o, t);
      forall p | p in Dominators(ts, o) ensures p in Dominators(ts, t) {
        DominanceIsStrictOrder(p, o, t);
      }
      assert o in Dominators(ts, t) && o !in Dominators(ts, o);
      f := FrontierCovers(ts, o);
      DominanceIsStrictOrder(f, o, t);
    }
  }

  lemma {:induction false} SomeBest(ts: seq<Trial>) returns (b: Trial)
    requires ts != []
    ensures b in ts && forall t :: t in ts ==> Utility(t) <= Utility(b)
  {
    b := ts[|ts| - 1];
    if |ts| > 1 {
      var c := SomeBest(ts[..|ts| - 1]);
      assert forall t :: t in ts ==> t == ts[|ts| - 1] || t in ts[..|ts| - 1];
      if Utility(c) > Utility(b) {
        b := c;
      }
    }
  }

  // ---------------------------------------------------------------- the frontier

  predicate ByUtility(a: Trial, b: Trial) {
    Utility(a) > Utility(b) || (Utility(a) == Utility(b) && a.name <= b.name)
  }

  /** `joint_pareto`: the trials that succeeded and are not dominated, best utility first. */
  method JointPareto(results: seq<Trial>) returns (frontier: seq<Trial>)
    requires DistinctNames(results)
    ensures SortedBy(ByUtility, frontier)
    ensures forall t :: t in frontier <==> Undominated(Available(results), t)
  {
    var available := Available(results);
    frontier := [];
    for i := 0 to |available|
      invariant forall t :: t in frontier <==> t in available[..i] && Undominated(available, t)
    {
      var dominated := false;
      for j := 0 to |available|
        invariant !dominated && forall m :: 0 <= m < j ==> !Dominates(available[m], available[i])
      {
        if available[j].name == available[i].name {
          SameName(results, available[j], available[i]);
          continue;
        }
        if Dominates(available[j], available[i]) {
          dominated := true;
          break;
        }
      }
      assert !dominated <==> Undominated(available, available[i]);
      assert available[..i + 1] == available[..i] + [available[i]];
      if !dominated {
        frontier := frontier + [available[i]];
      }
    }
    assert available[..|available|] == available;
    ghost var unsorted := frontier;
    frontier := Sort(frontier, ByUtility);
    SortSorts(unsorted, ByUtility);
    SortKeepsMembers(unsorted, ByUtility);
  }

  lemma SameName(results: seq<Trial>, a: Trial, b: Trial)
    requires DistinctNames(results) && a in Available(results) && b in Available(results) && a.name == b.name
    ensures a == b && !Dominates(a, b)
  {
    AvailableAre(results, a);
    AvailableAre(results, b);
    var i :| 0 <= i < |results| && results[i] == a;
    var j :| 0 <= j < |results| && results[j] == b;
  }

  /** The frontier of a non-empty set of trials is not empty, and its head has the best utility of
      all. */
  lemma FrontierHeadIsBest(available: seq<Trial>, frontier: seq<Trial>)
    requires SortedBy(ByUtility, frontier) && forall t :: t in frontier <==> Undominated(available, t)
    requires available != []
    ensures frontier != [] && frontier[0] in available
    ensures forall t :: t in available ==> Utility(t) <= Utility(frontier[0])
  {
    var b := SomeBest(available);
    var f := FrontierCovers(available, b);
    assert f in frontier;
    var k :| 0 <= k < |frontier| && frontier[k] == f;
    assert k > 0 ==> ByUtility(frontier[0], frontier[k]);
    assert frontier[0] in frontier;
  }

  // ---------------------------------------------------------------- the joint winner

  /** Lower complexity first, then higher utility, then the name. */
  predicate Simpler(a: Trial, b: Trial) {
    || a.generationCalls < b.generationCalls
    || (a.generationCalls == b.generationCalls &&
        (|| a.vectorBytes < b.vectorBytes
         || (a.vectorBytes == b.vectorBytes &&
             (|| a.mixedRate < b.mixedRate
              || (a.mixedRate == b.mixedRate &&
                  (|| Utility(a) > Utility(b)
                   || (Utility(a) == Utility(b) && a.name <= b.name)))))))
  }

  /** `min(rows, key=...)` */
  method Least(rows: seq<Trial>, leq: (Trial, Trial) -> bool) returns (m: Trial)
    requires rows != [] && TotalOrder(leq)
    ensures m in rows && forall t :: t in rows ==> leq(m, t)
  {
    m := rows[0];
    for i := 1 to |rows|
      invariant m in rows && forall j :: 0 <= j < i ==> leq(m, rows[j])
    {
      if !leq(m, rows[i]) {
        m := rows[i];
      }
    }
  }

  function Near(rows: seq<Trial>, best: real, within: real, strict: bool): seq<Trial> {
    if rows == [] then []
    else
      var t := rows[|rows| - 1];
      var gap := best - Utility(t);
      Near(rows[..|rows| - 1], best, within, strict) + (if gap < within || (!strict && gap == within) then [t] else [])
  }

  lemma {:induction false} NearAre(rows: seq<Trial>, best: real, within: real, strict: bool, t: Trial)
    ensures t in Near(rows, best, within, strict) <==>
      t in rows && (best - Utility(t) < within || (!strict && best - Utility(t) == within))
  {
    if rows != [] {
      NearAre(rows[..|rows| - 1], best, within, strict, t);
      assert rows == rows[..|rows| - 1] + [rows[|rows| - 1]];
    }
  }

  function Lookup(results: seq<Trial>, name: nat): Option<Trial> {
    if results == [] then None
    else if results[|results| - 1].name == name then Some(results[|results| - 1])
    else Lookup(results[..|results| - 1], name)
  }

  lemma {:induction false} LookupIs(results: seq<Trial>, name: nat)
    ensures Lookup(results, name).Some? ==>
      Lookup(results, name).value in results && Lookup(results, name).value.name == name
    ensures Lookup(results, name).None? ==> forall t :: t in results ==> t.name != name
  {
    if results != [] {
      LookupIs(results[..|results| - 1], name);
      assert forall t :: t in results ==> t == results[|results| - 1] || t in results[..|results| - 1];
    }
  }

  /** `t` has the best utility of the trials that succeeded. */
  ghost predicate IsBest(results: seq<Trial>, t: Trial) {
    t in results && t.ok && forall o :: o in results && o.ok ==> Utility(o) <= Utility(t)
  }

  lemma FrontierFacts(results: seq<Trial>, frontier: seq<Trial>)
    requires SortedBy(ByUtility, frontier) && forall t :: t in frontier <==> Undominated(Available(results), t)
    ensures frontier == [] <==> forall t :: t in results ==> !t.ok
    ensures frontier != [] ==> IsBest(results, frontier[0])
    ensures forall t :: t in frontier ==> t in results && t.ok
  {
    var available := Available(results);
    forall t ensures t in available <==> t in results && t.ok {
      AvailableAre(results, t);
    }
    HasMember(frontier);
    HasMember(available);
    if available != [] {
      FrontierHeadIsBest(available, frontier);
    }
  }

  lemma HasMember(ts: seq<Trial>)
    ensures ts != [] ==> exists t :: t in ts
  {
    if ts != [] {
      assert ts[0] in ts;
    }
  }

  /** The simplest of the frontier trials that are less than 0.01 below the best. */
  predicate IsSimplest(frontier: seq<Trial>, w: Trial) {
    && frontier != [] && w in frontier && Utility(frontier[0]) - Utility(w) < 0.01
    && forall t :: t in frontier && Utility(frontier[0]) - Utility(t) < 0.01 ==> Simpler(w, t)
  }

  /** The baseline is there, succeeded, and is beaten by less than 0.01. */
  predicate KeepsBaseline(results: seq<Trial>, baselineName: Option<nat>, w: Trial, b: Trial) {
    b in results && b.ok && baselineName == Some(b.name) && Utility(w) - Utility(b) < 0.01
  }

  /** `choose_joint_winner`. It fails only if no trial succeeded. The winner succeeded and is less than
      0.02 below the best utility; it replaces an available baseline only if it beats it by at least
      0.01; and unless the baseline is kept, it is the simplest frontier trial within 0.01 of the
      best. */
  method ChooseJointWinner(results: seq<Trial>, baselineName: Option<nat>)
    returns (r: Option<Trial>, frontier: seq<Trial>)
    requires DistinctNames(results)
    ensures r.None? <==> forall t :: t in results ==> !t.ok
    ensures r.Some? ==> r.value in results && r.value.ok && frontier != [] && IsBest(results, frontier[0])
    ensures r.Some? ==> Utility(frontier[0]) - Utility(r.value) < 0.02
    ensures r.Some? ==> forall b :: b in results && b.ok && baselineName == Some(b.name) && r.value != b ==>
      Utility(r.value) - Utility(b) >= 0.01
    ensures r.Some? ==>
      exists w :: IsSimplest(frontier, w) && (r.value == w || KeepsBaseline(results, baselineName, w, r.value))
    ensures r.Some? && baselineName != Some(r.value.name) ==>
      && Undominated(Available(results), r.value) && Utility(frontier[0]) - Utility(r.value) < 0.01
      && forall t :: t in frontier && Utility(frontier[0]) - Utility(t) < 0.01 ==> Simpler(r.value, t)
  {
    frontier := JointPareto(results);
    FrontierFacts(results, frontier);
    if frontier == [] {
      return None, frontier;
    }
    var bestQuality := Utility(frontier[0]);
    var near := Near(frontier, bestQuality, 0.01, true);
    forall t ensures t in near <==> t in frontier && bestQuality - Utility(t) < 0.01 {
      NearAre(frontier, bestQuality, 0.01, true, t);
    }
    assert frontier[0] in near;
    SimplerIsTotal();
    var best := Least(near, Simpler);
    r := Some(best);
    assert IsSimplest(frontier, best);
    if baselineName.Some? {
      var baseline := Lookup(results, baselineName.value);
      LookupIs(results, baselineName.value);
      if baseline.Some? && baseline.value.ok && Utility(best) - Utility(baseline.value) < 0.01 {
        r := baseline;
      }
      OneBaseline(results, baselineName.value);
    }
  }

  lemma SimplerIsTotal()
    ensures TotalOrder(Simpler)
  {}

  lemma OneBaseline(results: seq<Trial>, name: nat)
    requires DistinctNames(results)
    ensures forall b :: b in results && b.name == name ==> Lookup(results, name) == Some(b)
  {
    LookupIs(results, name);
    forall b | b in results && b.name == name ensures Lookup(results, name) == Some(b) {
      var i :| 0 <= i < |results| && results[i] == b;
      var c := Lookup(results, name).value;
      var j :| 0 <= j < |results| && results[j] == c;
    }
  }

  // ---------------------------------------------------------------- the winner of one phase

  datatype Phase = Chunking | Embedding | Tokenizer | Retrieval | Rewrite | Rerank

  predicate SmallerIndex(a: Trial, b: Trial) {
    || a.vectorBytes < b.vectorBytes
    || (a.vectorBytes == b.vectorBytes &&
        (|| a.duplication < b.duplication
         || (a.duplication == b.duplication && a.name <= b.name)))
  }

  predicate SmallerVectors(a: Trial, b: Trial) {
    a.dimension < b.dimension || (a.dimension == b.dimension && a.name <= b.name)
  }

  predicate HasBaseline(p: Phase) { p == Rewrite || p == Rerank }

  /** `choose_winner`; `baselineName` is the variant without rewriting or reranking. */
  method ChooseWinner(p: Phase, results: seq<Trial>, baselineName: nat) returns (r: Option<Trial>)
    requires DistinctNames(results)
    ensures r.None? <==> forall t :: t in results ==> !t.ok
    ensures r.Some? ==>
      r.value in results && exists best :: IsTop(results, best) && WinnerOf(p, results, baselineName, best, r.value)
  {
    var available := Available(results);
    forall t ensures t in available <==> t in results && t.ok {
      AvailableAre(results, t);
    }
    if available == [] {
      return None;
    }
    assert available[0] in available;
    ByUtilityIsTotal();
    var best := Least(available, ByUtility);
    assert IsTop(results, best);
    var near := Near(available, Utility(best), 0.005, false);
    NearTrials(results, available, best);
    r := Some(best);
    if p == Chunking && |near| > 1 {
      var least := Least(near, SmallerIndex);
      r := Some(least);
    } else if p == Embedding && |near| > 1 {
      var least := Least(near, SmallerVectors);
      r := Some(least);
    } else if HasBaseline(p) {
      var baseline := Lookup(results, baselineName);
      LookupIs(results, baselineName);
      if baseline.Some? && Utility(best) - Utility(baseline.value) < 0.01 {
        r := baseline;
      }
    }
    assert WinnerOf(p, results, baselineName, best, r.value);
  }

  lemma NearTrials(results: seq<Trial>, available: seq<Trial>, best: Trial)
    requires IsTop(results, best) && forall t :: t in available <==> t in results && t.ok
    ensures var near := Near(available, Utility(best), 0.005, false);
      && best in near && (forall t :: t in near <==> IsNear(results, best, t))
      && (|near| <= 1 ==> forall t :: IsNear(results, best, t) ==> t == best)
  {
    var near := Near(available, Utility(best), 0.005, false);
    forall t ensures t in near <==> IsNear(results, best, t) {
      NearAre(available, Utility(best), 0.005, false, t);
    }
    assert IsNear(results, best, best);
  }

  lemma ByUtilityIsTotal()
    ensures TotalOrder(ByUtility) && TotalOrder(SmallerIndex) && TotalOrder(SmallerVectors)
  {}

  /** `t` comes first of the trials that succeeded, by utility and then by name. */
  ghost predicate IsTop(results: seq<Trial>, t: Trial) {
    t in results && t.ok && forall o :: o in results && o.ok ==> ByUtility(t, o)
  }

  /** `t` succeeded and is within 0.005 of the best. */
  predicate IsNear(results: seq<Trial>, best: Trial, t: Trial) {
    t in results && t.ok && Utility(best) - Utility(t) <= 0.005
  }

  /** What a phase promises about its winner: for chunking and embedding the cheapest of those within
      0.005 of the best, for tokenizer and retrieval the best, and for rewriting and reranking the
      baseline exactly when the best gains less than 0.01 over it. */
  ghost predicate WinnerOf(p: Phase, results: seq<Trial>, baselineName: nat, best: Trial, w: Trial) {
    if p == Chunking then IsNear(results, best, w) && forall t :: IsNear(results, best, t) ==> SmallerIndex(w, t)
    else if p == Embedding then
      IsNear(results, best, w) && forall t :: IsNear(results, best, t) ==> SmallerVectors(w, t)
    else if !HasBaseline(p) then w == best
    else
      var baseline := Lookup(results, baselineName);
      if baseline.Some? && Utility(best) - Utility(baseline.value) < 0.01 then w == baseline.value else w == best
  }

  /** Unlike the joint choice, the phase choice does not ask whether the baseline succeeded. Its
      winner failed exactly when the phase has a baseline, the baseline failed, and the best
      utility is no more than 0.01 above the score of a failure. */
  lemma WinnerFailedExactlyWhen(p: Phase, results: seq<Trial>, baselineName: nat, best: Trial, w: Trial)
    requires DistinctNames(results) && IsTop(results, best) && WinnerOf(p, results, baselineName, best, w)
    ensures !w.ok <==>
      && HasBaseline(p) && Utility(best) < UNAVAILABLE + 0.01
      && exists b :: b in results && b.name == baselineName && !b.ok
  {
    LookupIs(results, baselineName);
    OneBaseline(results, baselineName);
  }

  // ---------------------------------------------------------------- the score of a variant

  datatype Stage = JdRecall | ResumeEvidence | KnowledgeRecall

  datatype Metrics = Metrics(ndcg: real, recall: real, mrr: real, hardNegatives: real, zeroHit: real,
                             evidenceRecall: real, evidencePrecision: real, contextChars: real,
                             mixedSections: real, leakage: real)

  /** `utility` of a variant that was evaluated. */
  function Quality(stage: Stage, m: Metrics): real {
    var document := m.ndcg + 0.35 * m.recall + 0.15 * m.mrr - 0.20 * m.hardNegatives - 0.30 * m.zeroHit;
    var evidence := 0.30 * m.evidenceRecall + 0.20 * m.evidencePrecision;
    var context := m.contextChars / 20000.0;
    match stage
    case JdRecall => document + 0.15 * m.evidenceRecall + 0.10 * m.evidencePrecision
    case ResumeEvidence =>
      if m.leakage > 0.0 then UNAVAILABLE
      else document + evidence - (if context < 0.15 then context else 0.15) - 0.20 * m.mixedSections
    case KnowledgeRecall =>
      document + evidence - (if context < 0.15 then context else 0.15) - 0.20 * m.mixedSections
  }

  predicate IsFraction(x: real) { 0.0 <= x <= 1.0 }

  predicate AreMetrics(m: Metrics) {
    && IsFraction(m.ndcg) && IsFraction(m.recall) && IsFraction(m.mrr) && IsFraction(m.hardNegatives)
    && IsFraction(m.zeroHit) && IsFraction(m.evidenceRecall) && IsFraction(m.evidencePrecision)
    && IsFraction(m.mixedSections) && 0.0 <= m.contextChars && 0.0 <= m.leakage
  }

  /** A variant that was evaluated scores like a failure exactly when it retrieved chunks of another
      candidate; otherwise its score is at least -0.85. */
  lemma UnavailableExactlyWhen(stage: Stage, m: Metrics)
    requires AreMetrics(m)
    ensures Quality(stage, m) < -0.85 <==> stage == ResumeEvidence && m.leakage > 0.0
    ensures Quality(stage, m) < -0.85 ==> Quality(stage, m) == UNAVAILABLE
  {
    assert m.contextChars / 20000.0 >= 0.0;
  }

  /** So a winner always succeeded when the best variant retrieved no chunk of another candidate, as
      is the case when retrieval is confined to the chunks of the query's own resume. */
  lemma WinnerSucceeds(p: Phase, results: seq<Trial>, baselineName: nat, best: Trial, w: Trial, stage: Stage,
                       m: Metrics)
    requires DistinctNames(results) && IsTop(results, best) && WinnerOf(p, results, baselineName, best, w)
    requires best.quality == Quality(stage, m) && AreMetrics(m) && m.leakage == 0.0
    ensures w.ok
  {
    UnavailableExactlyWhen(stage, m);
    WinnerFailedExactlyWhen(p, results, baselineName, best, w);
  }

  /** Taken by itself, the choice can return a failed trial: the only successful variant leaks across
      candidates, which scores like a failure, and the baseline failed. */
  lemma FailedBaselineCanWin()
    ensures var leaky := Trial(1, true, UNAVAILABLE, 0.0, 0.0, 0.0, 0.0, 0.0);
      var baseline := Trial(0, false, 0.0, 0.0, 0.0, 0.0, 0.0, 0.0);
      IsTop([leaky, baseline], leaky) && WinnerOf(Rerank, [leaky, baseline], 0, leaky, baseline)
  {}
}
