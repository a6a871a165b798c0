/** What the choice of a configuration comes to, told without its orders: what each metric is worth, which trials
    are kept on the frontier, and what the winners have over the others. */
module SelectionRules {
  import opened Sorting
  import opened Selection

  // ---------------------------------------------------------------- what a metric is worth

  predicate Leaks(stage: Stage, m: Metrics) { stage == ResumeEvidence && m.leakage > 0.0 }

  /** Where nothing leaks, every rate is worth a fixed share of nDCG: recall 0.35, reciprocal rank 0.15, hard
      negatives minus 0.20, queries without a hit minus 0.30, evidence recall and precision 0.15 and 0.10 for JD
      recall and 0.30 and 0.20 elsewhere, and mixed sections minus 0.20 except for JD recall. */
  lemma WorthInNdcg(stage: Stage, m: Metrics, x: real)
    requires !Leaks(stage, m)
    ensures Quality(stage, m.(ndcg := m.ndcg + x)) == Quality(stage, m) + x
    ensures Quality(stage, m.(recall := m.recall + x)) == Quality(stage, m) + 0.35 * x
    ensures Quality(stage, m.(mrr := m.mrr + x)) == Quality(stage, m) + 0.15 * x
    ensures Quality(stage, m.(hardNegatives := m.hardNegatives + x)) == Quality(stage, m) - 0.20 * x
    ensures Quality(stage, m.(zeroHit := m.zeroHit + x)) == Quality(stage, m) - 0.30 * x
    ensures var worth := if stage == JdRecall then 0.15 else 0.30;
      Quality(stage, m.(evidenceRecall := m.evidenceRecall + x)) == Quality(stage, m) + worth * x
    ensures var worth := if stage == JdRecall then 0.10 else 0.20;
      Quality(stage, m.(evidencePrecision := m.evidencePrecision + x)) == Quality(stage, m) + worth * x
    ensures var worth := if stage == JdRecall then 0.0 else 0.20;
      Quality(stage, m.(mixedSections := m.mixedSections + x)) == Quality(stage, m) - worth * x
  {}

  /** So utility falls with every hard negative, every query without a hit and, except for JD recall, every mixed
      section. */
  lemma UtilityFalls(stage: Stage, m: Metrics, x: real)
    requires !Leaks(stage, m) && x > 0.0
    ensures Quality(stage, m.(hardNegatives := m.hardNegatives + x)) < Quality(stage, m)
    ensures Quality(stage, m.(zeroHit := m.zeroHit + x)) < Quality(stage, m)
    ensures stage != JdRecall ==> Quality(stage, m.(mixedSections := m.mixedSections + x)) < Quality(stage, m)
  {
    WorthInNdcg(stage, m, x);
  }

  /** Context costs as much as 0.01 of nDCG for every 200 characters, up to 3000 characters and 0.15; for JD recall
      it costs nothing. */
  lemma ContextCosts(stage: Stage, m: Metrics, n: real)
    requires !Leaks(stage, m) && n >= 0.0
    ensures var free := Quality(stage, m.(contextChars := 0.0));
      var cost := free - Quality(stage, m.(contextChars := 200.0 * n));
      if stage == JdRecall then cost == 0.0 else if n <= 15.0 then cost == 0.01 * n else cost == 0.15
  {}

  /** Without any hit, rate or context the utility is zero; and a variant that leaks scores like a failure. */
  lemma WhereUtilityStarts(stage: Stage, m: Metrics)
    ensures Quality(stage, Metrics(0.0, 0.0, 0.0, 0.0, 0.0, 0.0, 0.0, 0.0, 0.0, 0.0)) == 0.0
    ensures Leaks(stage, m) ==> Quality(stage, m) == -1000000000.0
  {}

  // ---------------------------------------------------------------- the frontier

  /** `o` costs no more than `t`: no more generation calls, no more vector bytes, no more mixed sections. */
  predicate CostsNoMore(o: Trial, t: Trial) {
    o.generationCalls <= t.generationCalls && o.vectorBytes <= t.vectorBytes && o.mixedRate <= t.mixedRate
  }

  predicate SameCosts(o: Trial, t: Trial) {
    o.generationCalls == t.generationCalls && o.vectorBytes == t.vectorBytes && o.mixedRate == t.mixedRate
  }

  /** `o` makes `t` superfluous: it succeeded, is as good, costs no more, and either costs less or is better by more
      than a billionth. */
  predicate Outdoes(o: Trial, t: Trial) {
    && o.ok && o.quality >= t.quality && CostsNoMore(o, t)
    && (!SameCosts(o, t) || o.quality - t.quality > 0.000000001)
  }

  /** A trial that succeeded is on the frontier exactly when no trial outdoes it, and one that is not is outdone by a
      trial that is. */
  lemma OnFrontierExactlyWhen(results: seq<Trial>, frontier: seq<Trial>, t: Trial)
    requires t in results && forall o :: o in frontier <==> Undominated(Available(results), o)
    ensures t in frontier <==> t.ok && forall o :: o in results ==> !Outdoes(o, t)
    ensures t.ok && t !in frontier ==> exists f :: f in frontier && f in results && Outdoes(f, t)
  {
    var available := Available(results);
    AvailableAre(results, t);
    forall o ensures o in available && Dominates(o, t) <==> o in results && o.ok && Dominates(o, t) {
      AvailableAre(results, o);
    }
    if t.ok {
      forall o | o in results ensures o.ok && Dominates(o, t) <==> Outdoes(o, t) {
        OutdoesIs(o, t);
      }
      var f := FrontierCovers(available, t);
      AvailableAre(results, f);
      OutdoesIs(f, t);
      assert f in frontier;
    }
  }

  lemma OutdoesIs(o: Trial, t: Trial)
    requires t.ok
    ensures o.ok && Dominates(o, t) <==> Outdoes(o, t)
  {}

  // ---------------------------------------------------------------- the winners

  /** Of two rows of costs, the first that differs is lower in `a`, or all are equal. */
  predicate LowerFirst(a: seq<real>, b: seq<real>)
    requires |a| == |b|
  {
    a != [] ==> a[0] < b[0] || (a[0] == b[0] && LowerFirst(a[1..], b[1..]))
  }

  function JointCosts(t: Trial): seq<real> { [t.generationCalls, t.vectorBytes, t.mixedRate, -t.quality] }

  /** Among trials that succeeded the joint choice goes by generation calls, vector bytes, mixed sections and
      quality, in this order, and by the name when all of them are equal. */
  lemma SimplerMeans(a: Trial, b: Trial)
    requires a.ok && b.ok
    ensures Simpler(a, b) <==>
      LowerFirst(JointCosts(a), JointCosts(b)) && (JointCosts(a) == JointCosts(b) ==> a.name <= b.name)
  {
    FourCosts(a.generationCalls, a.vectorBytes, a.mixedRate, -a.quality,
              b.generationCalls, b.vectorBytes, b.mixedRate, -b.quality);
  }

  lemma FourCosts(a: real, b: real, c: real, d: real, e: real, f: real, g: real, h: real)
    ensures LowerFirst([a, b, c, d], [e, f, g, h]) <==>
      a < e || (a == e && (b < f || (b == f && (c < g || (c == g && d <= h)))))
    ensures [a, b, c, d] == [e, f, g, h] <==> a == e && b == f && c == g && d == h
  {
    assert [a, b, c, d][1..] == [b, c, d] && [e, f, g, h][1..] == [f, g, h];
    TwoCosts(b, c, f, g);
    assert [b, c, d][1..] == [c, d] && [f, g, h][1..] == [g, h];
    TwoCosts(c, d, g, h);
    assert [a, b, c, d][3] == d && [e, f, g, h][3] == h;
  }

  lemma TwoCosts(a: real, b: real, c: real, d: real)
    ensures LowerFirst([a, b], [c, d]) <==> a < c || (a == c && b <= d)
    ensures [a, b] == [c, d] <==> a == c && b == d
  {
    assert [a, b][1..] == [b] && [c, d][1..] == [d] && [b][1..] == [] && [d][1..] == [];
    assert LowerFirst([], []);
    assert LowerFirst([b], [d]) <==> b <= d;
    assert [a, b][1] == b && [c, d][1] == d;
  }

  /** No trial that succeeded is better than the one a phase compares with, and one as good comes later by name. */
  lemma TopIsBest(results: seq<Trial>, best: Trial, t: Trial)
    requires IsTop(results, best) && t in results && t.ok
    ensures best.ok && t.quality <= best.quality && (t.quality == best.quality ==> best.name <= t.name)
  {}

  /** What a phase costs: the size of the index and its duplication, or the length of its vectors. */
  function PhaseCosts(p: Phase, t: Trial): seq<real> {
    if p == Chunking then [t.vectorBytes, t.duplication] else [t.dimension]
  }

  /** Chunking and embedding give up at most 0.005 of the best quality, and no trial that gives up as little costs
      less. */
  lemma CheapestWins(p: Phase, results: seq<Trial>, baselineName: nat, best: Trial, w: Trial, t: Trial)
    requires IsTop(results, best) && WinnerOf(p, results, baselineName, best, w) && (p == Chunking || p == Embedding)
    requires t in results && t.ok && best.quality - t.quality <= 0.005
    ensures w.ok && best.quality - w.quality <= 0.005
    ensures LowerFirst(PhaseCosts(p, w), PhaseCosts(p, t))
    ensures PhaseCosts(p, w) == PhaseCosts(p, t) ==> w.name <= t.name
  {
    assert IsNear(results, best, t);
    if p == Chunking {
      TwoCosts(w.vectorBytes, w.duplication, t.vectorBytes, t.duplication);
    } else {
      OneCost(w.dimension, t.dimension);
    }
  }

  lemma OneCost(a: real, b: real)
    ensures LowerFirst([a], [b]) <==> a <= b
    ensures [a] == [b] <==> a == b
  {
    assert [a][1..] == [] && [b][1..] == [];
    assert [a][0] == a && [b][0] == b;
  }

  /** Tokenizer and retrieval take the best. Rewriting and reranking take it too, unless a baseline that succeeded is
      less than 0.01 behind it: then the baseline stays. */
  lemma BaselineStaysExactlyWhen(p: Phase, results: seq<Trial>, best: Trial, w: Trial, baseline: Trial)
    requires DistinctNames(results) && IsTop(results, best) && baseline in results && baseline.ok && baseline != best
    requires WinnerOf(p, results, baseline.name, best, w) && p != Chunking && p != Embedding
    ensures w == if (p == Rewrite || p == Rerank) && best.quality - baseline.quality < 0.01 then baseline else best
  {
    OneBaseline(results, baseline.name);
  }

  /** The winner of the joint search, told by qualities: the kept baseline, or a frontier trial less than 0.01 below
      the best such that no other one of those comes before it by its costs. */
  lemma JointWinnerIsSimplest(results: seq<Trial>, frontier: seq<Trial>, w: Trial, t: Trial)
    requires SortedBy(ByUtility, frontier) && forall o :: o in frontier <==> Undominated(Available(results), o)
    requires frontier != [] && w in frontier && t in frontier
    requires forall o :: o in frontier && Utility(frontier[0]) - Utility(o) < 0.01 ==> Simpler(w, o)
    requires frontier[0].quality - t.quality < 0.01
    ensures w.ok && LowerFirst(JointCosts(w), JointCosts(t)) && (JointCosts(w) == JointCosts(t) ==> w.name <= t.name)
  {
    FrontierFacts(results, frontier);
    SimplerMeans(w, t);
  }
}
