/** The paired evaluation of a candidate policy against the champion: the lower end of a percentile
    interval of the paired reward differences, and the hard gates. */
module PairedEvaluation {
  import opened Optional
  import opened Sorting

  /** The differences of the common prefix. */
  function Deltas(champion: seq<real>, candidate: seq<real>): (d: seq<real>)
    ensures |d| == if |champion| < |candidate| then |champion| else |candidate|
  {
    if champion == [] || candidate == [] then []
    else [candidate[0] - champion[0]] + Deltas(champion[1..], candidate[1..])
  }

  function Leq(): (real, real) -> bool {
    (x: real, y: real) => x <= y
  }

  function Sum(s: seq<real>): real {
    if s == [] then 0.0 else s[0] + Sum(s[1..])
  }

  datatype Report = Report(mean: real, low: real, high: real, rewardGate: bool, safetyGate: bool, budgetGate: bool,
                           timeoutGate: bool, passed: bool)

  /** `evaluate_paired`; nothing when a list is empty, where the original raises an index error. */
  function EvaluatePaired(champion: seq<real>, candidate: seq<real>, candidateViolations: int, championViolations: int,
                          timeoutRate: real, spent: real, budget: real): Option<Report>
  {
    var n := |Deltas(champion, candidate)|;
    if n == 0 then None
    else
      var deltas := Deltas(champion, candidate);
      var samples := Sort(deltas, Leq());
      var low, high := samples[(n - 1) / 40], samples[39 * (n - 1) / 40];
      var reward, safety := low > 0.0, candidateViolations <= championViolations;
      var withinBudget, timeout := spent <= budget, timeoutRate <= 0.2;
      Some(Report(Sum(deltas) / n as real, low, high, reward, safety, withinBudget, timeout,
                  reward && safety && withinBudget && timeout))
  }

  // ---------------------------------------------------------------- what the reward gate asks for

  /** How many differences are not an improvement. */
  function NonPositive(s: seq<real>): nat {
    if s == [] then 0 else (if s[0] <= 0.0 then 1 else 0) + NonPositive(s[1..])
  }

  lemma {:induction false} InsertCount(x: real, s: seq<real>)
    ensures NonPositive(Insert(x, s, Leq())) == NonPositive(s) + (if x <= 0.0 then 1 else 0)
  {
    var r := Insert(x, s, Leq());
    if s == [] {
      assert r == [x] && r[1..] == [];
    } else if x <= s[0] {
      assert r == [x] + s && r[1..] == s;
    } else {
      InsertCount(x, s[1..]);
      assert r[1..] == Insert(x, s[1..], Leq());
    }
  }

  lemma {:induction false} SortCount(s: seq<real>)
    ensures NonPositive(Sort(s, Leq())) == NonPositive(s)
  {
    if s != [] {
      SortCount(s[1..]);
      InsertCount(s[0], Sort(s[1..], Leq()));
    }
  }

  lemma {:induction false} AllPositive(s: seq<real>)
    requires forall x :: x in s ==> x > 0.0
    ensures NonPositive(s) == 0
  {
    if s != [] {
      assert s[0] in s && forall x :: x in s[1..] ==> x in s;
      AllPositive(s[1..]);
    }
  }

  /** In a sorted list, position `k` is positive exactly when at most `k` entries are not. */
  lemma {:induction false} SortedCount(s: seq<real>, k: nat)
    requires SortedBy(Leq(), s) && k < |s|
    ensures s[k] > 0.0 <==> NonPositive(s) <= k
  {
    if s[0] > 0.0 {
      forall x | x in s ensures x > 0.0 {
        var i :| 0 <= i < |s| && s[i] == x;
        assert i > 0 ==> Leq()(s[0], s[i]);
      }
      AllPositive(s);
    } else if k > 0 {
      var rest := s[1..];
      forall i, j | 0 <= i < j < |rest| ensures Leq()(rest[i], rest[j]) {
        assert Leq()(s[i + 1], s[j + 1]);
      }
      SortedCount(rest, k - 1);
      assert s[k] == rest[k - 1];
    }
  }

  /** The reward gate passes exactly when at most one in forty of the other pairs is not an improvement;
      below 41 pairs, when every pair is one. */
  lemma RewardGateExactlyWhen(champion: seq<real>, candidate: seq<real>, cv: int, hv: int, timeouts: real, spent: real,
                              budget: real)
    requires champion != [] && candidate != []
    ensures var r := EvaluatePaired(champion, candidate, cv, hv, timeouts, spent, budget);
      var deltas := Deltas(champion, candidate);
      && r.Some? && r.value.low <= r.value.high
      && (r.value.rewardGate <==> NonPositive(deltas) <= (|deltas| - 1) / 40)
      && (r.value.passed <==>
        NonPositive(deltas) <= (|deltas| - 1) / 40 && cv <= hv && spent <= budget && timeouts <= 0.2)
  {
    var deltas := Deltas(champion, candidate);
    var samples, n := Sort(deltas, Leq()), |deltas|;
    SortSorts(deltas, Leq());
    SortCount(deltas);
    SortedCount(samples, (n - 1) / 40);
    InOrder(samples, (n - 1) / 40, 39 * (n - 1) / 40);
  }

  lemma InOrder(samples: seq<real>, i: nat, j: nat)
    requires SortedBy(Leq(), samples) && i <= j < |samples|
    ensures samples[i] <= samples[j]
  {
    if i < j {
      assert Leq()(samples[i], samples[j]);
    }
  }

  lemma {:induction false} Opposites(a: seq<real>, b: seq<real>)
    ensures |Deltas(a, b)| == |Deltas(b, a)|
    ensures NonPositive(Deltas(a, b)) + NonPositive(Deltas(b, a)) >= |Deltas(a, b)|
  {
    if a != [] && b != [] {
      Opposites(a[1..], b[1..]);
      var d, e := Deltas(a, b), Deltas(b, a);
      assert d[1..] == Deltas(a[1..], b[1..]) && e[1..] == Deltas(b[1..], a[1..]);
    }
  }

  /** Two policies cannot both beat each other. */
  lemma NotBothBetter(a: seq<real>, b: seq<real>, cv: int, hv: int, timeouts: real, spent: real, budget: real)
    requires a != [] && b != []
    ensures !(&& EvaluatePaired(a, b, cv, hv, timeouts, spent, budget).value.rewardGate
              && EvaluatePaired(b, a, hv, cv, timeouts, spent, budget).value.rewardGate)
  {
    RewardGateExactlyWhen(a, b, cv, hv, timeouts, spent, budget);
    RewardGateExactlyWhen(b, a, hv, cv, timeouts, spent, budget);
    Opposites(a, b);
  }

  lemma {:induction false} BetterCount(champion: seq<real>, worse: seq<real>, better: seq<real>)
    requires |worse| == |better| && forall i :: 0 <= i < |worse| ==> worse[i] <= better[i]
    ensures |Deltas(champion, better)| == |Deltas(champion, worse)|
    ensures NonPositive(Deltas(champion, better)) <= NonPositive(Deltas(champion, worse))
  {
    if champion != [] && worse != [] {
      var d, e := Deltas(champion, worse), Deltas(champion, better);
      assert forall i :: 0 <= i < |worse[1..]| ==> worse[1..][i] == worse[i + 1] && better[1..][i] == better[i + 1];
      BetterCount(champion[1..], worse[1..], better[1..]);
      assert d[1..] == Deltas(champion[1..], worse[1..]) && e[1..] == Deltas(champion[1..], better[1..]);
      assert worse[0] <= better[0];
    }
  }

  /** A candidate that does at least as well on every pair passes whatever the other one passes. */
  lemma BetterStillPasses(champion: seq<real>, worse: seq<real>, better: seq<real>, cv: int, hv: int, timeouts: real,
                          spent: real, budget: real)
    requires champion != [] && worse != []
    requires |worse| == |better| && forall i :: 0 <= i < |worse| ==> worse[i] <= better[i]
    ensures EvaluatePaired(champion, worse, cv, hv, timeouts, spent, budget).value.passed ==>
      EvaluatePaired(champion, better, cv, hv, timeouts, spent, budget).value.passed
  {
    RewardGateExactlyWhen(champion, worse, cv, hv, timeouts, spent, budget);
    RewardGateExactlyWhen(champion, better, cv, hv, timeouts, spent, budget);
    BetterCount(champion, worse, better);
  }

  lemma {:induction false} SelfCount(a: seq<real>)
    ensures |Deltas(a, a)| == |a| && NonPositive(Deltas(a, a)) == |a|
  {
    if a != [] {
      SelfCount(a[1..]);
      assert Deltas(a, a)[1..] == Deltas(a[1..], a[1..]);
    }
  }

  /** Compared with itself, nothing passes. */
  lemma NothingBeatsItself(a: seq<real>, cv: int, hv: int, timeouts: real, spent: real, budget: real)
    requires a != []
    ensures !EvaluatePaired(a, a, cv, hv, timeouts, spent, budget).value.rewardGate
  {
    RewardGateExactlyWhen(a, a, cv, hv, timeouts, spent, budget);
    SelfCount(a);
  }
}
