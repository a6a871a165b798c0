/** What a policy is judged by, told without the sorting and the loops: what the interval of its differences bounds,
    what its tally holds of the trials it ran, and what each gate of a run asks for. */
module PolicyRules {
  import opened Reals
  import opened Sorting
  import opened PairedEvaluation
  import opened PolicyRun

  // ---------------------------------------------------------------- the mean

  lemma {:induction false} SumAdds(a: seq<real>, b: seq<real>)
    ensures Sum([]) == 0.0 && Sum(a + b) == Sum(a) + Sum(b)
    ensures |a| == 1 ==> Sum(a) == a[0]
  {
    if a == [] {
      assert a + b == b;
    } else {
      SumAdds(a[1..], b);
      assert (a + b)[1..] == a[1..] + b && (a + b)[0] == a[0];
    }
  }

  lemma {:induction false} DeltasAdd(champion: seq<real>, candidate: seq<real>)
    ensures var n := |Deltas(champion, candidate)|;
      Sum(Deltas(champion, candidate)) == Sum(candidate[..n]) - Sum(champion[..n])
  {
    var n := |Deltas(champion, candidate)|;
    if n > 0 {
      DeltasAdd(champion[1..], candidate[1..]);
      assert candidate[..n][1..] == candidate[1..][..n - 1] && champion[..n][1..] == champion[1..][..n - 1];
      assert Deltas(champion, candidate)[1..] == Deltas(champion[1..], candidate[1..]);
    }
  }

  predicate IsMean(mean: real, total: real, n: nat) { mean * n as real == total }

  /** The mean difference is the difference of the rewards of the common pairs, divided by their number. */
  lemma MeanIs(champion: seq<real>, candidate: seq<real>, cv: int, hv: int, timeouts: real, spent: real, budget: real)
    requires champion != [] && candidate != []
    ensures var r, n := EvaluatePaired(champion, candidate, cv, hv, timeouts, spent, budget).value,
                        |Deltas(champion, candidate)|;
      IsMean(r.mean, Sum(candidate[..n]) - Sum(champion[..n]), n)
  {
    var n := |Deltas(champion, candidate)|;
    DeltasAdd(champion, candidate);
    MeanTimes(Sum(Deltas(champion, candidate)), n);
    MeanOfReport(champion, candidate, cv, hv, timeouts, spent, budget);
  }

  lemma MeanOfReport(champion: seq<real>, candidate: seq<real>, cv: int, hv: int, timeouts: real, spent: real,
                     budget: real)
    requires champion != [] && candidate != []
    ensures EvaluatePaired(champion, candidate, cv, hv, timeouts, spent, budget).value.mean ==
      Sum(Deltas(champion, candidate)) / |Deltas(champion, candidate)| as real
  {}

  lemma MeanTimes(total: real, n: nat)
    requires n > 0
    ensures IsMean(total / n as real, total, n)
  {
    Quotient(total, n as real);
  }

  // ---------------------------------------------------------------- the interval

  function CountWhere(s: seq<real>, p: real -> bool): nat {
    if s == [] then 0 else (if p(s[0]) then 1 else 0) + CountWhere(s[1..], p)
  }

  function Below(x: real): real -> bool { (y: real) => y < x }

  function UpTo(x: real): real -> bool { (y: real) => y <= x }

  lemma {:induction false} InsertCounts(x: real, s: seq<real>, p: real -> bool)
    ensures CountWhere(Insert(x, s, Leq()), p) == CountWhere(s, p) + (if p(x) then 1 else 0)
  {
    var r := Insert(x, s, Leq());
    if s == [] {
      assert r == [x] && r[1..] == [];
    } else if x <= s[0] {
      assert r == [x] + s && r[1..] == s;
    } else {
      InsertCounts(x, s[1..], p);
      assert r[1..] == Insert(x, s[1..], Leq());
    }
  }

  lemma {:induction false} SortCounts(s: seq<real>, p: real -> bool)
    ensures CountWhere(Sort(s, Leq()), p) == CountWhere(s, p)
  {
    if s != [] {
      SortCounts(s[1..], p);
      InsertCounts(s[0], Sort(s[1..], Leq()), p);
    }
  }

  lemma {:induction false} NoneBelow(s: seq<real>, x: real)
    requires forall y :: y in s ==> x <= y
    ensures CountWhere(s, Below(x)) == 0
  {
    if s != [] {
      assert s[0] in s && forall y :: y in s[1..] ==> y in s;
      NoneBelow(s[1..], x);
    }
  }

  /** At most `k` entries of a sorted list are below entry `k`, and more than `k` are not above it. */
  lemma {:induction false} SortedRank(s: seq<real>, k: nat)
    requires SortedBy(Leq(), s) && k < |s|
    ensures CountWhere(s, Below(s[k])) <= k < CountWhere(s, UpTo(s[k]))
  {
    var rest := s[1..];
    if k == 0 {
      forall y | y in s ensures s[0] <= y {
        var i :| 0 <= i < |s| && s[i] == y;
        assert i > 0 ==> Leq()(s[0], s[i]);
      }
      NoneBelow(s, s[0]);
    } else {
      forall i, j | 0 <= i < j < |rest| ensures Leq()(rest[i], rest[j]) {
        assert Leq()(s[i + 1], s[j + 1]);
      }
      SortedRank(rest, k - 1);
      assert rest[k - 1] == s[k] && Leq()(s[0], s[k]);
    }
  }

  /** `x` stands at rank `k` of the differences: at most `k` are below it, and more than `k` are not above it. */
  predicate AtRank(deltas: seq<real>, x: real, k: nat) {
    CountWhere(deltas, Below(x)) <= k < CountWhere(deltas, UpTo(x))
  }

  /** The interval reaches from the rank of one fortieth to that of thirty-nine fortieths of the other differences. */
  lemma IntervalIs(champion: seq<real>, candidate: seq<real>, cv: int, hv: int, timeouts: real, spent: real,
                   budget: real)
    requires champion != [] && candidate != []
    ensures var r, deltas := EvaluatePaired(champion, candidate, cv, hv, timeouts, spent, budget).value,
                             Deltas(champion, candidate);
      AtRank(deltas, r.low, (|deltas| - 1) / 40) && AtRank(deltas, r.high, 39 * (|deltas| - 1) / 40)
  {
    RankedDelta(Deltas(champion, candidate), (|Deltas(champion, candidate)| - 1) / 40);
    RankedDelta(Deltas(champion, candidate), 39 * (|Deltas(champion, candidate)| - 1) / 40);
  }

  lemma RankedDelta(deltas: seq<real>, k: nat)
    requires k < |deltas|
    ensures |Sort(deltas, Leq())| == |deltas| && AtRank(deltas, Sort(deltas, Leq())[k], k)
  {
    SortSorts(deltas, Leq());
    var x := Sort(deltas, Leq())[k];
    SortedRank(Sort(deltas, Leq()), k);
    SortCounts(deltas, Below(x));
    SortCounts(deltas, UpTo(x));
  }

  /** Entry `i` is the reward of the candidate less that of the champion. */
  lemma {:induction false} DeltaAt(champion: seq<real>, candidate: seq<real>, i: nat)
    requires i < |Deltas(champion, candidate)|
    ensures Deltas(champion, candidate)[i] == candidate[i] - champion[i]
  {
    if i > 0 {
      DeltaAt(champion[1..], candidate[1..], i - 1);
    }
  }

  // ---------------------------------------------------------------- the tally

  /** The trials that were created from number `from` on, each with its split and what it yielded. */
  function Ran(results: nat -> Result, created: seq<Spec>, from: nat): seq<(Split, Result)>
    requires from <= |created|
  {
    seq(|created| - from, i requires 0 <= i < |created| - from => (created[from + i].split, results(from + i)))
  }

  function RewardsOn(ran: seq<(Split, Result)>, split: Split): seq<real> {
    if ran == [] then []
    else
      var last := ran[|ran| - 1];
      RewardsOn(ran[..|ran| - 1], split) + (if last.0 == split then [last.1.reward] else [])
  }

  function ViolationsOf(ran: seq<(Split, Result)>): int {
    if ran == [] then 0 else ran[0].1.violations + ViolationsOf(ran[1..])
  }

  /** Which of them ran out of time. */
  function TimedOut(ran: seq<(Split, Result)>): set<nat> {
    set i: nat | i < |ran| && ran[i].1.timedOut
  }

  /** The tally holds what the trials yielded and nothing else: on every split their rewards, in order, and over all
      splits their violations, their number, and how many ran out of time. */
  ghost predicate Holds(t: Tally, ran: seq<(Split, Result)>) {
    && t.eval == RewardsOn(ran, EvalSplit) && t.gate == RewardsOn(ran, GateSplit)
    && t.safety == RewardsOn(ran, SafetySplit) && t.violations == ViolationsOf(ran)
    && t.timeouts == |TimedOut(ran)| && t.total == |ran|
  }

  lemma {:induction false} ViolationsSnoc(ran: seq<(Split, Result)>, last: (Split, Result))
    ensures ViolationsOf(ran + [last]) == ViolationsOf(ran) + last.1.violations
  {
    if ran == [] {
      assert [last][1..] == [];
    } else {
      ViolationsSnoc(ran[1..], last);
      assert (ran + [last])[1..] == ran[1..] + [last];
    }
  }

  lemma TimedOutSnoc(ran: seq<(Split, Result)>, last: (Split, Result))
    ensures |TimedOut(ran + [last])| == |TimedOut(ran)| + if last.1.timedOut then 1 else 0
  {
    assert TimedOut(ran + [last]) == TimedOut(ran) + if last.1.timedOut then {|ran|} else {};
  }

  lemma HoldsNext(t: Tally, ran: seq<(Split, Result)>, split: Split, r: Result)
    requires Holds(t, ran)
    ensures Holds(Add(t, split, r), ran + [(split, r)])
  {
    var last := (split, r);
    assert (ran + [last])[..|ran|] == ran;
    ViolationsSnoc(ran, last);
    TimedOutSnoc(ran, last);
  }

  /** A candidate's tally, which starts empty, holds what its own trials yielded. */
  lemma {:induction false} TallyHolds(results: nat -> Result, budget: real, st: State, plan: seq<Spec>)
    requires st.tally == NO_TRIALS
    ensures var after := Fold(results, budget, st, plan);
      |st.created| <= |after.created| && Holds(after.tally, Ran(results, after.created, |st.created|))
  {
    if plan == [] {
      assert TimedOut([]) == {};
    } else {
      var init, spec := plan[..|plan| - 1], plan[|plan| - 1];
      TallyHolds(results, budget, st, init);
      var before := Fold(results, budget, st, init);
      if before.spent < budget {
        HoldsNext(before.tally, Ran(results, before.created, |st.created|), spec.split, results(|before.created|));
        RanNext(results, before.created, |st.created|, spec);
      }
    }
  }

  lemma RanNext(results: nat -> Result, created: seq<Spec>, from: nat, spec: Spec)
    requires from <= |created|
    ensures Ran(results, created + [spec], from) == Ran(results, created, from) + [(spec.split, results(|created|))]
  {}

  // ---------------------------------------------------------------- why a run stops

  /** A run that went through was told of no cancellation and had no call that failed; one that was cancelled had a
      last check that said so and none before; and one whose call failed was not cancelled. So a run that is left alone
      goes through. */
  lemma StopsExactlyWhen(calls: Calls, stop: Stop, checks: nat, created: nat)
    requires StoppedBy(calls, stop, 0, 0, checks, created)
    ensures stop.Going? ==>
      && (forall i: nat :: i < checks ==> !calls.cancelled(i))
      && (forall i: nat :: i < created ==> !calls.createFails(i) && !calls.finishFails(i))
    ensures stop.Cancelled? <==> checks > 0 && calls.cancelled(checks - 1)
    ensures forall i: nat :: i < checks - 1 ==> !calls.cancelled(i)
    ensures stop.CallFailed? ==> calls.createFails(created) || (created > 0 && calls.finishFails(created - 1))
  {
    forall i: nat | i < checks - 1 ensures !calls.cancelled(i) {
      NoneOfAt(calls.cancelled, 0, checks - 1, i);
    }
    forall i: nat | i < created ensures !calls.createFails(i) {
      NoneOfAt(calls.createFails, 0, created, i);
    }
    if stop.Going? {
      forall i: nat | i < created ensures !calls.finishFails(i) {
        NoneOfAt(calls.finishFails, 0, created, i);
      }
    }
  }

  // ---------------------------------------------------------------- the gates of a run

  /** Besides the reward gate a run asks for no violation, for a budget that is not overspent, and for at most one
      trial in five that ran out of time; and a candidate passes that meets all four. */
  lemma RunGatesAre(st: State, budget: real)
    requires st.tally.timeouts <= st.tally.total
    ensures var g := GateOf(st, budget);
      && (g.safetyGate <==> st.tally.violations <= 0)
      && (g.budgetGate <==> st.spent <= budget)
      && (g.timeoutGate <==> 5 * st.tally.timeouts <= st.tally.total)
      && (g.passed <==> g.rewardGate && g.safetyGate && g.budgetGate && g.timeoutGate)
  {
    var t := st.tally;
    var all := if t.total == 0 then 1 else t.total;
    OneInFive(t.timeouts, all);
  }

  lemma OneInFive(part: nat, all: nat)
    requires all > 0
    ensures part as real / all as real <= 0.2 <==> 5 * part <= all
  {
    Quotient(part as real, all as real);
    FactorAtMost(part as real / all as real, all as real);
  }

  lemma FactorAtMost(q: real, d: real)
    requires d > 0.0
    ensures q <= 0.2 <==> 5.0 * (q * d) <= d
  {
    if q <= 0.2 {
      MulMonotone(q, 0.2, d);
    } else {
      MulStrict(0.2, q, d);
    }
  }

  /** A candidate with gate rewards is compared with itself: its mean difference is zero. */
  lemma OwnMeanIsZero(st: State, budget: real)
    requires st.tally.gate != []
    ensures GateOf(st, budget).mean == 0.0
  {
    var t := st.tally;
    var all := if t.total == 0 then 1 else t.total;
    MeanIs(t.gate, t.gate, t.violations, 0, t.timeouts as real / all as real, st.spent, budget);
    NothingTimes(GateOf(st, budget).mean, |t.gate| as real);
  }

  lemma NothingTimes(x: real, n: real)
    requires x * n == 0.0 && n > 0.0
    ensures x == 0.0
  {
    if x > 0.0 {
      MulStrict(0.0, x, n);
    } else if x < 0.0 {
      MulStrict(x, 0.0, n);
    }
  }
}
