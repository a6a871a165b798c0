/** Which recent cases an arrival is given: of those that have not expired the two most similar ones. How
    similar two cases are is an arbitrary function of their positions in the stream. */
module RecentCases {
  import opened Sorting
  import opened TtlExperiment

  const RECENT_TOP_K := 2

  /** `jaccard` of the features of an arrival and an earlier one. */
  type Similarity = (nat, nat) -> real

  /** The earlier arrivals that have not expired, in order. */
  function Unexpired(times: seq<real>, at: real, n: nat, ttl: real): seq<nat>
    requires n <= |times|
  {
    if n == 0 then [] else Unexpired(times, at, n - 1, ttl) + (if at - times[n - 1] <= ttl then [n - 1] else [])
  }

  function TimeAt(times: seq<real>, i: nat): real {
    if i < |times| then times[i] else 0.0
  }

  /** `sort(key=(similarity, seen_at), reverse=True)` */
  function Nearer(times: seq<real>, sim: Similarity, i: nat): (nat, nat) -> bool {
    (a: nat, b: nat) => sim(i, a) > sim(i, b) || (sim(i, a) == sim(i, b) && TimeAt(times, a) >= TimeAt(times, b))
  }

  /** The cases that arrival `i` is given. */
  function Selected(times: seq<real>, sim: Similarity, i: nat, ttl: real): (s: seq<nat>)
    requires i < |times|
    ensures |s| <= RECENT_TOP_K
  {
    var ranked := Sort(Unexpired(times, times[i], i, ttl), Nearer(times, sim, i));
    ranked[..if |ranked| < RECENT_TOP_K then |ranked| else RECENT_TOP_K]
  }

  function Similarities(sim: Similarity, i: nat, cases: seq<nat>): (s: seq<real>)
    ensures |s| == |cases| && forall k :: 0 <= k < |cases| ==> s[k] == sim(i, cases[k])
  {
    if cases == [] then [] else [sim(i, cases[0])] + Similarities(sim, i, cases[1..])
  }

  /** The cases that every arrival is given. */
  type Choice = nat -> seq<nat>

  function Selector(times: seq<real>, sim: Similarity, ttl: real): Choice {
    (i: nat) => if i < |times| then Selected(times, sim, i, ttl) else []
  }

  /** The similarities of all cases that the first `n` arrivals are given. */
  function Collected(sim: Similarity, choice: Choice, n: nat): seq<real> {
    if n == 0 then [] else Collected(sim, choice, n - 1) + Similarities(sim, n - 1, choice(n - 1))
  }

  function AllSimilarities(times: seq<real>, sim: Similarity, ttl: real): seq<real> {
    Collected(sim, Selector(times, sim, ttl), |times|)
  }

  function Sum(values: seq<real>): real {
    if values == [] then 0.0 else Sum(values[..|values| - 1]) + values[|values| - 1]
  }

  function Mean(values: seq<real>): real {
    if values == [] then 0.0 else Sum(values) / |values| as real
  }

  datatype Recent = Recent(eligible: nat, coveredOne: nat, coveredTwo: nat, similarity: real, attached: seq<nat>)

  /** `evaluate_recent`: the quadratic scan counts what the gaps between arrivals say. */
  method EvaluateRecent(times: seq<real>, sim: Similarity, ttl: real) returns (r: Recent)
    requires Ordered(times)
    ensures r.eligible == (if |times| == 0 then 0 else |times| - 1)
    ensures r.coveredOne == Gaps(times, 1, |times|, 1, ttl)
    ensures r.coveredTwo == Gaps(times, 2, |times|, 2, ttl)
    ensures |r.attached| == |times| && Total(r.attached) == r.coveredOne + r.coveredTwo
    ensures r.similarity == Mean(AllSimilarities(times, sim, ttl))
    ensures |AllSimilarities(times, sim, ttl)| == r.coveredOne + r.coveredTwo
  {
    var eligible, one, two := 0, 0, 0;
    var attached: seq<nat>, similarities: seq<real> := [], [];
    var select := Selector(times, sim, ttl);
    SelectorFacts(times, sim, ttl);
    for i := 0 to |times|
      invariant eligible == if i == 0 then 0 else i - 1
      invariant Counted(times, sim, ttl, select, i, one, two, attached, similarities)
    {
      if i > 0 {
        eligible := eligible + 1;
      }
      var selected := select(i);
      NextArrival(times, sim, ttl, select, i, one, two, attached, similarities);
      similarities := similarities + Similarities(sim, i, selected);
      if |selected| > 0 {
        one := one + 1;
      }
      if |selected| >= RECENT_TOP_K {
        two := two + 1;
      }
      var given: nat := |selected|;
      attached := attached + [given];
    }
    r := Recent(eligible, one, two, Mean(similarities), attached);
  }

  /** How many cases arrival `i` is given, by the gaps to the two arrivals before it. */
  function CasesAt(times: seq<real>, ttl: real, i: nat): nat
    requires i < |times|
  {
    (if i >= 1 && times[i] - times[i - 1] <= ttl then 1 else 0) +
      (if i >= 2 && times[i] - times[i - 2] <= ttl then 1 else 0)
  }

  /** Every arrival is given that many earlier cases. */
  ghost predicate FromStream(times: seq<real>, ttl: real, choice: Choice) {
    forall i: nat :: i < |times| ==> |choice(i)| == CasesAt(times, ttl, i) && forall j :: j in choice(i) ==> j < i
  }

  /** What the scan has counted after `n` arrivals. */
  ghost predicate Counted(times: seq<real>, sim: Similarity, ttl: real, choice: Choice, n: nat, one: nat, two: nat,
                          attached: seq<nat>, similarities: seq<real>)
    requires n <= |times|
  {
    && one == Gaps(times, 1, n, 1, ttl) && two == Gaps(times, 2, n, 2, ttl)
    && |attached| == n && Total(attached) == |similarities| == one + two
    && similarities == Collected(sim, choice, n)
  }

  lemma NextArrival(times: seq<real>, sim: Similarity, ttl: real, choice: Choice, i: nat, one: nat, two: nat,
                    attached: seq<nat>, similarities: seq<real>)
    requires Ordered(times) && i < |times| && FromStream(times, ttl, choice)
    requires Counted(times, sim, ttl, choice, i, one, two, attached, similarities)
    ensures Counted(times, sim, ttl, choice, i + 1, if |choice(i)| > 0 then one + 1 else one,
                    if |choice(i)| >= 2 then two + 1 else two, attached + [|choice(i)|],
                    similarities + Similarities(sim, i, choice(i)))
  {
    TotalSnoc(attached, |choice(i)|);
  }

  lemma {:induction false} UnexpiredCount(times: seq<real>, at: real, n: nat, ttl: real)
    requires n <= |times|
    ensures |Unexpired(times, at, n, ttl)| == Available(times, at, n, ttl)
  {
    if n > 0 {
      UnexpiredCount(times, at, n - 1, ttl);
    }
  }

  lemma SelectedCount(times: seq<real>, sim: Similarity, i: nat, ttl: real)
    requires Ordered(times) && i < |times|
    ensures |Selected(times, sim, i, ttl)| >= 1 <==> i >= 1 && times[i] - times[i - 1] <= ttl
    ensures |Selected(times, sim, i, ttl)| >= 2 <==> i >= 2 && times[i] - times[i - 2] <= ttl
  {
    SelectedSize(times, sim, i, ttl);
    AvailableExactlyWhen(times, times[i], i, ttl, 1);
    AvailableExactlyWhen(times, times[i], i, ttl, 2);
  }

  lemma SelectedSize(times: seq<real>, sim: Similarity, i: nat, ttl: real)
    requires i < |times|
    ensures var n := Available(times, times[i], i, ttl);
      |Selected(times, sim, i, ttl)| == if n < 2 then n else 2
  {
    UnexpiredCount(times, times[i], i, ttl);
  }

  lemma SelectorFacts(times: seq<real>, sim: Similarity, ttl: real)
    requires Ordered(times)
    ensures FromStream(times, ttl, Selector(times, sim, ttl))
  {
    forall i: nat | i < |times|
      ensures |Selected(times, sim, i, ttl)| == CasesAt(times, ttl, i)
        && forall j :: j in Selected(times, sim, i, ttl) ==> j < i
    {
      SelectedCount(times, sim, i, ttl);
      SelectedAreNearest(times, sim, i, ttl);
    }
  }

  // ---------------------------------------------------------------- what is selected

  lemma {:induction false} UnexpiredAre(times: seq<real>, at: real, n: nat, ttl: real)
    requires n <= |times|
    ensures Distinct(Unexpired(times, at, n, ttl))
    ensures forall j: nat :: j in Unexpired(times, at, n, ttl) <==> j < n && at - times[j] <= ttl
  {
    if n > 0 {
      UnexpiredAre(times, at, n - 1, ttl);
    }
  }

  predicate Unequal(a: nat, b: nat) { a != b }

  lemma RankedFacts(times: seq<real>, sim: Similarity, i: nat, ttl: real)
    requires i < |times|
    ensures var ranked := Sort(Unexpired(times, times[i], i, ttl), Nearer(times, sim, i));
      && SortedBy(Nearer(times, sim, i), ranked) && Distinct(ranked)
      && forall j: nat :: j in ranked <==> j < i && times[i] - times[j] <= ttl
  {
    var cases, leq := Unexpired(times, times[i], i, ttl), Nearer(times, sim, i);
    UnexpiredAre(times, times[i], i, ttl);
    assert TotalOrder(leq);
    SortSorts(cases, leq);
    SortKeepsMembers(cases, leq);
    SortKeepsPairwise(cases, leq, Unequal);
    var ranked := Sort(cases, leq);
    forall a, b | 0 <= a < b < |ranked| ensures ranked[a] != ranked[b] {
      assert Unequal(ranked[a], ranked[b]);
    }
  }

  /** The selected cases are different, have not expired, and no other case that has not expired is more
      similar. */
  lemma SelectedAreNearest(times: seq<real>, sim: Similarity, i: nat, ttl: real)
    requires i < |times|
    ensures var s := Selected(times, sim, i, ttl);
      && Distinct(s) && (forall j :: j in s ==> j < i && times[i] - times[j] <= ttl)
      && (forall k, j: nat :: 0 <= k < |s| && j !in s && j < i && times[i] - times[j] <= ttl ==>
        sim(i, j) <= sim(i, s[k]))
      && (|s| == 2 ==> sim(i, s[1]) <= sim(i, s[0]))
  {
    RankedFacts(times, sim, i, ttl);
    var ranked := Sort(Unexpired(times, times[i], i, ttl), Nearer(times, sim, i));
    PrefixIsNearest(times, sim, i, ranked, Selected(times, sim, i, ttl));
  }

  lemma PrefixIsNearest(times: seq<real>, sim: Similarity, i: nat, ranked: seq<nat>, s: seq<nat>)
    requires SortedBy(Nearer(times, sim, i), ranked) && Distinct(ranked) && s <= ranked
    ensures Distinct(s) && (forall j :: j in s ==> j in ranked)
    ensures forall k, j: nat :: 0 <= k < |s| && j !in s && j in ranked ==> sim(i, j) <= sim(i, s[k])
    ensures |s| == 2 ==> sim(i, s[1]) <= sim(i, s[0])
  {
    assert forall k :: 0 <= k < |s| ==> s[k] == ranked[k];
    forall k, j: nat | 0 <= k < |s| && j !in s && j in ranked ensures sim(i, j) <= sim(i, s[k]) {
      NoOtherIsNearer(times, sim, i, ranked, s, k, j);
    }
    if |s| == 2 {
      assert Nearer(times, sim, i)(ranked[0], ranked[1]);
    }
  }

  lemma NoOtherIsNearer(times: seq<real>, sim: Similarity, i: nat, ranked: seq<nat>, s: seq<nat>, k: nat, j: nat)
    requires SortedBy(Nearer(times, sim, i), ranked) && s <= ranked && k < |s| && j in ranked && j !in s
    ensures sim(i, j) <= sim(i, s[k])
  {
    var m :| 0 <= m < |ranked| && ranked[m] == j;
    assert m >= |s|;
    assert Nearer(times, sim, i)(ranked[k], ranked[m]);
  }

  /** For a single arrival a longer time to live never hurts: it gives as many cases or more, and the first
      and the second of them are at least as similar. */
  lemma LongerIsNoWorse(times: seq<real>, sim: Similarity, i: nat, ttl: real, longer: real, k: nat)
    requires Ordered(times) && i < |times| && ttl <= longer && k < |Selected(times, sim, i, ttl)|
    ensures k < |Selected(times, sim, i, longer)|
    ensures sim(i, Selected(times, sim, i, ttl)[k]) <= sim(i, Selected(times, sim, i, longer)[k])
  {
    var s, t := Selected(times, sim, i, ttl), Selected(times, sim, i, longer);
    NoFewer(times, sim, i, ttl, longer);
    SelectedAreNearest(times, sim, i, ttl);
    SelectedAreNearest(times, sim, i, longer);
    TopTwo((j: nat) => sim(i, j), s, t, k);
  }

  lemma NoFewer(times: seq<real>, sim: Similarity, i: nat, ttl: real, longer: real)
    requires Ordered(times) && i < |times| && ttl <= longer
    ensures |Selected(times, sim, i, ttl)| <= |Selected(times, sim, i, longer)|
  {
    SelectedCount(times, sim, i, ttl);
    SelectedCount(times, sim, i, longer);
  }

  lemma TopTwo(value: nat -> real, s: seq<nat>, t: seq<nat>, k: nat)
    requires k < |s| <= |t| <= 2 && Distinct(s) && Distinct(t)
    requires |s| == 2 ==> value(s[1]) <= value(s[0])
    requires |t| == 2 ==> value(t[1]) <= value(t[0])
    requires forall m, j :: 0 <= m < |t| && j in s && j !in t ==> value(j) <= value(t[m])
    ensures value(s[k]) <= value(t[k])
  {
    assert s[0] in s;
    if k == 1 {
      assert s[1] in s;
    }
  }

  // ---------------------------------------------------------------- the mean

  /** A longer time to live can lower the mean similarity: it gives cases to arrivals that had none. Of
      three arrivals the third is similar to none of the earlier ones, and only the longer time to live
      reaches back to them. */
  lemma MeanCanFall(times: seq<real>, sim: Similarity, ttl: real, longer: real)
    requires |times| == 3 && Ordered(times) && sim(1, 0) == 1.0 && sim(2, 0) == sim(2, 1) == 0.0
    requires times[1] - times[0] <= ttl < times[2] - times[1] && times[2] - times[0] <= longer
    ensures Mean(AllSimilarities(times, sim, ttl)) == 1.0
    ensures Mean(AllSimilarities(times, sim, longer)) == 1.0 / 3.0
  {
    SelectorFacts(times, sim, ttl);
    SelectorFacts(times, sim, longer);
    ThreeArrivals(times, sim, ttl, Selector(times, sim, ttl));
    ThreeArrivals(times, sim, longer, Selector(times, sim, longer));
    ThreeMeans(AllSimilarities(times, sim, ttl), AllSimilarities(times, sim, longer));
  }

  lemma ThreeArrivals(times: seq<real>, sim: Similarity, ttl: real, choice: Choice)
    requires |times| == 3 && FromStream(times, ttl, choice) && sim(1, 0) == 1.0 && sim(2, 0) == sim(2, 1) == 0.0
    requires times[1] - times[0] <= ttl && (times[2] - times[1] <= ttl <==> times[2] - times[0] <= ttl)
    ensures Collected(sim, choice, 3) == if times[2] - times[1] <= ttl then [1.0, 0.0, 0.0] else [1.0]
  {
    assert |choice(0)| == 0 && |choice(1)| == 1;
    assert choice(1)[0] in choice(1);
    assert forall k :: 0 <= k < |choice(2)| ==> choice(2)[k] in choice(2);
    var a, b, c := Similarities(sim, 0, choice(0)), Similarities(sim, 1, choice(1)), Similarities(sim, 2, choice(2));
    assert Collected(sim, choice, 1) == [] + a;
    assert Collected(sim, choice, 2) == [] + a + b;
    ThreeParts(a, b, c);
  }

  lemma ThreeParts(a: seq<real>, b: seq<real>, c: seq<real>)
    requires a == [] && b == [1.0] && (c == [] || c == [0.0, 0.0])
    ensures [] + a + b + c == if c == [] then [1.0] else [1.0, 0.0, 0.0]
  {}

  lemma ThreeMeans(a: seq<real>, b: seq<real>)
    requires a == [1.0] && b == [1.0, 0.0, 0.0]
    ensures Mean(a) == 1.0 && Mean(b) == 1.0 / 3.0
  {
    assert a[..0] == [] && b[..2] == [1.0, 0.0] && b[..2][..1] == [1.0] && [1.0][..0] == [];
    assert Sum([1.0]) == 1.0 && Sum([1.0, 0.0]) == 1.0;
  }
}
