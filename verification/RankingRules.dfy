/** What the scores of a ranking are, told without their sums: what each position contributes, which chunks earn a
    gain, and what the ideal ranking is. */
module RankingRules {
  import opened Sorting
  import opened Reals
  import opened Ranking

  // ---------------------------------------------------------------- discounted gain

  lemma {:induction false} NoGain(labels: seq<real>, k: nat, g: real -> real, d: nat -> real)
    requires g(0.0) == 0.0 && forall i :: 0 <= i < |labels| ==> labels[i] == 0.0
    ensures Dcg(labels, k, g, d) == 0.0
  {
    if k > 0 {
      NoGain(labels, k - 1, g, d);
    }
  }

  /** What position `i` contributes: another label there changes the discounted gain by the difference of the gains
      times the discount of the position, if it is one of the first `k`, and not at all otherwise. */
  lemma {:induction false} PositionContributes(labels: seq<real>, i: nat, x: real, k: nat, g: real -> real,
                                               d: nat -> real)
    requires i < |labels|
    ensures Dcg(labels[i := x], k, g, d) ==
      Dcg(labels, k, g, d) + if i < k then Difference(g, labels[i], x, d(i)) else 0.0
  {
    if k > 0 {
      PositionContributes(labels, i, x, k - 1, g, d);
      assert GainAt(labels[i := x], g, k - 1) == if i == k - 1 then g(x) else GainAt(labels, g, k - 1);
      if i == k - 1 {
        Distributes(g(x), g(labels[i]), d(i));
      }
    }
  }

  function Difference(g: real -> real, before: real, after: real, discount: real): real {
    (g(after) - g(before)) * discount
  }

  lemma Distributes(a: real, b: real, c: real)
    ensures (a - b) * c == a * c - b * c
  {}

  /** A position behind the end contributes like one with the label zero. */
  lemma {:induction false} ZeroAtTheEnd(labels: seq<real>, k: nat, g: real -> real, d: nat -> real)
    requires g(0.0) == 0.0
    ensures Dcg(labels + [0.0], k, g, d) == Dcg(labels, k, g, d)
  {
    if k > 0 {
      ZeroAtTheEnd(labels, k - 1, g, d);
      assert GainAt(labels + [0.0], g, k - 1) == GainAt(labels, g, k - 1);
    }
  }

  /** nDCG is the gain of the ranking as a part of that of the ideal one, and zero if there is nothing to gain. */
  lemma NdcgIs(labels: seq<real>, ideal: seq<real>, k: nat, g: real -> real, d: nat -> real)
    ensures IsPart(Ndcg(labels, ideal, k, g, d), Dcg(labels, k, g, d), Dcg(ideal, k, g, d))
  {
    if Dcg(ideal, k, g, d) != 0.0 {
      Quotient(Dcg(labels, k, g, d), Dcg(ideal, k, g, d));
    }
  }

  predicate IsPart(part: real, some: real, all: real) {
    if all == 0.0 then part == 0.0 else part * all == some
  }

  /** The reciprocal rank belongs to the first hit, counted from one, and is zero without any. */
  lemma {:induction false} ReciprocalRankIs(exact: seq<bool>, from: nat, i: nat)
    requires from <= i && forall j :: from <= j < i && j < |exact| ==> !exact[j]
    ensures from <= |exact| <= i ==> ReciprocalRank(exact, from) == 0.0
    ensures i < |exact| && exact[i] ==> IsPart(ReciprocalRank(exact, from), 1.0, (i + 1) as real)
    decreases i - from
  {
    if from < i && from < |exact| {
      ReciprocalRankIs(exact, from + 1, i);
    } else if i < |exact| && exact[i] {
      Quotient(1.0, (i + 1) as real);
    }
  }

  // ---------------------------------------------------------------- labels

  /** The label of a row is the relevance of its document, or zero. */
  lemma {:induction false} GradesAt(rows: seq<Ranked>, relevance: map<string, real>, i: nat)
    ensures |Grades(rows, relevance)| == |rows|
    ensures i < |rows| ==>
      Grades(rows, relevance)[i] == if rows[i].doc in relevance then relevance[rows[i].doc] else 0.0
  {
    if rows != [] {
      GradesAt(rows[..|rows| - 1], relevance, i);
    }
  }

  /** The ideal ranking has the relevances of all documents, the largest first. */
  lemma IdealIs(keys: seq<string>, relevance: map<string, real>)
    requires forall k :: k in keys ==> k in relevance
    ensures var ideal := Ideal(keys, relevance);
      && (forall i, j :: 0 <= i < j < |ideal| ==> ideal[i] >= ideal[j])
      && multiset(ideal) == multiset(seq(|keys|, i requires 0 <= i < |keys| => GradeOf(relevance, keys[i])))
  {
    var values := Values(keys, relevance);
    SortSorts(values, Geq);
    ValuesAre(keys, relevance);
    var ideal := Ideal(keys, relevance);
    forall i, j | 0 <= i < j < |ideal| ensures ideal[i] >= ideal[j] {
      assert Geq(ideal[i], ideal[j]);
    }
  }

  lemma {:induction false} ValuesAre(keys: seq<string>, relevance: map<string, real>)
    ensures Values(keys, relevance) == seq(|keys|, i requires 0 <= i < |keys| => GradeOf(relevance, keys[i]))
  {
    if keys != [] {
      ValuesAre(keys[..|keys| - 1], relevance);
    }
  }

  // ---------------------------------------------------------------- novelty

  /** The chunk at position `i` matches gold span `s`, and none before it does. */
  predicate MatchesFirst(matched: seq<set<nat>>, i: nat, s: nat)
    requires i < |matched|
  {
    s in matched[i] && forall j :: 0 <= j < i ==> s !in matched[j]
  }

  lemma {:induction false} SeenIs(matched: seq<set<nat>>, s: nat)
    ensures s in Seen(matched) <==> exists j :: 0 <= j < |matched| && s in matched[j]
  {
    if matched != [] {
      var init, n := matched[..|matched| - 1], |matched| - 1;
      SeenIs(init, s);
      assert forall j :: 0 <= j < n ==> init[j] == matched[j];
    }
  }

  /** A chunk is a hit, and earns the gain three, exactly when it matches a gold span that no chunk before it
      matched. */
  lemma {:induction false} HitExactlyWhen(matched: seq<set<nat>>, i: nat)
    requires i < |matched|
    ensures |NoveltyHits(matched)| == |NoveltyGrades(matched)| == |matched|
    ensures NoveltyHits(matched)[i] <==> exists s :: MatchesFirst(matched, i, s)
    ensures NoveltyGrades(matched)[i] == if exists s :: MatchesFirst(matched, i, s) then 3.0 else 0.0
  {
    var init, n := matched[..|matched| - 1], |matched| - 1;
    NoveltyLength(matched);
    if i < n {
      HitExactlyWhen(init, i);
      forall s: nat ensures MatchesFirst(init, i, s) <==> MatchesFirst(matched, i, s) {
        assert forall j :: 0 <= j < i ==> init[j] == matched[j];
      }
    } else {
      forall s: nat ensures MatchesFirst(matched, n, s) <==> s in matched[n] && s !in Seen(init) {
        SeenIs(init, s);
        assert forall j :: 0 <= j < n ==> init[j] == matched[j];
      }
    }
  }
}
