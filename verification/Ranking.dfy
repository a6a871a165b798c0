/** Document-level ranking and the normalised discounted cumulative gain of a query. The rank discount
    is any positive, non-increasing function, and the gain any non-decreasing function that is zero
    at zero. */
module Ranking {
  import opened Sorting
  import opened Reals
  import opened Integers
  import opened Deduplication
  import Evidence

  // ---------------------------------------------------------------- one row per document

  datatype Ranked = Ranked(doc: string, chunk: string, score: real)

  function DocOf(r: Ranked): string { r.doc }

  /** `dedupe_docs`. The limit is tested after a row has been kept, so at least one row is kept
      whatever the limit. */
  method DedupeDocs(ranked: seq<Ranked>, limit: int) returns (rows: seq<Ranked>)
    ensures var firsts := Firsts(ranked, DocOf, {}); rows == firsts[..Min(|firsts|, Max(1, limit))]
  {
    var seen: set<string> := {};
    rows := [];
    ghost var firsts := Firsts(ranked, DocOf, {});
    for i := 0 to |ranked|
      invariant firsts == rows + Firsts(ranked[i..], DocOf, seen)
      invariant |rows| < Max(1, limit)
    {
      NextFirst(rows, ranked, DocOf, i, seen);
      if ranked[i].doc in seen {
        continue;
      }
      seen := seen + {ranked[i].doc};
      rows := rows + [ranked[i]];
      if |rows| >= limit {
        return;
      }
    }
  }

  /** No document is listed twice. */
  ghost predicate DistinctDocs(rows: seq<Ranked>) {
    DistinctBy(rows, DocOf)
  }

  // ---------------------------------------------------------------- discounted gain

  ghost predicate IsDiscount(d: nat -> real) {
    (forall i :: d(i) > 0.0) && forall i, j :: i <= j ==> d(j) <= d(i)
  }

  ghost predicate IsGain(g: real -> real) {
    g(0.0) == 0.0 && forall x, y :: 0.0 <= x <= y ==> g(x) <= g(y)
  }

  lemma GainIsMonotone(g: real -> real, x: real, y: real)
    requires IsGain(g) && 0.0 <= x <= y
    ensures 0.0 <= g(x) <= g(y)
  {
    assert g(0.0) <= g(x);
  }

  /** The gain at position `i`; nothing beyond the end of the list. */
  function GainAt(labels: seq<real>, g: real -> real, i: nat): real {
    if i < |labels| then g(labels[i]) else 0.0
  }

  /** `sum(gain / log2(rank + 1))` over the first `k` labels. */
  function Dcg(labels: seq<real>, k: nat, g: real -> real, d: nat -> real): real {
    if k == 0 then 0.0 else Dcg(labels, k - 1, g, d) + GainAt(labels, g, k - 1) * d(k - 1)
  }

  function Ndcg(labels: seq<real>, ideal: seq<real>, k: nat, g: real -> real, d: nat -> real): real {
    var idcg := Dcg(ideal, k, g, d);
    if idcg != 0.0 then Dcg(labels, k, g, d) / idcg else 0.0
  }

  /** The plain sum of the first `m` gains. */
  function Total(labels: seq<real>, m: nat, g: real -> real): real {
    if m == 0 then 0.0 else Total(labels, m - 1, g) + GainAt(labels, g, m - 1)
  }

  ghost predicate Labels(labels: seq<real>) {
    forall x :: x in labels ==> 0.0 <= x
  }

  /** The sums of `b` stay ahead of those of `a` at every cut-off. */
  ghost predicate Dominates(b: seq<real>, a: seq<real>, k: nat, g: real -> real) {
    forall m: nat :: m <= k ==> Total(a, m, g) <= Total(b, m, g)
  }

  /** What a lead is worth at a discount. */
  function Worth(discount: real, behind: real, ahead: real): real {
    discount * (ahead - behind)
  }

  /** Summation by parts: if every partial sum is ahead, so is every discounted sum, by at least the
      last discount times the lead. */
  lemma {:induction false} DiscountedLead(a: seq<real>, b: seq<real>, k: nat, g: real -> real, d: nat -> real)
    requires IsDiscount(d) && Dominates(b, a, k, g) && k > 0
    ensures Dcg(a, k, g, d) + Worth(d(k - 1), Total(a, k, g), Total(b, k, g)) <= Dcg(b, k, g, d)
  {
    var x, y := GainAt(b, g, k - 1), GainAt(a, g, k - 1);
    if k > 1 {
      DiscountedLead(a, b, k - 1, g, d);
      DiscountStep(Dcg(a, k - 1, g, d), Dcg(b, k - 1, g, d), d(k - 2), d(k - 1), Total(a, k - 1, g),
        Total(b, k - 1, g), x, y);
    } else {
      assert Total(a, 0, g) == Total(b, 0, g) == 0.0 && Dcg(a, 0, g, d) == Dcg(b, 0, g, d) == 0.0;
      DiscountStep(0.0, 0.0, d(k - 1), d(k - 1), 0.0, 0.0, x, y);
    }
  }

  /** One more position: the lead so far is worth at least as much at the smaller discount. */
  lemma DiscountStep(a: real, b: real, previous: real, c: real, ta: real, tb: real, x: real, y: real)
    requires c <= previous && ta <= tb && a + Worth(previous, ta, tb) <= b
    ensures a + y * c + Worth(c, ta + y, tb + x) <= b + x * c
  {
    MulNonNegative(previous - c, tb - ta);
    assert (previous - c) * (tb - ta) == previous * (tb - ta) - c * (tb - ta);
    assert c * (tb + x - (ta + y)) == c * (tb - ta) + x * c - y * c;
  }

  lemma WorthNonNegative(discount: real, behind: real, ahead: real)
    requires 0.0 <= discount && behind <= ahead
    ensures 0.0 <= Worth(discount, behind, ahead)
  {
    MulNonNegative(discount, ahead - behind);
  }

  lemma {:induction false} DcgNonNegative(labels: seq<real>, k: nat, g: real -> real, d: nat -> real)
    requires IsDiscount(d) && IsGain(g) && Labels(labels)
    ensures 0.0 <= Dcg(labels, k, g, d)
  {
    if k > 0 {
      DcgNonNegative(labels, k - 1, g, d);
      if k - 1 < |labels| {
        assert labels[k - 1] in labels;
        GainIsMonotone(g, labels[k - 1], labels[k - 1]);
      }
      MulNonNegative(GainAt(labels, g, k - 1), d(k - 1));
    }
  }

  /** A ranking dominated by the ideal has an nDCG between zero and one. */
  lemma DominatedNdcg(labels: seq<real>, ideal: seq<real>, k: nat, g: real -> real, d: nat -> real)
    requires IsDiscount(d) && IsGain(g) && Labels(labels) && Labels(ideal)
    requires Dominates(ideal, labels, k, g)
    ensures 0.0 <= Ndcg(labels, ideal, k, g, d) <= 1.0
  {
    DcgNonNegative(labels, k, g, d);
    DcgNonNegative(ideal, k, g, d);
    if k > 0 {
      DiscountedLead(labels, ideal, k, g, d);
      WorthNonNegative(d(k - 1), Total(labels, k, g), Total(ideal, k, g));
    }
    if Dcg(ideal, k, g, d) != 0.0 {
      DivBounds(Dcg(labels, k, g, d), Dcg(ideal, k, g, d));
    }
  }

  // ---------------------------------------------------------------- graded documents

  predicate Geq(x: real, y: real) { x >= y }

  /** `relevance.get(doc, 0)` for every row. */
  function Grades(rows: seq<Ranked>, relevance: map<string, real>): seq<real> {
    if rows == [] then []
    else Grades(rows[..|rows| - 1], relevance) + [GradeOf(relevance, rows[|rows| - 1].doc)]
  }

  function GradeOf(relevance: map<string, real>, doc: string): real {
    if doc in relevance then relevance[doc] else 0.0
  }

  datatype Row = Row(exact: seq<bool>, graded: seq<real>)

  /** The scoring loop of `query_metrics` for JD recall. */
  method GradeDocuments(rows: seq<Ranked>, relevance: map<string, real>, goldId: string) returns (r: Row)
    ensures r.graded == Grades(rows, relevance) && |r.exact| == |rows|
    ensures forall i :: 0 <= i < |rows| ==> (r.exact[i] <==> rows[i].doc == goldId)
    ensures DistinctDocs(rows) ==> forall i, j :: 0 <= i < j < |rows| ==> !(r.exact[i] && r.exact[j])
  {
    var exact, graded := [], [];
    for i := 0 to |rows|
      invariant |exact| == i && graded == Grades(rows[..i], relevance)
      invariant forall j :: 0 <= j < i ==> (exact[j] <==> rows[j].doc == goldId)
    {
      assert rows[..i + 1][..i] == rows[..i];
      exact := exact + [rows[i].doc == goldId];
      graded := graded + [GradeOf(relevance, rows[i].doc)];
    }
    assert rows[..|rows|] == rows;
    r := Row(exact, graded);
    if DistinctDocs(rows) {
      forall i, j | 0 <= i < j < |rows| ensures !(r.exact[i] && r.exact[j]) {
        assert DocOf(rows[i]) != DocOf(rows[j]);
      }
    }
  }

  /** The labels of a dictionary, in the order of its keys. */
  function Values(keys: seq<string>, relevance: map<string, real>): seq<real> {
    if keys == [] then [] else Values(keys[..|keys| - 1], relevance) + [GradeOf(relevance, keys[|keys| - 1])]
  }

  /** The dictionary's keys in insertion order. */
  ghost predicate KeyOrder(keys: seq<string>, relevance: map<string, real>) {
    && (forall i, j :: 0 <= i < j < |keys| ==> keys[i] != keys[j])
    && (forall k :: k in keys <==> k in relevance)
    && (forall k :: k in relevance ==> 0.0 <= relevance[k])
  }

  /** `sorted(relevance.values(), reverse=True)` */
  function Ideal(keys: seq<string>, relevance: map<string, real>): seq<real> {
    Sort(Values(keys, relevance), Geq)
  }

  /** The labels of the rows that have one. */
  function Labelled(rows: seq<Ranked>, relevance: map<string, real>): seq<real> {
    if rows == [] then []
    else Labelled(rows[..|rows| - 1], relevance) +
         (if rows[|rows| - 1].doc in relevance then [relevance[rows[|rows| - 1].doc]] else [])
  }

  function SumOf(labels: seq<real>, g: real -> real): real {
    Total(labels, |labels|, g)
  }

  lemma {:induction false} TotalOfPrefix(labels: seq<real>, more: seq<real>, m: nat, g: real -> real)
    requires m <= |labels|
    ensures Total(labels + more, m, g) == Total(labels, m, g)
  {
    if m > 0 {
      TotalOfPrefix(labels, more, m - 1, g);
    }
  }

  lemma SumOfSnoc(labels: seq<real>, x: real, g: real -> real)
    ensures SumOf(labels + [x], g) == SumOf(labels, g) + g(x)
  {
    TotalOfPrefix(labels, [x], |labels|, g);
  }

  /** Removing one label takes its gain away from the sum. */
  lemma {:induction false} SumWithout(labels: seq<real>, i: nat, g: real -> real)
    requires i < |labels|
    ensures SumOf(labels, g) == SumOf(labels[..i] + labels[i + 1..], g) + g(labels[i])
  {
    var init, last := labels[..|labels| - 1], labels[|labels| - 1];
    assert labels == init + [last];
    SumOfSnoc(init, last, g);
    if i < |labels| - 1 {
      SumWithout(init, i, g);
      assert labels[..i] + labels[i + 1..] == (init[..i] + init[i + 1..]) + [last];
      SumOfSnoc(init[..i] + init[i + 1..], last, g);
    } else {
      assert labels[..i] + labels[i + 1..] == init;
    }
  }

  lemma {:induction false} TotalOfTail(labels: seq<real>, m: nat, g: real -> real)
    requires labels != []
    ensures Total(labels, m + 1, g) == g(labels[0]) + Total(labels[1..], m, g)
  {
    if m > 0 {
      TotalOfTail(labels, m - 1, g);
    } else {
      assert Total(labels, 0, g) == 0.0 && Total(labels[1..], 0, g) == 0.0;
    }
  }

  /** No selection of `n` labels has a larger sum than the first `n` of the sorted list. */
  lemma {:induction false} TopSum(t: seq<real>, ideal: seq<real>, g: real -> real)
    requires IsGain(g) && SortedBy(Geq, ideal) && Labels(ideal)
    requires multiset(t) <= multiset(ideal)
    ensures SumOf(t, g) <= Total(ideal, |t|, g)
    decreases |ideal|
  {
    if t != [] {
      assert t[0] in multiset(ideal);
      var top, rest := ideal[0], ideal[1..];
      var i := if top in t then IndexOf(t, top) else 0;
      var others := t[..i] + t[i + 1..];
      RemoveBoth(t, i, ideal);
      TopIsLargest(ideal, t[i]);
      GainIsMonotone(g, t[i], top);
      TopSum(others, rest, g);
      SumWithout(t, i, g);
      TotalOfTail(ideal, |t| - 1, g);
    }
  }

  lemma TopIsLargest(ideal: seq<real>, x: real)
    requires SortedBy(Geq, ideal) && Labels(ideal) && x in multiset(ideal)
    ensures 0.0 <= x <= ideal[0]
    ensures SortedBy(Geq, ideal[1..]) && Labels(ideal[1..])
  {
    var k :| 0 <= k < |ideal| && ideal[k] == x;
    assert k > 0 ==> Geq(ideal[0], ideal[k]);
    assert ideal[k] in ideal;
    forall y | y in ideal[1..] ensures 0.0 <= y {
      assert y in ideal;
    }
  }

  lemma RemoveBoth(t: seq<real>, i: nat, ideal: seq<real>)
    requires i < |t| && ideal != [] && multiset(t) <= multiset(ideal)
    requires ideal[0] in t ==> t[i] == ideal[0]
    ensures multiset(t[..i] + t[i + 1..]) <= multiset(ideal[1..])
    ensures t[i] in multiset(ideal)
  {
    assert ideal == [ideal[0]] + ideal[1..];
    assert t == t[..i] + [t[i]] + t[i + 1..];
    assert t[i] in multiset(t);
    WithoutTop(multiset(t), multiset(t[..i] + t[i + 1..]), t[i], ideal[0], multiset(ideal[1..]));
  }

  function IndexOf(t: seq<real>, x: real): (i: nat)
    requires x in t
    ensures i < |t| && t[i] == x
  {
    if t[0] == x then 0 else 1 + IndexOf(t[1..], x)
  }

  lemma WithoutTop(t: multiset<real>, others: multiset<real>, x: real, top: real, rest: multiset<real>)
    requires t == others + multiset{x} && t <= rest + multiset{top}
    requires top in t ==> x == top
    ensures others <= rest
  {
    forall y ensures others[y] <= rest[y] {
      assert t[y] <= (rest + multiset{top})[y];
    }
  }

  lemma {:induction false} TotalGrows(labels: seq<real>, m: nat, n: nat, g: real -> real)
    requires IsGain(g) && Labels(labels) && m <= n
    ensures Total(labels, m, g) <= Total(labels, n, g)
    decreases n
  {
    if m < n {
      TotalGrows(labels, m, n - 1, g);
      if n - 1 < |labels| {
        assert labels[n - 1] in labels;
        GainIsMonotone(g, labels[n - 1], labels[n - 1]);
      }
    }
  }

  lemma {:induction false} GradesFacts(rows: seq<Ranked>, relevance: map<string, real>, g: real -> real)
    requires IsGain(g)
    ensures |Grades(rows, relevance)| == |rows|
    ensures |Labelled(rows, relevance)| <= |rows|
    ensures SumOf(Grades(rows, relevance), g) == SumOf(Labelled(rows, relevance), g)
  {
    if rows != [] {
      var init, last := rows[..|rows| - 1], rows[|rows| - 1];
      GradesFacts(init, relevance, g);
      SumOfSnoc(Grades(init, relevance), GradeOf(relevance, last.doc), g);
      if last.doc in relevance {
        SumOfSnoc(Labelled(init, relevance), relevance[last.doc], g);
      } else {
        assert Labelled(init, relevance) + [] == Labelled(init, relevance);
      }
    }
  }

  /** Distinct documents use each label of the dictionary at most once. */
  lemma {:induction false} LabelledOnce(rows: seq<Ranked>, keys: seq<string>, relevance: map<string, real>)
    requires DistinctDocs(rows)
    requires forall i, j :: 0 <= i < j < |keys| ==> keys[i] != keys[j]
    requires forall r :: r in rows && r.doc in relevance ==> r.doc in keys
    requires forall k :: k in keys ==> k in relevance
    ensures multiset(Labelled(rows, relevance)) <= multiset(Values(keys, relevance))
  {
    if rows != [] {
      var init, last := rows[..|rows| - 1], rows[|rows| - 1];
      assert forall r :: r in init ==> r in rows;
      assert last in rows;
      if last.doc in relevance {
        var i :| 0 <= i < |keys| && keys[i] == last.doc;
        var others := keys[..i] + keys[i + 1..];
        OthersCover(rows, keys, relevance, i);
        OthersDistinct(keys, i);
        LabelledOnce(init, others, relevance);
        ValuesWithout(keys, i, relevance);
      } else {
        LabelledOnce(init, keys, relevance);
        assert Labelled(init, relevance) + [] == Labelled(init, relevance);
      }
    }
  }

  /** The keys of the other documents are among the other keys. */
  lemma OthersCover(rows: seq<Ranked>, keys: seq<string>, relevance: map<string, real>, i: nat)
    requires rows != [] && DistinctDocs(rows) && i < |keys| && keys[i] == rows[|rows| - 1].doc
    requires forall r :: r in rows && r.doc in relevance ==> r.doc in keys
    ensures forall r :: r in rows[..|rows| - 1] && r.doc in relevance ==> r.doc in keys[..i] + keys[i + 1..]
  {
    var init, last := rows[..|rows| - 1], rows[|rows| - 1];
    forall r | r in init && r.doc in relevance ensures r.doc in keys[..i] + keys[i + 1..] {
      var n :| 0 <= n < |init| && init[n] == r;
      assert DocOf(rows[n]) != DocOf(last);
      OtherKeyStays(keys, i, r.doc);
    }
  }

  lemma OtherKeyStays(keys: seq<string>, i: nat, k: string)
    requires i < |keys| && k in keys && k != keys[i]
    ensures k in keys[..i] + keys[i + 1..]
  {
    var m :| 0 <= m < |keys| && keys[m] == k;
    var others := keys[..i] + keys[i + 1..];
    assert m < i ==> others[m] == keys[m];
    assert m > i ==> others[m - 1] == keys[m];
  }

  lemma OthersDistinct(keys: seq<string>, i: nat)
    requires i < |keys| && forall m, n :: 0 <= m < n < |keys| ==> keys[m] != keys[n]
    ensures var others := keys[..i] + keys[i + 1..];
      && (forall m, n :: 0 <= m < n < |others| ==> others[m] != others[n])
      && (forall k :: k in others ==> k in keys)
  {}

  lemma {:induction false} ValuesWithout(keys: seq<string>, i: nat, relevance: map<string, real>)
    requires i < |keys|
    ensures multiset(Values(keys, relevance)) ==
      multiset(Values(keys[..i] + keys[i + 1..], relevance)) + multiset{GradeOf(relevance, keys[i])}
  {
    var init, last := keys[..|keys| - 1], keys[|keys| - 1];
    OthersSnoc(keys, i);
    ValuesSnoc(init, last, relevance);
    if i < |keys| - 1 {
      ValuesWithout(init, i, relevance);
      ValuesSnoc(init[..i] + init[i + 1..], last, relevance);
    }
  }

  lemma OthersSnoc<T>(keys: seq<T>, i: nat)
    requires i < |keys|
    ensures var init, last := keys[..|keys| - 1], keys[|keys| - 1];
      && keys == init + [last]
      && keys[..i] + keys[i + 1..] == (if i < |init| then init[..i] + init[i + 1..] + [last] else init)
      && (i < |init| ==> init[i] == keys[i])
  {}

  lemma ValuesSnoc(keys: seq<string>, last: string, relevance: map<string, real>)
    ensures multiset(Values(keys + [last], relevance)) == multiset(Values(keys, relevance)) +
      multiset{GradeOf(relevance, last)}
  {
    assert (keys + [last])[..|keys|] == keys;
  }

  lemma {:induction false} ValuesAreLabels(keys: seq<string>, relevance: map<string, real>)
    requires forall k :: k in relevance ==> 0.0 <= relevance[k]
    ensures Labels(Values(keys, relevance))
  {
    if keys != [] {
      ValuesAreLabels(keys[..|keys| - 1], relevance);
    }
  }

  lemma {:induction false} GradesOfPrefix(rows: seq<Ranked>, m: nat, relevance: map<string, real>, g: real -> real)
    requires m <= |rows|
    ensures |Grades(rows, relevance)| == |rows|
    ensures Total(Grades(rows, relevance), m, g) == SumOf(Grades(rows[..m], relevance), g)
  {
    if m < |rows| {
      var init := rows[..|rows| - 1];
      GradesOfPrefix(init, m, relevance, g);
      assert init[..m] == rows[..m];
      TotalOfPrefix(Grades(init, relevance), [GradeOf(relevance, rows[|rows| - 1].doc)], m, g);
    } else {
      assert rows[..m] == rows;
      GradesLength(rows, relevance);
    }
  }

  lemma {:induction false} GradesLength(rows: seq<Ranked>, relevance: map<string, real>)
    ensures |Grades(rows, relevance)| == |rows|
  {
    if rows != [] {
      GradesLength(rows[..|rows| - 1], relevance);
    }
  }

  lemma {:induction false} TotalBeyondEnd(labels: seq<real>, m: nat, g: real -> real)
    requires |labels| <= m
    ensures Total(labels, m, g) == SumOf(labels, g)
  {
    if |labels| < m {
      TotalBeyondEnd(labels, m - 1, g);
    }
  }

  lemma IdealFacts(keys: seq<string>, relevance: map<string, real>)
    requires KeyOrder(keys, relevance)
    ensures SortedBy(Geq, Ideal(keys, relevance)) && Labels(Ideal(keys, relevance))
  {
    SortSorts(Values(keys, relevance), Geq);
    ValuesAreLabels(keys, relevance);
    SortKeepsMembers(Values(keys, relevance), Geq);
  }

  lemma IdealDominates(rows: seq<Ranked>, keys: seq<string>, relevance: map<string, real>, m: nat, g: real -> real)
    requires IsGain(g) && KeyOrder(keys, relevance) && DistinctDocs(rows)
    ensures Total(Grades(rows, relevance), m, g) <= Total(Ideal(keys, relevance), m, g)
  {
    var n := Min(m, |rows|);
    var top := rows[..n];
    GradesOfPrefix(rows, n, relevance, g);
    if n < m {
      TotalBeyondEnd(Grades(rows, relevance), m, g);
    }
    GradesFacts(top, relevance, g);
    LabelledOnce(top, keys, relevance);
    IdealFacts(keys, relevance);
    TopSum(Labelled(top, relevance), Ideal(keys, relevance), g);
    TotalGrows(Ideal(keys, relevance), |Labelled(top, relevance)|, m, g);
  }

  lemma {:induction false} GradesAreLabels(rows: seq<Ranked>, relevance: map<string, real>)
    requires forall k :: k in relevance ==> 0.0 <= relevance[k]
    ensures Labels(Grades(rows, relevance))
  {
    if rows != [] {
      GradesAreLabels(rows[..|rows| - 1], relevance);
    }
  }

  /** JD recall: for every ranking with one row per document, every set of labels and every cut-off,
      nDCG is between zero and one. */
  lemma DocumentNdcgIsFraction(rows: seq<Ranked>, keys: seq<string>, relevance: map<string, real>, k: nat,
                               g: real -> real, d: nat -> real)
    requires IsDiscount(d) && IsGain(g) && KeyOrder(keys, relevance) && DistinctDocs(rows)
    ensures 0.0 <= Ndcg(Grades(rows, relevance), Ideal(keys, relevance), k, g, d) <= 1.0
  {
    forall m: nat | m <= k
      ensures Total(Grades(rows, relevance), m, g) <= Total(Ideal(keys, relevance), m, g)
    {
      IdealDominates(rows, keys, relevance, m, g);
    }
    GradesAreLabels(rows, relevance);
    IdealFacts(keys, relevance);
    DominatedNdcg(Grades(rows, relevance), Ideal(keys, relevance), k, g, d);
  }

  /** The scores of the program: whatever was ranked, nDCG over the rows that `dedupe_docs` keeps is
      between zero and one. */
  lemma DedupedNdcgIsFraction(ranked: seq<Ranked>, limit: int, keys: seq<string>, relevance: map<string, real>, k: nat,
                              g: real -> real, d: nat -> real)
    requires IsDiscount(d) && IsGain(g) && KeyOrder(keys, relevance)
    ensures var firsts := Firsts(ranked, DocOf, {});
      var rows := firsts[..Min(|firsts|, Max(1, limit))];
      0.0 <= Ndcg(Grades(rows, relevance), Ideal(keys, relevance), k, g, d) <= 1.0
  {
    FirstsAreDistinct(ranked, DocOf, {});
    var firsts := Firsts(ranked, DocOf, {});
    DocumentNdcgIsFraction(firsts[..Min(|firsts|, Max(1, limit))], keys, relevance, k, g, d);
  }

  /** Why one row per document is needed: for every discount and every gain, a list that repeats the
      only relevant document scores more than the ideal list, which has it once. */
  lemma RepeatedDocumentExceedsOne(first: Ranked, again: Ranked, x: real, g: real -> real, d: nat -> real)
    requires IsDiscount(d) && IsGain(g) && g(x) > 0.0 && first.doc == again.doc
    ensures var relevance := map[first.doc := x];
      Ndcg(Grades([first, again], relevance), Ideal([first.doc], relevance), 2, g, d) == 1.0 + d(1) / d(0) > 1.0
  {
    RepeatedGrades(first, again, x);
    TwoLabelDcg(x, g, d);
    SharedFactor(g(x), d(0), d(1), Dcg([x, x], 2, g, d), Dcg([x], 2, g, d));
  }

  lemma RepeatedGrades(first: Ranked, again: Ranked, x: real)
    requires first.doc == again.doc
    ensures Grades([first, again], map[first.doc := x]) == [x, x]
    ensures Ideal([first.doc], map[first.doc := x]) == [x]
  {
    var relevance := map[first.doc := x];
    assert [first, again][..1] == [first] && [first][..0] == [];
    assert Grades([first], relevance) == [x];
    assert [first.doc][..0] == [] && Values([first.doc], relevance) == [x];
  }

  lemma TwoLabelDcg(x: real, g: real -> real, d: nat -> real)
    ensures Dcg([x, x], 2, g, d) == g(x) * d(0) + g(x) * d(1)
    ensures Dcg([x], 2, g, d) == g(x) * d(0)
  {
    assert Dcg([x, x], 1, g, d) == g(x) * d(0);
    assert Dcg([x], 1, g, d) == g(x) * d(0);
    assert GainAt([x], g, 1) == 0.0;
  }

  lemma SharedFactor(gain: real, x: real, y: real, sum: real, part: real)
    requires 0.0 < gain && 0.0 < x && 0.0 < y
    requires sum == gain * x + gain * y && part == gain * x
    ensures part != 0.0 && sum / part == 1.0 + y / x > 1.0
  {
    var q, t := sum / part, y / x;
    MulPositive(gain, x);
    Quotient(sum, part);
    Quotient(y, x);
    DivBetween(y, x, 0.0, t);
    Regroup(gain, x, t);
    if q < 1.0 + t {
      MulStrict(q, 1.0 + t, gain * x);
    } else if 1.0 + t < q {
      MulStrict(1.0 + t, q, gain * x);
    }
    if t <= 0.0 {
      MulMonotone(t, 0.0, x);
    }
  }

  lemma Regroup(gain: real, x: real, t: real)
    ensures (1.0 + t) * (gain * x) == gain * x + gain * (t * x)
  {
    Distribute(1.0, t, gain * x);
  }

  // ---------------------------------------------------------------- evidence stages

  /** For every position: 3 if the chunk matches a gold span that no chunk before it matched. */
  function NoveltyGrades(matched: seq<set<nat>>): seq<real> {
    if matched == [] then []
    else
      NoveltyGrades(matched[..|matched| - 1]) +
      [if matched[|matched| - 1] <= Seen(matched[..|matched| - 1]) then 0.0 else 3.0]
  }

  function Seen(matched: seq<set<nat>>): set<nat> {
    if matched == [] then {} else Seen(matched[..|matched| - 1]) + matched[|matched| - 1]
  }

  /** For every position: whether it matches a gold span that no chunk before it matched. */
  function NoveltyHits(matched: seq<set<nat>>): (r: seq<bool>)
    ensures |r| == |matched|
  {
    if matched == [] then []
    else
      var before := matched[..|matched| - 1];
      NoveltyHits(before) + [!(matched[|matched| - 1] <= Seen(before))]
  }

  lemma NoveltyNext(matched: seq<set<nat>>, now: set<nat>)
    ensures NoveltyHits(matched + [now]) == NoveltyHits(matched) + [!(now <= Seen(matched))]
    ensures NoveltyGrades(matched + [now]) == NoveltyGrades(matched) + [if now <= Seen(matched) then 0.0 else 3.0]
    ensures Seen(matched + [now]) == Seen(matched) + now
  {
    assert (matched + [now])[..|matched|] == matched;
  }

  lemma NewlyMatched(now: set<nat>, seen: set<nat>)
    ensures now - seen == {} <==> now <= seen
  {
    if now - seen == {} {
      forall x | x in now ensures x in seen {
        assert x !in now - seen;
      }
    }
  }

  /** The scoring loop of `query_metrics` for the evidence stages. */
  method GradeEvidence(gold: seq<Evidence.Span>, ranked: seq<Evidence.Chunk>)
    returns (r: Row, ghost matched: seq<set<nat>>)
    ensures MatchLists(gold, ranked, matched) && |r.exact| == |ranked|
    ensures r.graded == NoveltyGrades(matched)
    ensures r.exact == NoveltyHits(matched)
  {
    var exact, graded := [], [];
    var seen: set<nat> := {};
    matched := [];
    for i := 0 to |ranked|
      invariant |matched| == i
      invariant forall j :: 0 <= j < i ==> matched[j] == Evidence.MatchedIndexes(gold, ranked[j], |gold|)
      invariant exact == NoveltyHits(matched) && graded == NoveltyGrades(matched) && seen == Seen(matched)
    {
      var now := Evidence.MatchedGoldSpanIndexes(gold, ranked[i]);
      var newlyMatched := now - seen;
      exact := exact + [newlyMatched != {}];
      graded := graded + [if newlyMatched != {} then 3.0 else 0.0];
      seen := seen + now;
      NoveltyNext(matched, now);
      NewlyMatched(now, seen);
      matched := matched + [now];
    }
    r := Row(exact, graded);
  }

  ghost predicate AllBelow(s: set<nat>, n: nat) {
    forall i :: i in s ==> i < n
  }

  ghost predicate IndexesBelow(matched: seq<set<nat>>, n: nat) {
    matched != [] ==> IndexesBelow(matched[..|matched| - 1], n) && AllBelow(matched[|matched| - 1], n)
  }

  lemma {:induction false} BelowPrefix(matched: seq<set<nat>>, n: nat, k: nat)
    requires IndexesBelow(matched, n) && k <= |matched|
    ensures IndexesBelow(matched[..k], n)
  {
    if k < |matched| {
      BelowPrefix(matched[..|matched| - 1], n, k);
      assert matched[..|matched| - 1][..k] == matched[..k];
    } else {
      assert matched[..k] == matched;
    }
  }

  lemma {:induction false} SeenBelow(matched: seq<set<nat>>, n: nat)
    requires IndexesBelow(matched, n)
    ensures AllBelow(Seen(matched), n)
  {
    if matched != [] {
      SeenBelow(matched[..|matched| - 1], n);
    }
  }

  lemma {:induction false} NoveltyGradesAreLabels(matched: seq<set<nat>>)
    ensures Labels(NoveltyGrades(matched))
  {
    if matched != [] {
      NoveltyGradesAreLabels(matched[..|matched| - 1]);
    }
  }

  /** `n` times `c`. */
  function Times(n: nat, c: real): real {
    if n == 0 then 0.0 else Times(n - 1, c) + c
  }

  lemma {:induction false} TimesGrows(m: nat, n: nat, c: real)
    requires 0.0 <= c && m <= n
    ensures Times(m, c) <= Times(n, c)
  {
    if m < n {
      TimesGrows(m, n - 1, c);
    }
  }

  /** Every position that earns a gain adds a span to those seen. */
  lemma {:induction false} NoveltyIsBounded(matched: seq<set<nat>>, g: real -> real)
    requires IsGain(g)
    ensures SumOf(NoveltyGrades(matched), g) <= Times(|Seen(matched)|, g(3.0))
  {
    if matched != [] {
      var init, last := matched[..|matched| - 1], matched[|matched| - 1];
      NoveltyIsBounded(init, g);
      SumOfSnoc(NoveltyGrades(init), if last <= Seen(init) then 0.0 else 3.0, g);
      if last <= Seen(init) {
        assert Seen(matched) == Seen(init);
      } else {
        NewlySeen(Seen(init), last);
        GainIsMonotone(g, 3.0, 3.0);
        TimesGrows(|Seen(init)| + 1, |Seen(matched)|, g(3.0));
      }
    }
  }

  lemma NewlySeen(seen: set<nat>, now: set<nat>)
    requires !(now <= seen)
    ensures |seen + now| >= |seen| + 1
  {
    var i :| i in now && i !in seen;
    Evidence.SubsetSize(seen + {i}, seen + now);
  }

  function Repeat(x: real, n: nat): (s: seq<real>)
    ensures |s| == n && forall i :: 0 <= i < n ==> s[i] == x
  {
    if n == 0 then [] else Repeat(x, n - 1) + [x]
  }

  lemma {:induction false} TotalOfRepeat(x: real, n: nat, m: nat, g: real -> real)
    ensures Total(Repeat(x, n), m, g) == Times(Min(m, n), g(x))
  {
    if m > 0 {
      TotalOfRepeat(x, n, m - 1, g);
    }
  }

  lemma {:induction false} NoveltyOfPrefix(matched: seq<set<nat>>, m: nat, g: real -> real)
    requires m <= |matched|
    ensures |NoveltyGrades(matched)| == |matched|
    ensures Total(NoveltyGrades(matched), m, g) == SumOf(NoveltyGrades(matched[..m]), g)
  {
    if m < |matched| {
      var init, last := matched[..|matched| - 1], matched[|matched| - 1];
      NoveltyOfPrefix(init, m, g);
      assert init[..m] == matched[..m];
      TotalOfPrefix(NoveltyGrades(init), [if last <= Seen(init) then 0.0 else 3.0], m, g);
    } else {
      assert matched[..m] == matched;
      NoveltyLength(matched);
    }
  }

  lemma {:induction false} NoveltyLength(matched: seq<set<nat>>)
    ensures |NoveltyGrades(matched)| == |matched|
  {
    if matched != [] {
      NoveltyLength(matched[..|matched| - 1]);
    }
  }

  /** The gains of the first `m` positions are at most three per position. */
  lemma {:induction false} NoveltyPerPosition(matched: seq<set<nat>>, g: real -> real)
    requires IsGain(g)
    ensures SumOf(NoveltyGrades(matched), g) <= Times(|matched|, g(3.0))
  {
    if matched != [] {
      var init, last := matched[..|matched| - 1], matched[|matched| - 1];
      NoveltyPerPosition(init, g);
      SumOfSnoc(NoveltyGrades(init), if last <= Seen(init) then 0.0 else 3.0, g);
      GainIsMonotone(g, 3.0, 3.0);
    }
  }

  lemma {:induction false} BelowSize(s: set<nat>, n: nat)
    requires AllBelow(s, n)
    ensures |s| <= n
  {
    if n > 0 {
      BelowSize(s - {n - 1}, n - 1);
    } else {
      Evidence.SubsetSize(s, {});
    }
  }

  lemma NoveltyDominated(matched: seq<set<nat>>, n: nat, m: nat, g: real -> real)
    requires IsGain(g) && IndexesBelow(matched, n)
    ensures Total(NoveltyGrades(matched), m, g) <= Total(Repeat(3.0, Max(1, n)), m, g)
  {
    var k := Min(m, |matched|);
    var top := matched[..k];
    NoveltyOfPrefix(matched, k, g);
    if k < m {
      TotalBeyondEnd(NoveltyGrades(matched), m, g);
    }
    GainIsMonotone(g, 3.0, 3.0);
    TotalOfRepeat(3.0, Max(1, n), m, g);
    if m <= Max(1, n) {
      NoveltyPerPosition(top, g);
      TimesGrows(k, m, g(3.0));
    } else {
      NoveltyBySpans(matched, n, k, g);
    }
  }

  lemma NoveltyBySpans(matched: seq<set<nat>>, n: nat, k: nat, g: real -> real)
    requires IsGain(g) && IndexesBelow(matched, n) && k <= |matched|
    ensures SumOf(NoveltyGrades(matched[..k]), g) <= Times(Max(1, n), g(3.0))
  {
    var top := matched[..k];
    BelowPrefix(matched, n, k);
    SeenBelow(top, n);
    BelowSize(Seen(top), n);
    NoveltyIsBounded(top, g);
    GainIsMonotone(g, 3.0, 3.0);
    TimesGrows(|Seen(top)|, Max(1, n), g(3.0));
  }

  /** Each list holds the spans that the chunk at its position matches. */
  ghost predicate MatchLists(gold: seq<Evidence.Span>, ranked: seq<Evidence.Chunk>, matched: seq<set<nat>>) {
    && |matched| == |ranked|
    && forall i :: 0 <= i < |ranked| ==> matched[i] == Evidence.MatchedIndexes(gold, ranked[i], |gold|)
  }

  lemma {:induction false} MatchedBelow(gold: seq<Evidence.Span>, ranked: seq<Evidence.Chunk>, matched: seq<set<nat>>)
    requires MatchLists(gold, ranked, matched)
    ensures IndexesBelow(matched, |gold|)
  {
    if matched != [] {
      MatchedBelow(gold, ranked[..|ranked| - 1], matched[..|matched| - 1]);
      var last := matched[|matched| - 1];
      forall i | i in last ensures i < |gold| {
        Evidence.MatchedIndexesAre(gold, ranked[|ranked| - 1], |gold|, i);
      }
    }
  }

  /** Evidence stages: for every ranking, every list of gold spans and every cut-off, nDCG is between
      zero and one, because a span earns a gain only the first time it is matched. */
  lemma EvidenceNdcgIsFraction(gold: seq<Evidence.Span>, ranked: seq<Evidence.Chunk>, matched: seq<set<nat>>,
                               k: nat, g: real -> real, d: nat -> real)
    requires IsDiscount(d) && IsGain(g) && MatchLists(gold, ranked, matched)
    ensures 0.0 <= Ndcg(NoveltyGrades(matched), Repeat(3.0, Max(1, |gold|)), k, g, d) <= 1.0
  {
    MatchedBelow(gold, ranked, matched);
    forall m: nat | m <= k
      ensures Total(NoveltyGrades(matched), m, g) <= Total(Repeat(3.0, Max(1, |gold|)), m, g)
    {
      NoveltyDominated(matched, |gold|, m, g);
    }
    NoveltyGradesAreLabels(matched);
    DominatedNdcg(NoveltyGrades(matched), Repeat(3.0, Max(1, |gold|)), k, g, d);
  }

  // ---------------------------------------------------------------- first hit

  /** `recall@k`: whether one of the first `k` positions is a hit. */
  predicate HitWithin(exact: seq<bool>, k: nat) {
    exists i :: 0 <= i < |exact| && i < k && exact[i]
  }

  /** One over the rank of the first hit, or zero. */
  function ReciprocalRank(exact: seq<bool>, from: nat): real
    requires from <= |exact|
    decreases |exact| - from
  {
    if from == |exact| then 0.0
    else if exact[from] then 1.0 / (from + 1) as real
    else ReciprocalRank(exact, from + 1)
  }

  /** Two metrics of the same ranking: recall@k is one exactly when the reciprocal rank is at least
      one over `k`. */
  lemma {:induction false} RecallIffReciprocalRank(exact: seq<bool>, from: nat, k: nat)
    requires from <= |exact| && 0 < k && forall i :: 0 <= i < from ==> !exact[i]
    ensures HitWithin(exact, k) <==> ReciprocalRank(exact, from) >= 1.0 / k as real
    decreases |exact| - from
  {
    if from < |exact| {
      if exact[from] {
        Reciprocals(from + 1, k);
      } else {
        RecallIffReciprocalRank(exact, from + 1, k);
      }
    }
  }

  lemma Reciprocals(m: nat, k: nat)
    requires 0 < m && 0 < k
    ensures 1.0 / m as real >= 1.0 / k as real <==> m <= k
  {
    var x, y := m as real, k as real;
    if m <= k {
      assert 1.0 / x - 1.0 / y == (y - x) / (x * y);
    } else {
      assert 1.0 / y - 1.0 / x == (x - y) / (x * y);
    }
  }
}
