/** What the list-wise reranker makes of a model's answer, told without its dictionary: which candidates are taken, at
    which rank, and in which order the others follow. */
module RerankRules {
  import opened Sorting
  import opened Reals
  import opened Fusion

  // ---------------------------------------------------------------- what is left

  lemma {:induction false} RemoveIs(ids: seq<nat>, id: nat)
    requires Distinct(ids)
    ensures Distinct(Remove(ids, id)) && forall x :: x in Remove(ids, id) <==> x in ids && x != id
  {
    if ids != [] {
      var rest := ids[1..];
      assert ids == [ids[0]] + rest;
      assert ids[0] !in rest;
      RemoveIs(rest, id);
    }
  }

  /** The candidates are left over that the answer does not name. */
  lemma {:induction false} LeftAre(candidates: seq<nat>, answer: seq<nat>, n: nat)
    requires Distinct(candidates) && n <= |answer|
    ensures Distinct(Left(candidates, answer, n))
    ensures forall x :: x in Left(candidates, answer, n) <==> x in candidates && x !in answer[..n]
  {
    if n > 0 {
      LeftAre(candidates, answer, n - 1);
      RemoveIs(Left(candidates, answer, n - 1), answer[n - 1]);
      assert answer[..n] == answer[..n - 1] + [answer[n - 1]];
    }
  }

  /** Where the ids of `part` stand in `whole`, from left to right. */
  ghost predicate InOrder(part: seq<nat>, whole: seq<nat>) {
    && (forall x :: x in part ==> x in whole)
    && forall i, j :: 0 <= i < j < |part| ==> Before(whole, part[i], part[j])
  }

  /** `x` stands before `y`. */
  ghost predicate Before(ids: seq<nat>, x: nat, y: nat) {
    exists i, j :: 0 <= i < j < |ids| && ids[i] == x && ids[j] == y
  }

  /** They keep the order of the candidates. */
  lemma {:induction false} LeftInOrder(candidates: seq<nat>, answer: seq<nat>, n: nat)
    requires Distinct(candidates) && n <= |answer|
    ensures InOrder(Left(candidates, answer, n), candidates)
  {
    if n == 0 {
      OwnOrder(candidates);
    } else {
      LeftInOrder(candidates, answer, n - 1);
      LeftAre(candidates, answer, n - 1);
      RemoveInOrder(Left(candidates, answer, n - 1), answer[n - 1]);
      OrderThrough(Left(candidates, answer, n), Left(candidates, answer, n - 1), candidates);
    }
  }

  lemma OwnOrder(ids: seq<nat>)
    ensures InOrder(ids, ids)
  {
    forall i, j | 0 <= i < j < |ids| ensures Before(ids, ids[i], ids[j]) {}
  }

  lemma {:induction false} RemoveInOrder(ids: seq<nat>, id: nat)
    ensures InOrder(Remove(ids, id), ids)
  {
    if ids != [] {
      var rest, left := ids[1..], Remove(ids, id);
      OwnOrder(rest);
      RemoveInOrder(rest, id);
      forall i, j | 0 <= i < j < |left| ensures Before(ids, left[i], left[j]) {
        if ids[0] != id && i == 0 {
          assert left[j] == Remove(rest, id)[j - 1] && left[j] in rest;
          var k :| 0 <= k < |rest| && rest[k] == left[j];
          assert ids[k + 1] == left[j];
        } else if ids[0] != id {
          assert Before(rest, left[i], left[j]);
          BeforeBehind(ids, left[i], left[j]);
        } else {
          assert Before(rest, left[i], left[j]);
          BeforeBehind(ids, left[i], left[j]);
        }
      }
    }
  }

  lemma BeforeBehind(ids: seq<nat>, x: nat, y: nat)
    requires ids != [] && Before(ids[1..], x, y)
    ensures Before(ids, x, y)
  {
    var i, j :| 0 <= i < j < |ids[1..]| && ids[1..][i] == x && ids[1..][j] == y;
    assert ids[i + 1] == x && ids[j + 1] == y;
  }

  lemma OrderThrough(a: seq<nat>, b: seq<nat>, c: seq<nat>)
    requires InOrder(a, b) && InOrder(b, c)
    ensures InOrder(a, c)
  {
    forall i, j | 0 <= i < j < |a| ensures Before(c, a[i], a[j]) {
      assert Before(b, a[i], a[j]);
      var k, l :| 0 <= k < l < |b| && b[k] == a[i] && b[l] == a[j];
      assert Before(c, b[k], b[l]);
    }
  }

  // ---------------------------------------------------------------- what is taken

  /** The answer names candidate `id` at rank `rank`, counted from one, and at no earlier one. */
  predicate NamedAt(candidates: seq<nat>, answer: seq<nat>, id: nat, rank: nat) {
    && 1 <= rank <= |answer| && answer[rank - 1] == id && id in candidates
    && forall j :: 0 <= j < rank - 1 ==> answer[j] != id
  }

  /** The row of a candidate that is named first at `rank`. */
  predicate IsTaken(candidates: seq<nat>, answer: seq<nat>, e: Entry, rank: nat) {
    NamedAt(candidates, answer, e.id, rank) && IsReciprocal(e.score, rank)
  }

  predicate IsReciprocal(score: real, rank: nat) { score * rank as real == 1.0 }

  /** Exactly the candidates that the answer names are taken, each once, scored by the reciprocal of the rank at which
      it is first named, and in the order of these ranks. */
  lemma {:induction false} TakenAre(candidates: seq<nat>, answer: seq<nat>, n: nat, e: Entry)
    requires Distinct(candidates) && n <= |answer|
    ensures e in Taken(candidates, answer, n) <==> exists rank: nat :: rank <= n && IsTaken(candidates, answer, e, rank)
    ensures Falling(Taken(candidates, answer, n))
  {
    if n > 0 {
      TakenAre(candidates, answer, n - 1, e);
      TakenNext(candidates, answer, n, e);
      TakenFall(candidates, answer, n);
    }
  }

  lemma TakenNext(candidates: seq<nat>, answer: seq<nat>, n: nat, e: Entry)
    requires Distinct(candidates) && 0 < n <= |answer|
    requires e in Taken(candidates, answer, n - 1) <==>
      exists rank: nat :: rank <= n - 1 && IsTaken(candidates, answer, e, rank)
    ensures e in Taken(candidates, answer, n) <==> exists rank: nat :: rank <= n && IsTaken(candidates, answer, e, rank)
  {
    LeftAre(candidates, answer, n - 1);
    var last := Entry(answer[n - 1], 1.0 / n as real);
    NamedLast(candidates, answer, n);
    OnlyScore(e.score, n);
    assert IsTaken(candidates, answer, e, n) <==> answer[n - 1] in Left(candidates, answer, n - 1) && e == last;
  }

  lemma NamedLast(candidates: seq<nat>, answer: seq<nat>, n: nat)
    requires Distinct(candidates) && 0 < n <= |answer|
    ensures answer[n - 1] in Left(candidates, answer, n - 1) <==> NamedAt(candidates, answer, answer[n - 1], n)
  {
    LeftAre(candidates, answer, n - 1);
    assert forall j :: 0 <= j < n - 1 ==> answer[..n - 1][j] == answer[j];
  }

  /** The only number that `n` times is one. */
  lemma OnlyScore(x: real, n: nat)
    requires n > 0
    ensures IsReciprocal(x, n) <==> x == 1.0 / n as real
  {
    Quotient(1.0, n as real);
    if x < 1.0 / n as real {
      MulStrict(x, 1.0 / n as real, n as real);
    } else if 1.0 / n as real < x {
      MulStrict(1.0 / n as real, x, n as real);
    }
  }

  ghost predicate Falling(rows: seq<Entry>) {
    forall i, j :: 0 <= i < j < |rows| ==> rows[i].score > rows[j].score
  }

  lemma FallsOn(rows: seq<Entry>, last: Entry)
    requires Falling(rows) && forall e :: e in rows ==> e.score > last.score
    ensures Falling(rows + [last])
  {
    forall i, j | 0 <= i < j < |rows + [last]| ensures (rows + [last])[i].score > (rows + [last])[j].score {
      assert (rows + [last])[i] == rows[i] && rows[i] in rows;
    }
  }

  lemma TakenFall(candidates: seq<nat>, answer: seq<nat>, n: nat)
    requires 0 < n <= |answer| && Falling(Taken(candidates, answer, n - 1))
    ensures Falling(Taken(candidates, answer, n))
  {
    var before, last := Taken(candidates, answer, n - 1), Entry(answer[n - 1], 1.0 / n as real);
    TakenAbove(candidates, answer, n - 1);
    Falls(n - 1);
    FallsOn(before, last);
    assert before + [] == before;
  }

  /** Every score so far is at least the reciprocal of the last rank. */
  lemma {:induction false} TakenAbove(candidates: seq<nat>, answer: seq<nat>, n: nat)
    requires n <= |answer|
    ensures forall e :: e in Taken(candidates, answer, n) ==> n > 0 && e.score >= 1.0 / n as real
  {
    if n > 0 {
      TakenAbove(candidates, answer, n - 1);
      if n > 1 {
        Falls(n - 1);
      }
    }
  }

  lemma Falls(n: nat)
    ensures n > 0 ==> 1.0 / n as real > 1.0 / (n + 1) as real
  {
    if n > 0 {
      var x, y := n as real, (n + 1) as real;
      assert 1.0 / x - 1.0 / y == (y - x) / (x * y);
    }
  }

  // ---------------------------------------------------------------- the rest

  /** The others follow with the reciprocals of their places in the whole list. */
  lemma {:induction false} RestIs(left: seq<nat>, offset: nat, n: nat, i: nat)
    requires i < n <= |left|
    ensures |Remainder(left, offset, n)| == n
    ensures var e := Remainder(left, offset, n)[i]; e.id == left[i] && IsReciprocal(e.score, offset + i + 1)
  {
    if n > 1 {
      RestIs(left, offset, n - 1, if i < n - 1 then i else 0);
    }
    if i == n - 1 {
      Quotient(1.0, (offset + n) as real);
    }
  }
}
