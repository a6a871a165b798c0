/** Which evidence windows a text gets, told without the ranking: every sentence that holds a term has one, it counts
    the terms that the sentence holds, and the four that are listed have the most. */
module GoldRules {
  import opened Text
  import opened Windows
  import opened Integers
  import opened Sentences
  import opened Sorting
  import opened GoldSpans

  /** In a sentence of more than 500 characters the window starts 180 characters in front of the first term, unless the
      sentence starts later; and it ends with the sentence where that has fewer than 320 characters behind. */
  lemma WindowStartsAt(start: int, end: int, centre: int)
    requires start <= centre < end && end - start > 500
    ensures var (s, e) := WindowAround(start, end, centre);
      && e == s + 500
      && (if centre - 180 <= start then s == start else if centre + 320 <= end then s == centre - 180 else e == end)
  {}

  /** The different terms that a sentence holds. */
  ghost function TermsIn(sentence: string, terms: seq<string>): set<string> {
    set t | t in terms && t != "" && exists i :: At(sentence, t, i)
  }

  lemma MatchedAreTerms(sentence: string, terms: seq<string>)
    ensures (set t | t in Matched(sentence, terms)) == TermsIn(sentence, terms)
    ensures Matched(sentence, terms) == [] <==> TermsIn(sentence, terms) == {}
  {
    var matched := Matched(sentence, terms);
    MatchedAreFound(sentence, terms);
    forall t ensures t in matched <==> t in TermsIn(sentence, terms) {
      FoundExactlyWhen(sentence, t);
    }
    assert matched != [] ==> matched[0] in matched;
  }

  lemma FoundExactlyWhen(sentence: string, t: string)
    ensures Find(sentence, t, 0) >= 0 <==> exists i :: At(sentence, t, i)
  {}

  /** A sentence has a row exactly when it holds a term, and the row counts the different terms that it holds. */
  lemma RowExactlyWhen(text: string, base: int, terms: seq<string>, w: Window)
    requires w.start < w.end <= |text|
    ensures var row, held := RowOf(text, base, terms, w), TermsIn(text[w.start..w.end], terms);
      if held == {} then row == [] else |row| == 1 && IsHit(text, base, terms, w, row[0]) && row[0].terms == |held|
  {
    var sentence := text[w.start..w.end];
    MatchedAreTerms(sentence, terms);
    RowOfIsHit(text, base, terms, w);
    var row := RowOf(text, base, terms, w);
    assert row != [] ==> row[0] in row;
  }

  /** The row of sentence `w`. */
  ghost predicate IsRowOf(text: string, base: int, terms: seq<string>, w: Window, h: Hit) {
    w.start < w.end <= |text| && IsHit(text, base, terms, w, h) && h.terms == |TermsIn(text[w.start..w.end], terms)|
  }

  /** Every sentence that holds a term is ranked, with the number of different terms it holds, and nothing else is. */
  lemma RankedExactlyWhen(text: string, base: int, terms: seq<string>, w: Window, h: Hit)
    ensures w in SpansFrom(text, 0) && w.start < w.end <= |text| && TermsIn(text[w.start..w.end], terms) != {} ==>
      exists g :: g in Ranked(text, base, terms) && IsRowOf(text, base, terms, w, g)
    ensures h in Ranked(text, base, terms) ==>
      exists v :: v in SpansFrom(text, 0) && IsRowOf(text, base, terms, v, h)
  {
    SpansAreDisjoint(text);
    SortKeepsMembers(RowsOf(text, base, terms, SpansFrom(text, 0)), Ranks);
    RowsExactlyWhen(text, base, terms, SpansFrom(text, 0), w, h);
  }

  lemma {:induction false} RowsExactlyWhen(text: string, base: int, terms: seq<string>, spans: seq<Window>, w: Window,
                                           h: Hit)
    requires forall v :: v in spans ==> v.start < v.end <= |text|
    ensures w in spans && TermsIn(text[w.start..w.end], terms) != {} ==>
      exists g :: g in RowsOf(text, base, terms, spans) && IsRowOf(text, base, terms, w, g)
    ensures h in RowsOf(text, base, terms, spans) ==> exists v :: v in spans && IsRowOf(text, base, terms, v, h)
  {
    if spans != [] {
      var init, last := spans[..|spans| - 1], spans[|spans| - 1];
      assert last in spans && forall v :: v in init ==> v in spans;
      assert spans == init + [last];
      RowsExactlyWhen(text, base, terms, init, w, h);
      RowExactlyWhen(text, base, terms, last);
      LastRow(text, base, terms, last);
    }
  }

  lemma LastRow(text: string, base: int, terms: seq<string>, last: Window)
    requires last.start < last.end <= |text|
    ensures forall h :: h in RowOf(text, base, terms, last) ==> IsRowOf(text, base, terms, last, h)
    ensures TermsIn(text[last.start..last.end], terms) != {} ==>
      exists g :: g in RowOf(text, base, terms, last) && IsRowOf(text, base, terms, last, g)
  {
    RowExactlyWhen(text, base, terms, last);
    var row := RowOf(text, base, terms, last);
    assert row != [] ==> row[0] in row;
  }

  /** The rows that are listed are four, or all of them if there are fewer; they stand in the order of their starts;
      and none that is left out has more terms, or as many and an earlier start. */
  lemma FourBestAreListed(text: string, base: int, terms: seq<string>, h: Hit)
    ensures var ranked := Ranked(text, base, terms);
      var listed := Sort(ranked[..Min(4, |ranked|)], Precedes);
      && |listed| == Min(4, |ranked|) && (forall g :: g in listed ==> g in ranked)
      && (forall i, j :: 0 <= i < j < |listed| ==> listed[i].start <= listed[j].start)
      && (h in ranked && h !in listed ==>
            |listed| == 4 && forall g :: g in listed ==>
              h.terms < g.terms || (h.terms == g.terms && g.start <= h.start))
  {
    var ranked := Ranked(text, base, terms);
    ResultsAreHits(text, base, terms);
    PrefixIsBest(ranked, Min(4, |ranked|), h);
    ListedInOrder(ranked[..Min(4, |ranked|)]);
  }

  lemma ListedInOrder(best: seq<Hit>)
    ensures var listed := Sort(best, Precedes);
      && |listed| == |best| && (forall g :: g in listed <==> g in best)
      && forall i, j :: 0 <= i < j < |listed| ==> listed[i].start <= listed[j].start
  {
    PrecedesIsTotal();
    SortSorts(best, Precedes);
    SortKeepsMembers(best, Precedes);
    var listed := Sort(best, Precedes);
    forall i, j | 0 <= i < j < |listed| ensures listed[i].start <= listed[j].start {
      assert Precedes(listed[i], listed[j]);
    }
  }

  lemma PrecedesIsTotal()
    ensures TotalOrder(Precedes)
  {}

  lemma PrefixIsBest(ranked: seq<Hit>, n: nat, h: Hit)
    requires SortedBy(Ranks, ranked) && n == Min(4, |ranked|)
    ensures forall g :: g in ranked[..n] ==> g in ranked
    ensures h in ranked && h !in ranked[..n] ==>
      n == 4 && forall g :: g in ranked[..n] ==> h.terms < g.terms || (h.terms == g.terms && g.start <= h.start)
  {
    assert forall i :: 0 <= i < n ==> ranked[i] in ranked[..n];
    if h in ranked && h !in ranked[..n] {
      var k :| 0 <= k < |ranked| && ranked[k] == h;
      forall g | g in ranked[..n] ensures h.terms < g.terms || (h.terms == g.terms && g.start <= h.start) {
        var i :| 0 <= i < n && ranked[i] == g;
        assert Ranks(ranked[i], ranked[k]);
      }
    }
  }
}
