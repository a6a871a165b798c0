/** Retrieval for a resume is confined to the chunks of that resume: how the scopes are built, that fusion
    and reranking stay inside, and what follows for the winner of a phase. */
module Scoping {
  import opened Decimal
  import opened Reals
  import opened Sorting
  import Fusion
  import Selection

  // ---------------------------------------------------------------- chunk identifiers

  /** `f"{index:03d}"` */
  function Pad3(index: nat): string { Padded(index, 3) }

  /** `f"{doc_id}#{index:03d}"` */
  function ChunkId(doc: string, index: nat): string {
    doc + ("#" + Pad3(index))
  }

  lemma PadIsDigits(index: nat)
    ensures AllDigits(Pad3(index))
  {
    ParseDec(index);
    ZerosAreDigits(if |Dec(index)| < 3 then 3 - |Dec(index)| else 0);
  }

  /** An identifier names its document and the number of the chunk, whatever characters the names of documents have. */
  lemma ChunkIdNamesDoc(d: string, i: nat, e: string, j: nat)
    requires ChunkId(d, i) == ChunkId(e, j)
    ensures d == e && i == j
  {
    PadIsDigits(i);
    PadIsDigits(j);
    PaddedFacts(i, 3);
    PaddedFacts(j, 3);
    SameLead(d, Pad3(i), e, Pad3(j));
  }

  /** The number stands in three digits, if it has no more, behind the last hash. */
  lemma ChunkIdIs(d: string, i: nat)
    ensures exists digits ::
      && ChunkId(d, i) == d + "#" + digits && AllDigits(digits) && Parse(digits) == i
      && |digits| >= 3 && (|digits| == 3 <==> i < 1000)
  {
    PadIsDigits(i);
    PaddedFacts(i, 3);
    assert Pow10(3) == 1000;
    assert ChunkId(d, i) == d + "#" + Pad3(i);
  }

  lemma SameLead(d: string, x: string, e: string, y: string)
    requires d + ("#" + x) == e + ("#" + y) && AllDigits(x) && AllDigits(y)
    ensures d == e && x == y
  {
    var s := d + ("#" + x);
    assert s[|d|] == '#' && s[|e|] == '#';
    assert forall k :: |d| < k < |s| ==> s[k] == x[k - |d| - 1];
    assert forall k :: |e| < k < |s| ==> s[k] == y[k - |e| - 1];
    assert |d| == |e|;
    assert s[..|d|] == d && s[..|e|] == e;
    assert s[|d| + 1..] == x && s[|e| + 1..] == y;
  }

  // ---------------------------------------------------------------- the scopes of a stage

  /** A resume and how many chunks it was cut into. */
  datatype Case = Case(resumeId: string, count: nat)

  /** The documents of the chunks by identifier, and the identifiers of each scope. */
  datatype Corpus = Corpus(docOf: map<string, string>, scopes: map<string, seq<string>>)

  /** A chunk belongs to the scope of its document only. */
  ghost predicate Isolated(c: Corpus) {
    && (forall id, d, i: nat :: id in c.docOf && id == ChunkId(d, i) ==> c.docOf[id] == d)
    && (forall name, k :: name in c.scopes && 0 <= k < |c.scopes[name]| ==> IsOwn(c, name, c.scopes[name][k]))
  }

  ghost predicate IsOwn(c: Corpus, name: string, id: string) {
    id in c.docOf && c.docOf[id] == name && exists i: nat :: id == ChunkId(name, i)
  }

  function ScopeOf(c: Corpus, name: string): seq<string> {
    if name in c.scopes then c.scopes[name] else []
  }

  /** Adding a chunk to the corpus and to its scope. */
  function AddChunk(c: Corpus, doc: string, index: nat): Corpus {
    var id := ChunkId(doc, index);
    Corpus(c.docOf[id := doc], c.scopes[doc := ScopeOf(c, doc) + [id]])
  }

  lemma AddChunkIsolated(c: Corpus, doc: string, index: nat)
    requires Isolated(c)
    ensures Isolated(AddChunk(c, doc, index))
  {
    var id, n := ChunkId(doc, index), AddChunk(c, doc, index);
    forall x, d, i: nat | x in n.docOf && x == ChunkId(d, i) ensures n.docOf[x] == d {
      if x == id {
        ChunkIdNamesDoc(d, i, doc, index);
      }
    }
    forall name, k | name in n.scopes && 0 <= k < |n.scopes[name]| ensures IsOwn(n, name, n.scopes[name][k]) {
      OwnStays(c, doc, index, name, k);
    }
  }

  lemma OwnStays(c: Corpus, doc: string, index: nat, name: string, k: nat)
    requires Isolated(c) && name in AddChunk(c, doc, index).scopes && k < |AddChunk(c, doc, index).scopes[name]|
    ensures IsOwn(AddChunk(c, doc, index), name, AddChunk(c, doc, index).scopes[name][k])
  {
    var id, n := ChunkId(doc, index), AddChunk(c, doc, index);
    var x := n.scopes[name][k];
    if name != doc || k < |ScopeOf(c, doc)| {
      assert IsOwn(c, name, x);
      var i: nat :| x == ChunkId(name, i);
      if x == id {
        ChunkIdNamesDoc(name, i, doc, index);
      }
    } else {
      assert x == id;
    }
  }

  /** The identifiers of the first `count` chunks of a document. */
  function Ids(doc: string, count: nat): seq<string> {
    if count == 0 then [] else Ids(doc, count - 1) + [ChunkId(doc, count - 1)]
  }

  /** The identifiers of the chunks of a document, case by case. */
  function IdsOf(cases: seq<Case>, doc: string): seq<string> {
    if cases == [] then []
    else
      var last := cases[|cases| - 1];
      IdsOf(cases[..|cases| - 1], doc) + if last.resumeId == doc then Ids(doc, last.count) else []
  }

  lemma {:induction false} IdsHold(doc: string, count: nat, index: nat)
    requires index < count
    ensures ChunkId(doc, index) in Ids(doc, count)
  {
    if index < count - 1 {
      IdsHold(doc, count - 1, index);
    }
  }

  /** The identifier of every chunk is listed for its document. */
  lemma {:induction false} EveryChunkIsListed(cases: seq<Case>, i: nat, index: nat)
    requires i < |cases| && index < cases[i].count
    ensures ChunkId(cases[i].resumeId, index) in IdsOf(cases, cases[i].resumeId)
  {
    if i == |cases| - 1 {
      IdsHold(cases[i].resumeId, cases[i].count, index);
    } else {
      EveryChunkIsListed(cases[..|cases| - 1], i, index);
    }
  }

  /** A chunk is in the scope of its document, and its document is known. */
  ghost predicate IsHeld(c: Corpus, doc: string, index: nat) {
    var id := ChunkId(doc, index);
    doc in c.scopes && id in c.scopes[doc] && id in c.docOf && c.docOf[id] == doc
  }

  lemma ListedIsHeld(c: Corpus, doc: string, index: nat)
    requires Isolated(c) && ChunkId(doc, index) in ScopeOf(c, doc)
    ensures IsHeld(c, doc, index)
  {
    var k :| 0 <= k < |c.scopes[doc]| && c.scopes[doc][k] == ChunkId(doc, index);
    assert IsOwn(c, doc, c.scopes[doc][k]);
  }

  /** The scopes list the chunks of these cases, in order and nothing else. */
  ghost predicate Lists(c: Corpus, cases: seq<Case>) {
    forall doc :: ScopeOf(c, doc) == IdsOf(cases, doc)
  }

  /** Adding the next chunk of the last case. */
  lemma ListsNext(c: Corpus, cases: seq<Case>, doc: string, index: nat)
    requires Lists(c, cases + [Case(doc, index)])
    ensures Lists(AddChunk(c, doc, index), cases + [Case(doc, index + 1)])
  {
    var n := AddChunk(c, doc, index);
    forall name ensures ScopeOf(n, name) == IdsOf(cases + [Case(doc, index + 1)], name) {
      assert ScopeOf(c, name) == IdsOf(cases + [Case(doc, index)], name);
      IdsOfNext(cases, Case(doc, index), name);
      IdsOfNext(cases, Case(doc, index + 1), name);
    }
  }

  lemma IdsOfNext(cases: seq<Case>, last: Case, doc: string)
    ensures IdsOf(cases + [last], doc) == IdsOf(cases, doc) + if last.resumeId == doc then Ids(doc, last.count) else []
  {
    assert (cases + [last])[..|cases|] == cases;
  }

  lemma ListsNothing(c: Corpus, cases: seq<Case>, doc: string)
    requires Lists(c, cases)
    ensures Lists(c, cases + [Case(doc, 0)])
  {
    forall name ensures ScopeOf(c, name) == IdsOf(cases + [Case(doc, 0)], name) {
      IdsOfNext(cases, Case(doc, 0), name);
    }
  }

  lemma ListedAreHeld(c: Corpus, cases: seq<Case>)
    requires Isolated(c) && Lists(c, cases)
    ensures forall i, index: nat :: 0 <= i < |cases| && index < cases[i].count ==> IsHeld(c, cases[i].resumeId, index)
  {
    forall i, index: nat | 0 <= i < |cases| && index < cases[i].count ensures IsHeld(c, cases[i].resumeId, index) {
      EveryChunkIsListed(cases, i, index);
      ListedIsHeld(c, cases[i].resumeId, index);
    }
  }

  /** The loops over the cases and their chunks: no chunk is in a foreign scope, and every chunk is in its own. */
  method BuildScopes(cases: seq<Case>) returns (c: Corpus)
    ensures Isolated(c) && Lists(c, cases)
    ensures forall i, index: nat :: 0 <= i < |cases| && index < cases[i].count ==> IsHeld(c, cases[i].resumeId, index)
  {
    c := Corpus(map[], map[]);
    for n := 0 to |cases|
      invariant Isolated(c) && Lists(c, cases[..n])
    {
      var own := cases[n].resumeId;
      ListsNothing(c, cases[..n], own);
      for index := 0 to cases[n].count
        invariant Isolated(c) && Lists(c, cases[..n] + [Case(own, index)])
      {
        AddChunkIsolated(c, own, index);
        ListsNext(c, cases[..n], own, index);
        c := AddChunk(c, own, index);
      }
      assert cases[..n + 1] == cases[..n] + [Case(own, cases[n].count)];
    }
    assert cases[..|cases|] == cases;
    ListedAreHeld(c, cases);
  }

  // ---------------------------------------------------------------- ranking inside a scope

  /** What is fused from channels inside a scope lies in the scope. */
  lemma FusedStaysInside(cs: seq<Fusion.Channel>, k: nat, inside: nat -> bool)
    requires forall i, id :: 0 <= i < |cs| && id in cs[i].ranked ==> inside(id)
    ensures forall e :: e in Fusion.Fused(cs, k) ==> inside(e.id)
  {
    Fusion.FusedFacts(cs, k);
    forall e | e in Fusion.Fused(cs, k) ensures inside(e.id) {
      assert Fusion.Ranks(cs, e.id);
    }
  }

  /** And so does what is reranked, whatever the model answers. */
  lemma RerankStaysInside(candidates: seq<nat>, answer: seq<nat>, inside: nat -> bool)
    requires Distinct(candidates) && forall id :: id in candidates ==> inside(id)
    ensures var taken, left := Fusion.Taken(candidates, answer, |answer|), Fusion.Left(candidates, answer, |answer|);
      forall id :: id in Fusion.IdsOf(taken + Fusion.Remainder(left, |taken|, |left|)) ==> inside(id)
  {
    var taken, left := Fusion.Taken(candidates, answer, |answer|), Fusion.Left(candidates, answer, |answer|);
    var ids := Fusion.IdsOf(taken + Fusion.Remainder(left, |taken|, |left|));
    Fusion.RerankIsPermutation(candidates, answer);
    forall id | id in ids ensures inside(id) {
      assert id in multiset(ids);
      assert id in multiset(candidates);
    }
  }

  // ---------------------------------------------------------------- leakage

  /** A query and the documents of the chunks that were ranked for it. */
  datatype Ranked = Ranked(resumeId: string, docs: seq<string>)

  /** `candidateScopeLeakage` of a query. */
  function Leakage(q: Ranked): real {
    if exists i :: 0 <= i < |q.docs| && q.docs[i] != q.resumeId then 1.0 else 0.0
  }

  function SumOfLeakage(qs: seq<Ranked>): real {
    if qs == [] then 0.0 else SumOfLeakage(qs[..|qs| - 1]) + Leakage(qs[|qs| - 1])
  }

  function MeanLeakage(qs: seq<Ranked>): real {
    if qs == [] then 0.0 else SumOfLeakage(qs) / |qs| as real
  }

  /** A chunk of another document was ranked for the query. */
  predicate Leaks(q: Ranked) { exists doc :: doc in q.docs && doc != q.resumeId }

  function Leaking(qs: seq<Ranked>): set<nat> {
    set i: nat | i < |qs| && Leaks(qs[i])
  }

  /** The mean leakage is the share of the queries for which a chunk of another document was ranked. */
  lemma LeakageIsShare(qs: seq<Ranked>)
    requires qs != []
    ensures IsShare(MeanLeakage(qs), |Leaking(qs)|, |qs|)
  {
    LeakageCounts(qs);
    Quotient(SumOfLeakage(qs), |qs| as real);
  }

  predicate IsShare(share: real, part: nat, whole: nat) { share * whole as real == part as real }

  lemma {:induction false} LeakageCounts(qs: seq<Ranked>)
    ensures SumOfLeakage(qs) == |Leaking(qs)| as real
  {
    if qs == [] {
      assert Leaking(qs) == {};
    } else {
      var n := |qs| - 1;
      var init, q := qs[..n], qs[n];
      LeakageCounts(init);
      ForeignChunk(q);
      LeakingInit(qs, n);
    }
  }

  lemma LeakingInit(qs: seq<Ranked>, n: nat)
    requires n == |qs| - 1
    ensures |Leaking(qs)| == |Leaking(qs[..n])| + if Leaks(qs[n]) then 1 else 0
  {
    var init := qs[..n];
    assert forall i: nat :: i < n ==> init[i] == qs[i];
    assert Leaking(qs) == Leaking(init) + if Leaks(qs[n]) then {n} else {};
    assert n !in Leaking(init);
  }

  lemma ForeignChunk(q: Ranked)
    ensures Leakage(q) == if Leaks(q) then 1.0 else 0.0
  {
    if doc :| doc in q.docs && doc != q.resumeId {
      var i :| 0 <= i < |q.docs| && q.docs[i] == doc;
    }
    assert forall i :: 0 <= i < |q.docs| ==> q.docs[i] in q.docs;
  }

  /** The documents of the ranked chunks come from the scope of the query. */
  ghost predicate FromScope(c: Corpus, q: Ranked) {
    forall i :: 0 <= i < |q.docs| ==> HasChunk(c, q.resumeId, q.docs[i])
  }

  /** Some chunk of the scope is one of document `doc`. */
  ghost predicate HasChunk(c: Corpus, name: string, doc: string) {
    exists id :: id in ScopeOf(c, name) && id in c.docOf && c.docOf[id] == doc
  }

  /** The ids that fusion and reranking leave. */
  function FinalIds(cs: seq<Fusion.Channel>, k: nat, limit: nat, answer: seq<nat>): seq<nat> {
    var fused := Fusion.Fused(cs, k);
    var candidates := Fusion.IdsOf(fused[..if limit < |fused| then limit else |fused|]);
    var taken, left := Fusion.Taken(candidates, answer, |answer|), Fusion.Left(candidates, answer, |answer|);
    Fusion.IdsOf(taken + Fusion.Remainder(left, |taken|, |left|))
  }

  lemma {:induction false} IdsAt(rows: seq<Fusion.Entry>, i: nat)
    requires i < |rows|
    ensures |Fusion.IdsOf(rows)| == |rows| && Fusion.IdsOf(rows)[i] == rows[i].id
  {
    var n := |rows| - 1;
    if n > 0 {
      IdsAt(rows[..n], if i < n then i else 0);
    }
  }

  /** Fused ids are listed once, since an id has one score. */
  lemma FusedIdsDistinct(cs: seq<Fusion.Channel>, k: nat, n: nat)
    requires n <= |Fusion.Fused(cs, k)|
    ensures Distinct(Fusion.IdsOf(Fusion.Fused(cs, k)[..n]))
    ensures forall id :: id in Fusion.IdsOf(Fusion.Fused(cs, k)[..n]) ==>
      exists e :: e in Fusion.Fused(cs, k) && e.id == id
  {
    var fused := Fusion.Fused(cs, k);
    var ids := Fusion.IdsOf(fused[..n]);
    Fusion.FusedFacts(cs, k);
    if n > 0 {
      IdsAt(fused[..n], 0);
    }
    forall i, j | 0 <= i < j < |ids| ensures ids[i] != ids[j] {
      IdsAt(fused[..n], i);
      IdsAt(fused[..n], j);
      assert fused[i] in fused && fused[j] in fused;
    }
    forall id | id in ids ensures exists e :: e in fused && e.id == id {
      var i :| 0 <= i < |ids| && ids[i] == id;
      IdsAt(fused[..n], i);
      assert fused[i] in fused;
    }
  }

  lemma FinalIdsStayInside(cs: seq<Fusion.Channel>, k: nat, limit: nat, answer: seq<nat>, inside: nat -> bool)
    requires forall i, id :: 0 <= i < |cs| && id in cs[i].ranked ==> inside(id)
    ensures forall id :: id in FinalIds(cs, k, limit, answer) ==> inside(id)
  {
    var fused := Fusion.Fused(cs, k);
    var n := if limit < |fused| then limit else |fused|;
    FusedStaysInside(cs, k, inside);
    FusedIdsDistinct(cs, k, n);
    RerankStaysInside(Fusion.IdsOf(fused[..n]), answer, inside);
  }

  /** A query whose channels rank chunks of its scope only is answered from its scope, for every fusion and
      every answer of the reranker. */
  lemma AnsweredFromScope(c: Corpus, q: Ranked, idOf: nat -> string, cs: seq<Fusion.Channel>, k: nat, limit: nat,
                          answer: seq<nat>)
    requires Isolated(c)
    requires forall i, id :: 0 <= i < |cs| && id in cs[i].ranked ==> idOf(id) in ScopeOf(c, q.resumeId)
    requires var ids := FinalIds(cs, k, limit, answer);
      |q.docs| == |ids| && forall i :: 0 <= i < |ids| ==> idOf(ids[i]) in c.docOf && q.docs[i] == c.docOf[idOf(ids[i])]
    ensures FromScope(c, q)
  {
    var ids := FinalIds(cs, k, limit, answer);
    FinalIdsStayInside(cs, k, limit, answer, (id: nat) => idOf(id) in ScopeOf(c, q.resumeId));
    forall i | 0 <= i < |q.docs| ensures HasChunk(c, q.resumeId, q.docs[i]) {
      assert ids[i] in ids;
      assert idOf(ids[i]) in ScopeOf(c, q.resumeId);
    }
  }

  lemma ScopedQueryDoesNotLeak(c: Corpus, q: Ranked)
    requires Isolated(c) && FromScope(c, q)
    ensures Leakage(q) == 0.0
  {
    forall i | 0 <= i < |q.docs| ensures q.docs[i] == q.resumeId {
      assert HasChunk(c, q.resumeId, q.docs[i]);
      var id :| id in ScopeOf(c, q.resumeId) && id in c.docOf && c.docOf[id] == q.docs[i];
      var k :| 0 <= k < |c.scopes[q.resumeId]| && c.scopes[q.resumeId][k] == id;
      assert IsOwn(c, q.resumeId, c.scopes[q.resumeId][k]);
    }
  }

  /** Over a corpus that is built from the cases, no evaluation in which every query ranks chunks of its own
      scope leaks. */
  lemma {:induction false} ScopedRetrievalDoesNotLeak(c: Corpus, qs: seq<Ranked>)
    requires Isolated(c) && forall q :: q in qs ==> FromScope(c, q)
    ensures SumOfLeakage(qs) == 0.0 && MeanLeakage(qs) == 0.0
  {
    if qs != [] {
      ScopedRetrievalDoesNotLeak(c, qs[..|qs| - 1]);
      assert qs[|qs| - 1] in qs;
      ScopedQueryDoesNotLeak(c, qs[|qs| - 1]);
      DivBounds(0.0, |qs| as real);
    }
  }

  /** So the winner of a phase always succeeded. */
  lemma ScopedWinnerSucceeds(c: Corpus, qs: seq<Ranked>, p: Selection.Phase, results: seq<Selection.Trial>,
                             baselineName: nat, best: Selection.Trial, w: Selection.Trial, stage: Selection.Stage,
                             m: Selection.Metrics)
    requires Isolated(c) && forall q :: q in qs ==> FromScope(c, q)
    requires Selection.DistinctNames(results) && Selection.IsTop(results, best)
    requires Selection.WinnerOf(p, results, baselineName, best, w)
    requires best.quality == Selection.Quality(stage, m) && Selection.AreMetrics(m) && m.leakage == MeanLeakage(qs)
    ensures w.ok
  {
    ScopedRetrievalDoesNotLeak(c, qs);
    Selection.WinnerSucceeds(p, results, baselineName, best, w, stage, m);
  }
}
