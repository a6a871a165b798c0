/** Reciprocal-rank fusion of ranked channels, per chunk and per document, and the list-wise reranker.
    Identifiers are natural numbers ordered like the strings they stand for. */
module Fusion {
  import opened Sorting
  import opened Reals
  import opened Integers
  import opened Deduplication

  datatype Channel = Channel(weight: real, ranked: seq<nat>)

  datatype Entry = Entry(id: nat, score: real)

  /** `key=lambda row: (-score, id)` */
  predicate Before(a: Entry, b: Entry) {
    a.score > b.score || (a.score == b.score && a.id <= b.id)
  }

  /** The dictionary of scores, with its keys in insertion order. */
  datatype Acc = Acc(order: seq<nat>, scores: map<nat, real>)

  function Share(weight: real, k: nat, position: nat): real {
    weight / (k + position + 1) as real
  }

  /** `scores[id] += amount` on a default dictionary. */
  function Add(acc: Acc, id: nat, amount: real): Acc {
    if id in acc.scores then acc.(scores := acc.scores[id := acc.scores[id] + amount])
    else Acc(acc.order + [id], acc.scores[id := 0.0 + amount])
  }

  /** The first `n` ranks of a channel added to the scores. */
  function AddRanks(acc: Acc, c: Channel, k: nat, n: nat): Acc
    requires n <= |c.ranked|
  {
    if n == 0 then acc else Add(AddRanks(acc, c, k, n - 1), c.ranked[n - 1], Share(c.weight, k, n - 1))
  }

  function AddChannels(cs: seq<Channel>, k: nat): Acc {
    if cs == [] then Acc([], map[])
    else
      var c := cs[|cs| - 1];
      AddRanks(AddChannels(cs[..|cs| - 1], k), c, k, |c.ranked|)
  }

  function Entries(acc: Acc, n: nat): seq<Entry>
    requires n <= |acc.order|
  {
    if n == 0 then []
    else
      var id := acc.order[n - 1];
      Entries(acc, n - 1) + [Entry(id, if id in acc.scores then acc.scores[id] else 0.0)]
  }

  /** All scored rows, best first. */
  function Fused(cs: seq<Channel>, k: nat): seq<Entry> {
    var acc := AddChannels(cs, k);
    Sort(Entries(acc, |acc.order|), Before)
  }

  /** `rrf_fuse` */
  method RrfFuse(cs: seq<Channel>, k: nat, limit: nat) returns (rows: seq<Entry>)
    ensures var fused := Fused(cs, k); rows == fused[..Min(limit, |fused|)]
  {
    var acc := Acc([], map[]);
    for i := 0 to |cs|
      invariant acc == AddChannels(cs[..i], k)
    {
      ghost var before := acc;
      for n := 0 to |cs[i].ranked|
        invariant acc == AddRanks(before, cs[i], k, n)
      {
        acc := Add(acc, cs[i].ranked[n], Share(cs[i].weight, k, n));
      }
      assert cs[..i + 1][..i] == cs[..i];
    }
    assert cs[..|cs|] == cs;
    rows := Sort(Entries(acc, |acc.order|), Before);
    rows := rows[..Min(limit, |rows|)];
  }

  // ---------------------------------------------------------------- closed form of the scores

  /** What the first `n` ranks of a channel give to `id`. */
  function Given(c: Channel, k: nat, id: nat, n: nat): real
    requires n <= |c.ranked|
  {
    if n == 0 then 0.0
    else Given(c, k, id, n - 1) + if c.ranked[n - 1] == id then Share(c.weight, k, n - 1) else 0.0
  }

  function Score(cs: seq<Channel>, k: nat, id: nat): real {
    if cs == [] then 0.0
    else Score(cs[..|cs| - 1], k, id) + Given(cs[|cs| - 1], k, id, |cs[|cs| - 1].ranked|)
  }

  ghost predicate Ranks(cs: seq<Channel>, id: nat) {
    exists i :: 0 <= i < |cs| && id in cs[i].ranked
  }

  /** The insertion order lists the keys of the dictionary, each once. */
  ghost predicate Consistent(acc: Acc) {
    Distinct(acc.order) && forall id :: id in acc.order <==> id in acc.scores
  }

  function ScoreIn(acc: Acc, id: nat): real {
    if id in acc.scores then acc.scores[id] else 0.0
  }

  lemma {:induction false} AddRanksFacts(acc: Acc, c: Channel, k: nat, n: nat, id: nat)
    requires Consistent(acc) && n <= |c.ranked|
    ensures Consistent(AddRanks(acc, c, k, n))
    ensures id in AddRanks(acc, c, k, n).scores <==> id in acc.scores || id in c.ranked[..n]
    ensures ScoreIn(AddRanks(acc, c, k, n), id) == ScoreIn(acc, id) + Given(c, k, id, n)
  {
    if n > 0 {
      AddRanksFacts(acc, c, k, n - 1, id);
      assert c.ranked[..n] == c.ranked[..n - 1] + [c.ranked[n - 1]];
    }
  }

  /** The accumulated dictionary holds the ids that some channel ranks, each with the sum of its shares
      over all channels. */
  lemma {:induction false} AddChannelsFacts(cs: seq<Channel>, k: nat, id: nat)
    ensures Consistent(AddChannels(cs, k))
    ensures id in AddChannels(cs, k).scores <==> Ranks(cs, id)
    ensures ScoreIn(AddChannels(cs, k), id) == Score(cs, k, id)
  {
    if cs != [] {
      var init, c := cs[..|cs| - 1], cs[|cs| - 1];
      AddChannelsFacts(init, k, id);
      AddRanksFacts(AddChannels(init, k), c, k, |c.ranked|, id);
      assert c.ranked[..|c.ranked|] == c.ranked;
      if Ranks(init, id) {
        var i :| 0 <= i < |init| && id in init[i].ranked;
        assert cs[i] == init[i];
      }
    }
  }

  lemma {:induction false} EntriesAre(acc: Acc, n: nat)
    requires n <= |acc.order|
    ensures |Entries(acc, n)| == n
    ensures forall i :: 0 <= i < n ==> Entries(acc, n)[i] == Entry(acc.order[i], ScoreIn(acc, acc.order[i]))
  {
    if n > 0 {
      EntriesAre(acc, n - 1);
    }
  }

  lemma EntryOrder()
    ensures TotalOrder(Before) && Antisymmetric(Before)
  {}

  /** The fused list: every id that some channel ranks, exactly once, with its summed score, best
      first and ties by id. */
  lemma FusedFacts(cs: seq<Channel>, k: nat)
    ensures SortedBy(Before, Fused(cs, k)) && Distinct(Fused(cs, k))
    ensures forall e :: e in Fused(cs, k) <==> Ranks(cs, e.id) && e.score == Score(cs, k, e.id)
  {
    var acc := AddChannels(cs, k);
    var entries := Entries(acc, |acc.order|);
    AddChannelsFacts(cs, k, 0);
    EntriesAre(acc, |acc.order|);
    EntryOrder();
    SortSorts(entries, Before);
    SortKeepsMembers(entries, Before);
    forall e: Entry ensures e in entries <==> Ranks(cs, e.id) && e.score == Score(cs, k, e.id) {
      EntryMember(cs, k, acc, entries, e);
    }
    assert Distinct(entries);
    SortKeepsDistinct(entries);
  }

  lemma EntryMember(cs: seq<Channel>, k: nat, acc: Acc, entries: seq<Entry>, e: Entry)
    requires acc == AddChannels(cs, k) && entries == Entries(acc, |acc.order|)
    ensures e in entries <==> Ranks(cs, e.id) && e.score == Score(cs, k, e.id)
  {
    AddChannelsFacts(cs, k, e.id);
    EntriesAre(acc, |acc.order|);
    if Ranks(cs, e.id) && e.score == Score(cs, k, e.id) {
      assert e.id in acc.order;
      var i :| 0 <= i < |acc.order| && acc.order[i] == e.id;
      assert entries[i] == e;
    }
    if e in entries {
      var i :| 0 <= i < |entries| && entries[i] == e;
      assert acc.order[i] in acc.order;
    }
  }

  predicate Differ(a: Entry, b: Entry) { a != b }

  lemma SortKeepsDistinct(entries: seq<Entry>)
    requires Distinct(entries)
    ensures Distinct(Sort(entries, Before))
  {
    SortKeepsPairwise(entries, Before, Differ);
    forall i, j | 0 <= i < j < |Sort(entries, Before)| ensures Sort(entries, Before)[i] != Sort(entries, Before)[j] {
      assert Differ(Sort(entries, Before)[i], Sort(entries, Before)[j]);
    }
  }

  // ---------------------------------------------------------------- what a rank is worth

  /** What the scores are, without the loops: one more rank at the end of a channel adds to its id the weight divided by
      `k` and that rank, counted from one, and nothing to any other id; channels add up; and without ranks the score
      is zero. */
  lemma RankIsWorth(cs: seq<Channel>, w: real, ids: seq<nat>, id: nat, k: nat, x: nat)
    ensures var before, after := Score(cs + [Channel(w, ids)], k, x), Score(cs + [Channel(w, ids + [id])], k, x);
      if x == id then (after - before) * (k + (|ids| + 1)) as real == w else after == before
    ensures Score(cs + [Channel(w, [])], k, x) == Score(cs, k, x) && Score([], k, x) == 0.0
  {
    ScoreSnoc(cs, Channel(w, ids), k, x);
    ScoreSnoc(cs, Channel(w, ids + [id]), k, x);
    ScoreSnoc(cs, Channel(w, []), k, x);
    LastGiven(w, ids, id, k, x);
    if x == id {
      ShareTimes(w, k, |ids|);
      Difference(Score(cs + [Channel(w, ids)], k, x), Score(cs + [Channel(w, ids + [id])], k, x), Share(w, k, |ids|),
                 (k + (|ids| + 1)) as real, w);
    }
  }

  lemma Difference(before: real, after: real, share: real, rank: real, w: real)
    requires after == before + share && share * rank == w
    ensures (after - before) * rank == w
  {
    assert after - before == share;
  }

  lemma LastGiven(w: real, ids: seq<nat>, id: nat, k: nat, x: nat)
    ensures Given(Channel(w, ids + [id]), k, x, |ids| + 1) ==
      Given(Channel(w, ids), k, x, |ids|) + if id == x then Share(w, k, |ids|) else 0.0
  {
    GivenPrefix(Channel(w, ids), Channel(w, ids + [id]), k, x, |ids|);
  }

  lemma ScoreSnoc(cs: seq<Channel>, c: Channel, k: nat, x: nat)
    ensures Score(cs + [c], k, x) == Score(cs, k, x) + Given(c, k, x, |c.ranked|)
  {
    assert (cs + [c])[..|cs|] == cs;
  }

  lemma {:induction false} GivenPrefix(c: Channel, d: Channel, k: nat, x: nat, n: nat)
    requires c.weight == d.weight && c.ranked <= d.ranked && n <= |c.ranked|
    ensures Given(c, k, x, n) == Given(d, k, x, n)
  {
    if n > 0 {
      GivenPrefix(c, d, k, x, n - 1);
    }
  }

  lemma ShareTimes(w: real, k: nat, n: nat)
    ensures Share(w, k, n) * (k + (n + 1)) as real == w
  {
    Quotient(w, (k + (n + 1)) as real);
  }

  /** So fusing one channel without repetitions gives id number `n` of it the weight divided by `k + n`. */
  lemma OneChannelScores(w: real, ids: seq<nat>, k: nat, n: nat) returns (score: real)
    requires Distinct(ids) && n < |ids|
    ensures Entry(ids[n], score) in Fused([Channel(w, ids)], k) && score * (k + (n + 1)) as real == w
  {
    var c := Channel(w, ids);
    score := Share(w, k, n);
    OneChannelScore(c, k, n);
    RanksOwn(c, ids[n]);
    FusedHas([c], k, ids[n], score);
    ShareTimes(w, k, n);
  }

  lemma FusedHas(cs: seq<Channel>, k: nat, id: nat, score: real)
    requires Ranks(cs, id) && score == Score(cs, k, id)
    ensures Entry(id, score) in Fused(cs, k)
  {
    FusedFacts(cs, k);
  }

  lemma RanksOwn(c: Channel, id: nat)
    requires id in c.ranked
    ensures Ranks([c], id)
  {
    assert [c][0] == c;
  }

  lemma OneChannelScore(c: Channel, k: nat, n: nat)
    requires Distinct(c.ranked) && n < |c.ranked|
    ensures Score([c], k, c.ranked[n]) == Share(c.weight, k, n)
  {
    ScoreSnoc([], c, k, c.ranked[n]);
    assert [] + [c] == [c];
    GivenOnce(c, k, c.ranked[n], |c.ranked|);
    PositionUnique(c.ranked, n);
  }

  // ---------------------------------------------------------------- monotonicity

  function Position(s: seq<nat>, id: nat): (i: nat)
    requires id in s
    ensures i < |s| && s[i] == id
  {
    if s[0] == id then 0 else 1 + Position(s[1..], id)
  }

  /** `a` is ranked at least as well as `b`: wherever `b` appears, `a` appears no later. */
  predicate NoWorse(c: Channel, a: nat, b: nat) {
    b in c.ranked ==> a in c.ranked && Position(c.ranked, a) <= Position(c.ranked, b)
  }

  lemma {:induction false} GivenOnce(c: Channel, k: nat, id: nat, n: nat)
    requires Distinct(c.ranked) && n <= |c.ranked|
    ensures Given(c, k, id, n) ==
      if id in c.ranked && Position(c.ranked, id) < n then Share(c.weight, k, Position(c.ranked, id)) else 0.0
  {
    if n > 0 {
      GivenOnce(c, k, id, n - 1);
    }
  }

  lemma ShareFacts(weight: real, k: nat, i: nat, j: nat)
    requires 0.0 <= weight && i <= j
    ensures 0.0 <= Share(weight, k, j) <= Share(weight, k, i)
  {
    DivAntitone(weight, (k + i + 1) as real, (k + j + 1) as real);
  }

  /** Fusion is monotone: with non-negative weights an id that is ranked at least as well in every
      channel never scores lower. */
  lemma {:induction false} FusionIsMonotone(cs: seq<Channel>, k: nat, a: nat, b: nat)
    requires forall c :: c in cs ==> 0.0 <= c.weight && Distinct(c.ranked) && NoWorse(c, a, b)
    ensures Score(cs, k, b) <= Score(cs, k, a)
  {
    if cs != [] {
      var c := cs[|cs| - 1];
      FusionIsMonotone(cs[..|cs| - 1], k, a, b);
      assert c in cs;
      GivenOnce(c, k, a, |c.ranked|);
      GivenOnce(c, k, b, |c.ranked|);
      if b in c.ranked {
        ShareFacts(c.weight, k, Position(c.ranked, a), Position(c.ranked, b));
      } else if a in c.ranked {
        ShareFacts(c.weight, k, 0, Position(c.ranked, a));
      }
    }
  }

  // ---------------------------------------------------------------- document fusion

  datatype Hit = Hit(doc: nat, chunk: nat)

  function DocOf(h: Hit): nat { h.doc }

  function Docs(hits: seq<Hit>): seq<nat> {
    if hits == [] then [] else [hits[0].doc] + Docs(hits[1..])
  }

  /** `dedupe_docs(hits, 200)` */
  function Top200(hits: seq<Hit>): seq<Hit> {
    var firsts := Firsts(hits, DocOf, {});
    firsts[..Min(200, |firsts|)]
  }

  lemma {:induction false} DocsAt(hits: seq<Hit>, i: nat)
    ensures |Docs(hits)| == |hits|
    ensures i < |hits| ==> Docs(hits)[i] == hits[i].doc
  {
    if hits != [] {
      DocsAt(hits[1..], if i > 0 then i - 1 else 0);
    }
  }

  /** A deduplicated channel ranks no document twice. */
  lemma TopDocsDistinct(hits: seq<Hit>)
    ensures Distinct(Docs(Top200(hits)))
  {
    FirstsAreDistinct(hits, DocOf, {});
    var top := Top200(hits);
    DocsAt(top, 0);
    forall i, j | 0 <= i < j < |top| ensures Docs(top)[i] != Docs(top)[j] {
      DocsAt(top, i);
      DocsAt(top, j);
      assert DocOf(top[i]) != DocOf(top[j]);
    }
  }

  /** At most 200 documents are kept, and one is lost only if 200 others were. */
  lemma TopHolds(hits: seq<Hit>, h: Hit)
    requires h in hits
    ensures |Top200(hits)| <= 200 && (h.doc in Docs(Top200(hits)) || |Top200(hits)| == 200)
  {
    var firsts := Firsts(hits, DocOf, {});
    if |firsts| <= 200 {
      KeyIsKept(hits, DocOf, {}, h);
      var first :| first in firsts && DocOf(first) == DocOf(h);
      assert Top200(hits) == firsts;
      HitInDocs(firsts, first);
    }
  }

  /** The chunk that stands for a document: the sparse one, else the dense one. */
  ghost predicate Represents(dense: seq<Hit>, sparse: seq<Hit>, doc: nat, chunk: nat) {
    if doc in Docs(sparse) then Hit(doc, chunk) in sparse else Hit(doc, chunk) in dense
  }

  /** `rrf_fuse_documents`: two loops over the deduplicated channels, keyed by document. The scores are
      those of `rrf_fuse` over the document lists; only the chunk that represents a document is
      chosen differently. */
  method RrfFuseDocuments(dense: seq<Hit>, sparse: seq<Hit>, semanticWeight: real, k: nat, limit: nat)
    returns (rows: seq<Entry>, representative: map<nat, nat>)
    ensures var cs :=
      [Channel(semanticWeight, Docs(Top200(dense))), Channel(1.0 - semanticWeight, Docs(Top200(sparse)))];
      rows == Fused(cs, k)[..Min(limit, |Fused(cs, k)|)]
    ensures forall e :: e in rows ==>
      e.id in representative && Represents(Top200(dense), Top200(sparse), e.id, representative[e.id])
  {
    var denseDocs, sparseDocs := Top200(dense), Top200(sparse);
    var cd, cp := Channel(semanticWeight, Docs(denseDocs)), Channel(1.0 - semanticWeight, Docs(sparseDocs));
    DocsAt(denseDocs, 0);
    DocsAt(sparseDocs, 0);
    var fromDense, acc;
    acc, fromDense := AddDense(denseDocs, cd, k);
    acc, representative := AddSparse(acc, fromDense, sparseDocs, cp, k);
    TwoChannels(cd, cp, k);
    rows := Sort(Entries(acc, |acc.order|), Before);
    rows := rows[..Min(limit, |rows|)];
    AllRepresented(denseDocs, sparseDocs, fromDense, representative, [cd, cp], k);
  }

  /** The dense loop keeps the first chunk of every document. */
  method AddDense(hits: seq<Hit>, c: Channel, k: nat) returns (acc: Acc, representative: map<nat, nat>)
    requires c.ranked == Docs(hits) && |c.ranked| == |hits|
    ensures acc == AddRanks(Acc([], map[]), c, k, |hits|)
    ensures DenseRepresentatives(hits, representative, |hits|)
  {
    acc, representative := Acc([], map[]), map[];
    for n := 0 to |hits|
      invariant acc == AddRanks(Acc([], map[]), c, k, n)
      invariant DenseRepresentatives(hits, representative, n)
    {
      DocsAt(hits, n);
      acc := Add(acc, hits[n].doc, Share(c.weight, k, n));
      if hits[n].doc !in representative {
        representative := representative[hits[n].doc := hits[n].chunk];
      }
    }
  }

  /** The sparse loop overrides the chunk of every document it ranks. */
  method AddSparse(start: Acc, before: map<nat, nat>, hits: seq<Hit>, c: Channel, k: nat)
    returns (acc: Acc, representative: map<nat, nat>)
    requires c.ranked == Docs(hits) && |c.ranked| == |hits|
    ensures acc == AddRanks(start, c, k, |hits|)
    ensures SparseRepresentatives(before, hits, representative, |hits|)
  {
    acc, representative := start, before;
    for n := 0 to |hits|
      invariant acc == AddRanks(start, c, k, n)
      invariant SparseRepresentatives(before, hits, representative, n)
    {
      DocsAt(hits, n);
      acc := Add(acc, hits[n].doc, Share(c.weight, k, n));
      representative := representative[hits[n].doc := hits[n].chunk];
    }
  }

  lemma {:induction false} EntryRepresented(dense: seq<Hit>, sparse: seq<Hit>, fromDense: map<nat, nat>,
                                            representative: map<nat, nat>, cs: seq<Channel>, k: nat, e: Entry)
    requires |cs| == 2 && cs[0].ranked == Docs(dense) && cs[1].ranked == Docs(sparse)
    requires DenseRepresentatives(dense, fromDense, |dense|)
    requires SparseRepresentatives(fromDense, sparse, representative, |sparse|)
    requires e in Fused(cs, k)
    ensures e.id in representative && Represents(dense, sparse, e.id, representative[e.id])
  {
    FusedFacts(cs, k);
    Represented(dense, sparse, fromDense, representative, cs, e.id);
  }

  lemma {:induction false} AllRepresented(dense: seq<Hit>, sparse: seq<Hit>, fromDense: map<nat, nat>,
                                          representative: map<nat, nat>, cs: seq<Channel>, k: nat)
    requires |cs| == 2 && cs[0].ranked == Docs(dense) && cs[1].ranked == Docs(sparse)
    requires DenseRepresentatives(dense, fromDense, |dense|)
    requires SparseRepresentatives(fromDense, sparse, representative, |sparse|)
    ensures forall e :: e in Fused(cs, k) ==>
      e.id in representative && Represents(dense, sparse, e.id, representative[e.id])
  {
    forall e | e in Fused(cs, k)
      ensures e.id in representative && Represents(dense, sparse, e.id, representative[e.id])
    {
      EntryRepresented(dense, sparse, fromDense, representative, cs, k, e);
    }
  }

  ghost predicate DenseRepresentatives(hits: seq<Hit>, representative: map<nat, nat>, n: nat)
    requires n <= |hits|
  {
    && (forall i :: 0 <= i < n ==> hits[i].doc in representative)
    && (forall d :: d in representative ==> Hit(d, representative[d]) in hits)
  }

  ghost predicate SparseRepresentatives(before: map<nat, nat>, hits: seq<Hit>, representative: map<nat, nat>, n: nat)
    requires n <= |hits|
  {
    && (forall i :: 0 <= i < n ==>
      hits[i].doc in representative && Hit(hits[i].doc, representative[hits[i].doc]) in hits)
    && (forall d :: d in before ==> d in representative)
    && (forall d :: d in representative && Hit(d, representative[d]) !in hits ==>
      d in before && representative[d] == before[d])
  }

  lemma {:induction false} InDocs(hits: seq<Hit>, doc: nat)
    ensures doc in Docs(hits) <==> exists i :: 0 <= i < |hits| && hits[i].doc == doc
  {
    if hits != [] {
      InDocs(hits[1..], doc);
      if i :| 0 <= i < |hits[1..]| && hits[1..][i].doc == doc {
        assert hits[i + 1].doc == doc;
      }
      if i :| 0 <= i < |hits| && hits[i].doc == doc {
        assert i > 0 ==> hits[1..][i - 1].doc == doc;
      }
    }
  }

  lemma {:induction false} Represented(dense: seq<Hit>, sparse: seq<Hit>, fromDense: map<nat, nat>,
                                       representative: map<nat, nat>, cs: seq<Channel>, doc: nat)
    requires |cs| == 2 && cs[0].ranked == Docs(dense) && cs[1].ranked == Docs(sparse) && Ranks(cs, doc)
    requires DenseRepresentatives(dense, fromDense, |dense|)
    requires SparseRepresentatives(fromDense, sparse, representative, |sparse|)
    ensures doc in representative && Represents(dense, sparse, doc, representative[doc])
  {
    InDocs(dense, doc);
    InDocs(sparse, doc);
    assert doc in Docs(dense) || doc in Docs(sparse);
    if doc !in Docs(sparse) {
      assert doc in fromDense;
      HitInDocs(sparse, Hit(doc, representative[doc]));
    }
  }

  lemma HitInDocs(hits: seq<Hit>, h: Hit)
    ensures h in hits ==> h.doc in Docs(hits)
  {
    InDocs(hits, h.doc);
    if h in hits {
      var j :| 0 <= j < |hits| && hits[j] == h;
    }
  }

  lemma TwoChannels(c: Channel, e: Channel, k: nat)
    ensures AddChannels([c, e], k) ==
      AddRanks(AddRanks(Acc([], map[]), c, k, |c.ranked|), e, k, |e.ranked|)
  {
    assert [c, e][..1] == [c] && [c][..0] == [];
    assert AddChannels([], k) == Acc([], map[]);
    assert AddChannels([c], k) == AddRanks(Acc([], map[]), c, k, |c.ranked|);
  }

  // ---------------------------------------------------------------- semantic weight one

  predicate LeqNat(x: nat, y: nat) { x <= y }

  /** The dense list with its shares. */
  function DenseEntries(dense: seq<nat>, k: nat, n: nat): seq<Entry>
    requires n <= |dense|
  {
    if n == 0 then [] else DenseEntries(dense, k, n - 1) + [Entry(dense[n - 1], Share(1.0, k, n - 1))]
  }

  function Without(ids: seq<nat>, drop: seq<nat>): seq<nat> {
    if ids == [] then [] else (if ids[0] in drop then [] else [ids[0]]) + Without(ids[1..], drop)
  }

  function ZeroEntries(ids: seq<nat>): seq<Entry> {
    if ids == [] then [] else [Entry(ids[0], 0.0)] + ZeroEntries(ids[1..])
  }

  lemma {:induction false} DenseEntriesAre(dense: seq<nat>, k: nat, n: nat)
    requires n <= |dense|
    ensures |DenseEntries(dense, k, n)| == n
    ensures forall i :: 0 <= i < n ==> DenseEntries(dense, k, n)[i] == Entry(dense[i], Share(1.0, k, i))
  {
    if n > 0 {
      DenseEntriesAre(dense, k, n - 1);
    }
  }

  lemma {:induction false} ZeroEntriesAre(ids: seq<nat>)
    ensures |ZeroEntries(ids)| == |ids|
    ensures forall i :: 0 <= i < |ids| ==> ZeroEntries(ids)[i] == Entry(ids[i], 0.0)
  {
    if ids != [] {
      ZeroEntriesAre(ids[1..]);
    }
  }

  lemma {:induction false} WithoutFacts(ids: seq<nat>, drop: seq<nat>)
    requires Distinct(ids)
    ensures Distinct(Without(ids, drop))
    ensures forall x :: x in Without(ids, drop) <==> x in ids && x !in drop
  {
    if ids != [] {
      WithoutFacts(ids[1..], drop);
    }
  }

  lemma StrictShare(k: nat, i: nat, j: nat)
    requires i < j
    ensures Share(1.0, k, j) < Share(1.0, k, i) && 0.0 < Share(1.0, k, j)
  {
    var x, y := (k + i + 1) as real, (k + j + 1) as real;
    assert 1.0 / x - 1.0 / y == (y - x) / (x * y);
  }

  /** The expected list: the dense order, then the sparse-only ids by id. */
  function DenseThenRest(dense: seq<nat>, sparse: seq<nat>, k: nat): seq<Entry> {
    DenseEntries(dense, k, |dense|) + ZeroEntries(Sort(Without(sparse, dense), LeqNat))
  }

  lemma RestFacts(dense: seq<nat>, sparse: seq<nat>)
    requires Distinct(sparse)
    ensures var rest := Sort(Without(sparse, dense), LeqNat);
      Distinct(rest) && SortedBy(LeqNat, rest) && forall x :: x in rest <==> x in sparse && x !in dense
  {
    WithoutFacts(sparse, dense);
    SortSorts(Without(sparse, dense), LeqNat);
    SortKeepsMembers(Without(sparse, dense), LeqNat);
    SortKeepsPairwise(Without(sparse, dense), LeqNat, Other);
    var rest := Sort(Without(sparse, dense), LeqNat);
    forall i, j | 0 <= i < j < |rest| ensures rest[i] != rest[j] {
      assert Other(rest[i], rest[j]);
    }
  }

  predicate Other(x: nat, y: nat) { x != y }

  lemma DenseThenRestSorted(dense: seq<nat>, sparse: seq<nat>, k: nat)
    requires Distinct(dense) && Distinct(sparse)
    ensures SortedBy(Before, DenseThenRest(dense, sparse, k)) && Distinct(DenseThenRest(dense, sparse, k))
  {
    var rest := Sort(Without(sparse, dense), LeqNat);
    RestFacts(dense, sparse);
    DenseEntriesAre(dense, k, |dense|);
    ZeroEntriesAre(rest);
    var all := DenseThenRest(dense, sparse, k);
    forall i, j | 0 <= i < j < |all| ensures Before(all[i], all[j]) && all[i] != all[j] {
      if j < |dense| {
        StrictShare(k, i, j);
      } else if i < |dense| {
        StrictShare(k, i, i + 1);
      } else {
        assert LeqNat(rest[i - |dense|], rest[j - |dense|]);
      }
    }
  }

  /** What an entry of the expected list looks like. */
  predicate Expected(dense: seq<nat>, sparse: seq<nat>, k: nat, e: Entry) {
    if e.id in dense then e.score == Share(1.0, k, Position(dense, e.id)) else e.id in sparse && e.score == 0.0
  }

  lemma {:induction false} PositionUnique(s: seq<nat>, i: nat)
    requires Distinct(s) && i < |s|
    ensures Position(s, s[i]) == i
  {}

  lemma MembersAreExpected(dense: seq<nat>, sparse: seq<nat>, k: nat, i: nat)
    requires Distinct(dense) && Distinct(sparse) && i < |DenseThenRest(dense, sparse, k)|
    ensures Expected(dense, sparse, k, DenseThenRest(dense, sparse, k)[i])
  {
    var rest := Sort(Without(sparse, dense), LeqNat);
    RestFacts(dense, sparse);
    DenseEntriesAre(dense, k, |dense|);
    ZeroEntriesAre(rest);
    if i < |dense| {
      PositionUnique(dense, i);
    } else {
      assert rest[i - |dense|] in rest;
    }
  }

  lemma ExpectedAreMembers(dense: seq<nat>, sparse: seq<nat>, k: nat, e: Entry)
    requires Distinct(dense) && Distinct(sparse) && Expected(dense, sparse, k, e)
    ensures e in DenseThenRest(dense, sparse, k)
  {
    var rest := Sort(Without(sparse, dense), LeqNat);
    var all := DenseThenRest(dense, sparse, k);
    RestFacts(dense, sparse);
    DenseEntriesAre(dense, k, |dense|);
    ZeroEntriesAre(rest);
    if e.id in dense {
      assert all[Position(dense, e.id)] == e;
    } else {
      var i :| 0 <= i < |rest| && rest[i] == e.id;
      assert all[|dense| + i] == e;
    }
  }

  lemma WeightOneScore(dense: seq<nat>, sparse: seq<nat>, k: nat, id: nat)
    requires Distinct(dense) && Distinct(sparse)
    ensures Score([Channel(1.0, dense), Channel(0.0, sparse)], k, id) ==
      if id in dense then Share(1.0, k, Position(dense, id)) else 0.0
  {
    var cd, cp := Channel(1.0, dense), Channel(0.0, sparse);
    assert [cd, cp][..1] == [cd] && [cd][..0] == [];
    assert Score([], k, id) == 0.0;
    assert Score([cd], k, id) == Given(cd, k, id, |dense|);
    GivenOnce(cd, k, id, |dense|);
    GivenOnce(cp, k, id, |sparse|);
  }

  /** With semantic weight one, document fusion of any two channels reproduces the dense order,
      followed by the documents that only the sparse channel has. */
  lemma WeightOneKeepsDenseOrder(dense: seq<Hit>, sparse: seq<Hit>, k: nat)
    ensures var denseDocs, sparseDocs := Docs(Top200(dense)), Docs(Top200(sparse));
      Fused([Channel(1.0, denseDocs), Channel(1.0 - 1.0, sparseDocs)], k) == DenseThenRest(denseDocs, sparseDocs, k)
  {
    TopDocsDistinct(dense);
    TopDocsDistinct(sparse);
    FusedAtWeightOne(Docs(Top200(dense)), Docs(Top200(sparse)), k);
  }

  lemma FusedAtWeightOne(dense: seq<nat>, sparse: seq<nat>, k: nat)
    requires Distinct(dense) && Distinct(sparse)
    ensures Fused([Channel(1.0, dense), Channel(0.0, sparse)], k) == DenseThenRest(dense, sparse, k)
  {
    var cs := [Channel(1.0, dense), Channel(0.0, sparse)];
    var a, b := Fused(cs, k), DenseThenRest(dense, sparse, k);
    FusedFacts(cs, k);
    DenseThenRestSorted(dense, sparse, k);
    forall e: Entry ensures e in a <==> e in b {
      if e in b {
        var i :| 0 <= i < |b| && b[i] == e;
        MembersAreExpected(dense, sparse, k, i);
      }
      if Expected(dense, sparse, k, e) {
        ExpectedAreMembers(dense, sparse, k, e);
      }
      WeightOneScore(dense, sparse, k, e.id);
      TwoRanks(cs[0], cs[1], e.id);
    }
    DistinctSameMembers(a, b);
    EntryOrder();
    SortedUnique(a, b, Before);
  }

  lemma TwoRanks(c: Channel, e: Channel, id: nat)
    ensures Ranks([c, e], id) <==> id in c.ranked || id in e.ranked
  {
    assert [c, e][0] == c && [c, e][1] == e;
  }

  // ---------------------------------------------------------------- list-wise reranking

  /** `by_id.pop(id, None)` on a dictionary whose keys are listed in order. */
  function Remove(ids: seq<nat>, id: nat): seq<nat> {
    if ids == [] then [] else if ids[0] == id then ids[1..] else [ids[0]] + Remove(ids[1..], id)
  }

  lemma {:induction false} RemoveCount(ids: seq<nat>, id: nat)
    requires id in ids
    ensures multiset(ids) == multiset(Remove(ids, id)) + multiset{id}
  {
    TailMultiset(ids);
    if ids[0] != id {
      RemoveCount(ids[1..], id);
    }
  }

  function IdsOf(rows: seq<Entry>): seq<nat> {
    if rows == [] then [] else IdsOf(rows[..|rows| - 1]) + [rows[|rows| - 1].id]
  }

  /** The candidates after the first `n` ids of the answer have been popped. */
  function Left(candidates: seq<nat>, answer: seq<nat>, n: nat): seq<nat>
    requires n <= |answer|
  {
    if n == 0 then candidates else Remove(Left(candidates, answer, n - 1), answer[n - 1])
  }

  /** The rows taken from the first `n` ids of the answer: an id counts the first time it names a
      candidate. */
  function Taken(candidates: seq<nat>, answer: seq<nat>, n: nat): seq<Entry>
    requires n <= |answer|
  {
    if n == 0 then []
    else Taken(candidates, answer, n - 1) +
         (if answer[n - 1] in Left(candidates, answer, n - 1) then [Entry(answer[n - 1], 1.0 / n as real)] else [])
  }

  function Remainder(left: seq<nat>, offset: nat, n: nat): seq<Entry>
    requires n <= |left|
  {
    if n == 0 then [] else Remainder(left, offset, n - 1) + [Entry(left[n - 1], 1.0 / (offset + n) as real)]
  }

  /** `rerank`: the candidates in the order of the model's answer, then the ones it left out. */
  method Rerank(candidates: seq<nat>, answer: seq<nat>) returns (ordered: seq<Entry>)
    requires Distinct(candidates)
    ensures var taken := Taken(candidates, answer, |answer|);
      var left := Left(candidates, answer, |answer|);
      ordered == taken + Remainder(left, |taken|, |left|)
    ensures multiset(IdsOf(ordered)) == multiset(candidates)
  {
    var byId := candidates;
    ordered := [];
    for rank := 0 to |answer|
      invariant byId == Left(candidates, answer, rank) && ordered == Taken(candidates, answer, rank)
    {
      if answer[rank] in byId {
        ordered := ordered + [Entry(answer[rank], 1.0 / (rank + 1) as real)];
      }
      byId := Remove(byId, answer[rank]);
    }
    var offset := |ordered|;
    ghost var taken := ordered;
    for rank := 0 to |byId|
      invariant ordered == taken + Remainder(byId, offset, rank)
    {
      ordered := ordered + [Entry(byId[rank], 1.0 / (offset + rank + 1) as real)];
    }
    RerankIsPermutation(candidates, answer);
  }

  lemma {:induction false} IdsOfConcat(a: seq<Entry>, b: seq<Entry>)
    ensures IdsOf(a + b) == IdsOf(a) + IdsOf(b)
  {
    if b == [] {
      assert a + b == a;
    } else {
      IdsOfConcat(a, b[..|b| - 1]);
      assert (a + b)[..|a + b| - 1] == a + b[..|b| - 1];
    }
  }

  lemma {:induction false} IdsOfRemainder(left: seq<nat>, offset: nat, n: nat)
    requires n <= |left|
    ensures |Remainder(left, offset, n)| == n && IdsOf(Remainder(left, offset, n)) == left[..n]
  {
    if n > 0 {
      IdsOfRemainder(left, offset, n - 1);
      AppendId(Remainder(left, offset, n - 1), left[n - 1], 1.0 / (offset + n) as real);
      TakeNext(left, n);
    }
  }

  lemma TakeNext(left: seq<nat>, n: nat)
    requires 0 < n <= |left|
    ensures left[..n] == left[..n - 1] + [left[n - 1]]
  {}

  lemma AppendId(rows: seq<Entry>, id: nat, score: real)
    ensures IdsOf(rows + [Entry(id, score)]) == IdsOf(rows) + [id]
  {
    assert (rows + [Entry(id, score)])[..|rows|] == rows;
  }

  lemma {:induction false} TakenAndLeft(candidates: seq<nat>, answer: seq<nat>, n: nat)
    requires n <= |answer|
    ensures Splits(Taken(candidates, answer, n), Left(candidates, answer, n), candidates)
  {
    if n > 0 {
      TakenAndLeft(candidates, answer, n - 1);
      TakeNextId(Taken(candidates, answer, n - 1), Left(candidates, answer, n - 1), candidates, answer[n - 1],
        1.0 / n as real);
    }
  }

  /** Every candidate is taken or left. */
  predicate Splits(taken: seq<Entry>, left: seq<nat>, candidates: seq<nat>) {
    multiset(IdsOf(taken)) + multiset(left) == multiset(candidates)
  }

  lemma TakeNextId(taken: seq<Entry>, left: seq<nat>, candidates: seq<nat>, id: nat, score: real)
    requires Splits(taken, left, candidates)
    ensures Splits(taken + (if id in left then [Entry(id, score)] else []), Remove(left, id), candidates)
  {
    TakeOne(taken, left, id, score);
  }

  lemma TakeOne(taken: seq<Entry>, left: seq<nat>, id: nat, score: real)
    ensures var more := if id in left then [Entry(id, score)] else [];
      multiset(IdsOf(taken + more)) + multiset(Remove(left, id)) == multiset(IdsOf(taken)) + multiset(left)
  {
    if id in left {
      RemoveCount(left, id);
      assert (taken + [Entry(id, score)])[..|taken|] == taken;
    } else {
      NothingRemoved(left, id);
      assert taken + [] == taken;
    }
  }

  lemma {:induction false} NothingRemoved(ids: seq<nat>, id: nat)
    requires id !in ids
    ensures Remove(ids, id) == ids
  {
    if ids != [] {
      NothingRemoved(ids[1..], id);
    }
  }

  /** Whatever the model answers - unknown ids, repeated ids, or too few - the result is a permutation
      of the candidates. */
  lemma RerankIsPermutation(candidates: seq<nat>, answer: seq<nat>)
    requires Distinct(candidates)
    ensures var taken := Taken(candidates, answer, |answer|);
      var left := Left(candidates, answer, |answer|);
      multiset(IdsOf(taken + Remainder(left, |taken|, |left|))) == multiset(candidates)
  {
    var taken := Taken(candidates, answer, |answer|);
    var left := Left(candidates, answer, |answer|);
    TakenAndLeft(candidates, answer, |answer|);
    IdsOfRemainder(left, |taken|, |left|);
    IdsOfConcat(taken, Remainder(left, |taken|, |left|));
    assert left[..|left|] == left;
  }

  // ---------------------------------------------------------------- scores along the reranked list

  ghost predicate Falling(rows: seq<Entry>) {
    forall i, j :: 0 <= i < j < |rows| ==> rows[i].score >= rows[j].score
  }

  /** The number of ids of the answer up to the last one that names a candidate. */
  function LastAccepted(candidates: seq<nat>, answer: seq<nat>, n: nat): nat
    requires n <= |answer|
  {
    if n == 0 then 0
    else if answer[n - 1] in Left(candidates, answer, n - 1) then n
    else LastAccepted(candidates, answer, n - 1)
  }

  /** The accepted ids have falling scores, the last of which is that of the last accepted rank. */
  lemma {:induction false} TakenFalls(candidates: seq<nat>, answer: seq<nat>, n: nat)
    requires n <= |answer|
    ensures LastAccepted(candidates, answer, n) <= n
    ensures FallsTo(Taken(candidates, answer, n), LastAccepted(candidates, answer, n))
  {
    if n > 0 {
      TakenFalls(candidates, answer, n - 1);
      var init := Taken(candidates, answer, n - 1);
      if answer[n - 1] in Left(candidates, answer, n - 1) {
        AppendFallsTo(init, LastAccepted(candidates, answer, n - 1), answer[n - 1], n);
      } else {
        assert init + [] == init;
      }
    }
  }

  /** The scores fall, the last one being that of rank `last`. */
  ghost predicate FallsTo(rows: seq<Entry>, last: nat) {
    && |rows| <= last && Falling(rows)
    && if rows == [] then last == 0 else rows[|rows| - 1].score == 1.0 / last as real
  }

  lemma AppendFallsTo(rows: seq<Entry>, last: nat, id: nat, n: nat)
    requires FallsTo(rows, last) && last < n
    ensures FallsTo(rows + [Entry(id, 1.0 / n as real)], n)
  {
    if rows != [] {
      DivAntitone(1.0, last as real, n as real);
    }
    AppendFalling(rows, Entry(id, 1.0 / n as real));
  }

  lemma AppendFalling(rows: seq<Entry>, e: Entry)
    requires Falling(rows) && (rows != [] ==> rows[|rows| - 1].score >= e.score)
    ensures Falling(rows + [e])
  {
    assert forall i :: 0 <= i < |rows| - 1 ==> rows[i].score >= rows[|rows| - 1].score;
  }

  lemma {:induction false} RemainderFalls(left: seq<nat>, offset: nat, n: nat)
    requires n <= |left|
    ensures var rest := Remainder(left, offset, n);
      && |rest| == n && Falling(rest)
      && (n > 0 ==> rest[0].score == 1.0 / (offset + 1) as real && rest[n - 1].score == 1.0 / (offset + n) as real)
  {
    if n > 0 {
      RemainderFalls(left, offset, n - 1);
      if n > 1 {
        DivAntitone(1.0, (offset + n - 1) as real, (offset + n) as real);
      }
      AppendFalling(Remainder(left, offset, n - 1), Entry(left[n - 1], 1.0 / (offset + n) as real));
    }
  }

  lemma JoinFalls(a: seq<Entry>, b: seq<Entry>)
    requires Falling(a) && Falling(b)
    ensures Falling(a + b) <==> a == [] || b == [] || a[|a| - 1].score >= b[0].score
  {
    if a == [] {
      assert a + b == b;
    } else if b == [] {
      assert a + b == a;
    } else {
      var all := a + b;
      assert all[|a| - 1] == a[|a| - 1] && all[|a|] == b[0];
      if a[|a| - 1].score >= b[0].score {
        forall i, j | 0 <= i < j < |all| ensures all[i].score >= all[j].score {
          if i < |a| <= j {
            assert a[i].score >= a[|a| - 1].score;
            assert b[0].score >= b[j - |a|].score;
          }
        }
      }
    }
  }

  lemma ReciprocalOrder(m: nat, n: nat)
    requires 0 < m && 0 < n
    ensures 1.0 / m as real >= 1.0 / n as real <==> m <= n
  {
    if m <= n {
      DivAntitone(1.0, m as real, n as real);
    } else {
      var x, y := m as real, n as real;
      assert 1.0 / y - 1.0 / x == (x - y) / (x * y);
    }
  }

  /** The scores of the whole result fall exactly when nothing is accepted, nothing is left out, or at
      most one id up to the last accepted one names no candidate or an earlier one again. */
  lemma RerankScoresFallExactlyWhen(candidates: seq<nat>, answer: seq<nat>)
    ensures var taken := Taken(candidates, answer, |answer|);
      var left := Left(candidates, answer, |answer|);
      Falling(taken + Remainder(left, |taken|, |left|)) <==>
        taken == [] || left == [] || LastAccepted(candidates, answer, |answer|) - |taken| <= 1
  {
    var taken := Taken(candidates, answer, |answer|);
    var left := Left(candidates, answer, |answer|);
    TakenFalls(candidates, answer, |answer|);
    RemainderFalls(left, |taken|, |left|);
    JoinFalls(taken, Remainder(left, |taken|, |left|));
    if taken != [] {
      ReciprocalOrder(LastAccepted(candidates, answer, |answer|), |taken| + 1);
    }
  }

  /** They can rise: after two unknown ids, the candidate that the answer leaves out gets a higher
      score than the one it names. */
  lemma RerankScoresCanRise()
    ensures var taken := Taken([1, 2], [8, 9, 1], 3);
      var left := Left([1, 2], [8, 9, 1], 3);
      !Falling(taken + Remainder(left, |taken|, |left|))
  {
    assert Left([1, 2], [8, 9, 1], 0) == [1, 2];
    NothingRemoved([1, 2], 8);
    NothingRemoved([1, 2], 9);
    assert Left([1, 2], [8, 9, 1], 1) == [1, 2] && Left([1, 2], [8, 9, 1], 2) == [1, 2];
    assert Left([1, 2], [8, 9, 1], 3) == [2];
    assert Taken([1, 2], [8, 9, 1], 0) == [] && Taken([1, 2], [8, 9, 1], 1) == [];
    assert Taken([1, 2], [8, 9, 1], 2) == [];
    RerankScoresFallExactlyWhen([1, 2], [8, 9, 1]);
  }
}
