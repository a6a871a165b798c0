/** Synchronising the managed knowledge-base corpus with a document server that may fail at any call,
    before or after the call took effect. */
module KnowledgeSync {
  import opened Optional
  import opened Text
  import Sorting

  datatype Doc = Doc(title: string, content: string, docType: string, tags: string)

  /** What becomes of a request: it succeeds, or the client sees an error, with or without the effect.
      A timeout is an error that only some handlers catch. */
  datatype Outcome = Done | Error(effect: bool) | Timeout(effect: bool)

  datatype Row = Row(id: nat, title: string)

  datatype Creation = Created | Refused | Crashed

  // ---------------------------------------------------------------- documents by title

  function Ids(docs: map<nat, Doc>, title: string): set<nat> {
    set id | id in docs && docs[id].title == title
  }

  /** The documents with other titles. */
  function Outside(docs: map<nat, Doc>, titles: set<string>): map<nat, Doc> {
    map id | id in docs && docs[id].title !in titles :: docs[id]
  }

  /** The comparison that lets a document stay: tags do not take part in it. */
  predicate UpToDate(doc: Doc, expected: Doc) {
    && doc.title == expected.title
    && Strip(doc.content) == Strip(expected.content)
    && doc.docType == expected.docType
  }

  /** Exactly one document has the title, and it is up to date. */
  ghost predicate Current(docs: map<nat, Doc>, expected: Doc) {
    exists id :: id in docs && Ids(docs, expected.title) == {id} && UpToDate(docs[id], expected)
  }

  /** Exactly one document has the title, and it has this type and, white space at its ends aside, this content. */
  ghost predicate HoldsOne(docs: map<nat, Doc>, title: string, content: string, docType: string) {
    exists id :: id in docs && IsOnly(docs, id, title) && Strip(docs[id].content) == Strip(content)
      && docs[id].docType == docType
  }

  ghost predicate IsOnly(docs: map<nat, Doc>, id: nat, title: string) {
    forall other :: other in docs ==> (docs[other].title == title <==> other == id)
  }

  /** Every managed title has exactly one document, with the content and the type that are expected. */
  ghost predicate HoldsAll(docs: map<nat, Doc>, expected: map<string, Doc>) {
    forall t :: t in expected ==> HoldsOne(docs, t, expected[t].content, expected[t].docType)
  }

  /** A managed title was left alone exactly when it held that document already and nothing was forced. */
  ghost predicate LeftExactly(before: map<nat, Doc>, after: map<nat, Doc>, expected: map<string, Doc>, force: bool) {
    forall t :: t in expected ==>
      (LeftAlone(before, after, t) <==> !force && HoldsOne(before, t, expected[t].content, expected[t].docType))
  }

  /** What being current means: the comparison looks at title, type and stripped content, all three. */
  lemma CurrentExactlyWhen(docs: map<nat, Doc>, expected: Doc)
    ensures Current(docs, expected) <==> HoldsOne(docs, expected.title, expected.content, expected.docType)
  {
    forall id | id in docs ensures Ids(docs, expected.title) == {id} <==> IsOnly(docs, id, expected.title) {
      OnlyOne(docs, id, expected.title);
    }
  }

  lemma OnlyOne(docs: map<nat, Doc>, id: nat, title: string)
    requires id in docs
    ensures Ids(docs, title) == {id} <==> IsOnly(docs, id, title)
  {
    if Ids(docs, title) == {id} {
      forall other | other in docs ensures docs[other].title == title <==> other == id {
        assert docs[other].title == title <==> other in Ids(docs, title);
      }
    }
    if IsOnly(docs, id, title) {
      assert forall other :: other in Ids(docs, title) <==> other == id;
    }
  }

  /** The documents of a title are the same as before. */
  ghost predicate LeftAlone(before: map<nat, Doc>, after: map<nat, Doc>, title: string) {
    && (forall id :: id in before && before[id].title == title ==> id in after && after[id] == before[id])
    && (forall id :: id in after && after[id].title == title ==> id in before && before[id] == after[id])
  }

  lemma OutsideLeavesAlone(a: map<nat, Doc>, b: map<nat, Doc>, titles: set<string>, t: string)
    requires Outside(a, titles) == Outside(b, titles) && t !in titles
    ensures LeftAlone(a, b, t) && LeftAlone(b, a, t)
  {
    OutsideKeepsIds(a, b, titles, t);
    assert forall id :: id in a && a[id].title == t ==> id in Ids(b, t);
    assert forall id :: id in b && b[id].title == t ==> id in Ids(a, t);
  }

  lemma AloneChain(a: map<nat, Doc>, b: map<nat, Doc>, c: map<nat, Doc>, t: string)
    requires LeftAlone(a, b, t) && LeftAlone(b, c, t)
    ensures LeftAlone(a, c, t)
  {}

  /** Whether a title was left alone does not depend on what happens to other titles, before or after. */
  lemma AloneElsewhere(a: map<nat, Doc>, b: map<nat, Doc>, c: map<nat, Doc>, titles: set<string>, t: string)
    requires Outside(b, titles) == Outside(c, titles) && t !in titles
    ensures LeftAlone(a, b, t) <==> LeftAlone(a, c, t)
    ensures LeftAlone(b, a, t) <==> LeftAlone(c, a, t)
  {
    OutsideLeavesAlone(b, c, titles, t);
    if LeftAlone(a, b, t) {
      AloneChain(a, b, c, t);
    }
    if LeftAlone(a, c, t) {
      AloneChain(a, c, b, t);
    }
    if LeftAlone(b, a, t) {
      AloneChain(c, b, a, t);
    }
    if LeftAlone(c, a, t) {
      AloneChain(b, c, a, t);
    }
  }

  lemma OutsideKeepsIds(a: map<nat, Doc>, b: map<nat, Doc>, titles: set<string>, t: string)
    requires Outside(a, titles) == Outside(b, titles) && t !in titles
    ensures Ids(a, t) == Ids(b, t) && forall id :: id in Ids(a, t) ==> a[id] == b[id]
  {
    forall id ensures id in Ids(a, t) <==> id in Ids(b, t) {
      assert id in Ids(a, t) ==> id in Outside(a, titles) && Outside(a, titles)[id] == a[id];
      assert id in Ids(b, t) ==> id in Outside(b, titles) && Outside(b, titles)[id] == b[id];
    }
    forall id | id in Ids(a, t) ensures a[id] == b[id] {
      assert id in Outside(a, titles) && Outside(a, titles)[id] == a[id];
      assert id in Outside(b, titles) && Outside(b, titles)[id] == b[id];
    }
  }

  lemma OutsideKeepsCurrent(a: map<nat, Doc>, b: map<nat, Doc>, titles: set<string>, expected: Doc)
    requires Outside(a, titles) == Outside(b, titles) && expected.title !in titles && Current(a, expected)
    ensures Current(b, expected)
  {
    OutsideKeepsIds(a, b, titles, expected.title);
    var id :| id in a && Ids(a, expected.title) == {id} && UpToDate(a[id], expected);
    assert id in Ids(b, expected.title);
  }

  lemma OutsideGrows(a: map<nat, Doc>, b: map<nat, Doc>, small: set<string>, large: set<string>)
    requires Outside(a, small) == Outside(b, small) && small <= large
    ensures Outside(a, large) == Outside(b, large)
  {
    forall id ensures id in Outside(a, large) <==> id in Outside(b, large) {
      assert id in Outside(a, large) ==> id in Outside(a, small) && Outside(a, small)[id] == a[id];
      assert id in Outside(b, large) ==> id in Outside(b, small) && Outside(b, small)[id] == b[id];
    }
    forall id | id in Outside(a, large) ensures a[id] == b[id] {
      assert id in Outside(a, small) && Outside(a, small)[id] == a[id];
      assert Outside(b, small)[id] == b[id];
    }
  }

  lemma RemovedOutside(docs: map<nat, Doc>, gone: set<nat>, t: string)
    requires gone <= Ids(docs, t)
    ensures Outside(docs - gone, {t}) == Outside(docs, {t})
    ensures Ids(docs - gone, t) == Ids(docs, t) - gone
  {}

  lemma AddedOutside(docs: map<nat, Doc>, id: nat, doc: Doc)
    requires id !in docs
    ensures Outside(docs[id := doc], {doc.title}) == Outside(docs, {doc.title})
    ensures Ids(docs[id := doc], doc.title) == Ids(docs, doc.title) + {id}
  {}

  lemma RemoveOne(docs: map<nat, Doc>, id: nat)
    ensures |docs - {id}| == |docs| - if id in docs then 1 else 0
  {
    assert (docs - {id}).Keys == docs.Keys - {id};
  }

  lemma AddOne(docs: map<nat, Doc>, id: nat, doc: Doc)
    ensures id !in docs ==> |docs[id := doc]| == |docs| + 1
  {
    assert docs[id := doc].Keys == docs.Keys + {id};
  }

  // ---------------------------------------------------------------- the server

  class Server {
    var docs: map<nat, Doc>
    var nextId: nat
    var calls: nat
    var writes: nat
    ghost var size: int
    /** Confirmed deletions and creations, and writing requests that were answered with an error. */
    ghost var deletions: nat
    ghost var creations: nat
    ghost var refusals: nat
    const outcome: nat -> Outcome

    constructor (outcome: nat -> Outcome)
      ensures Valid() && Sized() && docs == map[] && calls == 0 && this.outcome == outcome
    {
      this.outcome := outcome;
      docs, nextId, calls, writes, size := map[], 0, 0, 0, 0;
      deletions, creations, refusals := 0, 0, 0;
    }

    ghost predicate Valid()
      reads this
    {
      forall id :: id in docs ==> id < nextId
    }

    /** `size` is the number of documents. */
    ghost predicate Sized()
      reads this
    {
      |docs| == size
    }

    /** No request fails from now on. */
    ghost predicate FailureFree()
      reads this
    {
      forall i :: i >= calls ==> outcome(i) == Done
    }

    /** `DELETE`: true if the server confirms that the document was removed. */
    method Delete(id: nat) returns (removed: bool)
      requires Valid()
      modifies this
      ensures Valid() && writes == old(writes) + 1 && (old(FailureFree()) ==> FailureFree())
      ensures old(Sized()) ==> Sized()
      ensures (docs == old(docs) || docs == old(docs) - {id}) && nextId == old(nextId)
      ensures removed ==> id in old(docs) && docs == old(docs) - {id} && size == old(size) - 1
      ensures old(FailureFree()) && id in old(docs) ==> removed
      ensures deletions == old(deletions) + (if removed then 1 else 0) && creations == old(creations)
      ensures refusals == old(refusals) + (if removed then 0 else 1)
    {
      var o := outcome(calls);
      calls, writes := calls + 1, writes + 1;
      removed := o.Done? && id in docs;
      if removed {
        deletions := deletions + 1;
      } else {
        refusals := refusals + 1;
      }
      if o.Done? || o.effect {
        RemoveOne(docs, id);
        size := size - if id in docs then 1 else 0;
        docs := docs - {id};
      }
    }

    /** `POST`: a new document. */
    method Create(doc: Doc) returns (r: Creation)
      requires Valid()
      modifies this
      ensures Valid() && writes == old(writes) + 1 && (old(FailureFree()) ==> FailureFree())
      ensures old(Sized()) ==> Sized()
      ensures docs == old(docs) || (old(nextId) !in old(docs) && docs == old(docs)[old(nextId) := doc])
      ensures r.Created? ==> old(nextId) !in old(docs) && docs == old(docs)[old(nextId) := doc] && size == old(size) + 1
      ensures old(FailureFree()) ==> r.Created?
      ensures creations == old(creations) + (if r.Created? then 1 else 0) && deletions == old(deletions)
      ensures refusals == old(refusals) + (if r.Refused? then 1 else 0)
    {
      var o := outcome(calls);
      calls, writes := calls + 1, writes + 1;
      if o.Done? || o.effect {
        AddOne(docs, nextId, doc);
        size := size + 1;
        docs := docs[nextId := doc];
        nextId := nextId + 1;
      }
      r := if o.Done? then Created else if o.Timeout? then Crashed else Refused;
      creations := creations + if r.Created? then 1 else 0;
      refusals := refusals + if r.Refused? then 1 else 0;
    }

    /** `GET` of one document. */
    method Detail(id: nat) returns (r: Option<Doc>)
      requires Valid()
      modifies this`calls
      ensures Valid() && (old(FailureFree()) ==> FailureFree())
      ensures r.Some? ==> id in docs && r.value == docs[id]
      ensures old(FailureFree()) && id in docs ==> r.Some?
    {
      var o := outcome(calls);
      calls := calls + 1;
      r := if o.Done? && id in docs then Some(docs[id]) else None;
    }

    /** `GET` of the listing: every document once, in some order. */
    method List() returns (ok: bool, rows: seq<Row>)
      requires Valid()
      modifies this`calls
      ensures Valid() && (old(FailureFree()) ==> FailureFree() && ok)
      ensures ok ==> Listing(rows, docs)
    {
      ok := outcome(calls).Done?;
      calls := calls + 1;
      rows := [];
      var left := docs.Keys;
      while left != {}
        invariant calls == old(calls) + 1 && left <= docs.Keys && Listing(rows, docs - left)
        decreases |left|
      {
        var id :| id in left;
        ListOne(rows, docs - left, id, docs[id]);
        assert docs - (left - {id}) == (docs - left)[id := docs[id]];
        rows := rows + [Row(id, docs[id].title)];
        left := left - {id};
      }
      assert docs - left == docs;
    }
  }

  /** Every document is listed once, with its title. */
  ghost predicate Listing(rows: seq<Row>, docs: map<nat, Doc>) {
    if rows == [] then docs == map[]
    else
      var last := rows[|rows| - 1];
      last.id in docs && docs[last.id].title == last.title && Listing(rows[..|rows| - 1], docs - {last.id})
  }

  lemma ListOne(rows: seq<Row>, docs: map<nat, Doc>, id: nat, doc: Doc)
    requires Listing(rows, docs) && id !in docs
    ensures Listing(rows + [Row(id, doc.title)], docs[id := doc])
  {
    var all := rows + [Row(id, doc.title)];
    assert all[..|all| - 1] == rows;
    assert docs[id := doc] - {id} == docs;
  }

  // ---------------------------------------------------------------- rows by title

  /** The identifiers listed under a title, in order. */
  function Titled(rows: seq<Row>, title: string): seq<nat> {
    if rows == [] then []
    else
      var last := rows[|rows| - 1];
      Titled(rows[..|rows| - 1], title) + (if last.title == title then [last.id] else [])
  }

  function RowsOf(byTitle: map<string, seq<nat>>, title: string): seq<nat> {
    if title in byTitle then byTitle[title] else []
  }

  method GroupByTitle(rows: seq<Row>) returns (byTitle: map<string, seq<nat>>)
    ensures forall t :: RowsOf(byTitle, t) == Titled(rows, t)
  {
    byTitle := map[];
    for i := 0 to |rows|
      invariant forall t :: RowsOf(byTitle, t) == Titled(rows[..i], t)
    {
      assert rows[..i + 1][..i] == rows[..i];
      var row := rows[i];
      byTitle := byTitle[row.title := RowsOf(byTitle, row.title) + [row.id]];
    }
    assert rows[..|rows|] == rows;
  }

  /** The rows enumerate a set of identifiers, each once. */
  ghost predicate Enumerates(rows: seq<nat>, ids: set<nat>) {
    if rows == [] then ids == {}
    else
      var last := rows[|rows| - 1];
      last in ids && Enumerates(rows[..|rows| - 1], ids - {last})
  }

  lemma {:induction false} TitledEnumerates(rows: seq<Row>, docs: map<nat, Doc>, title: string)
    requires Listing(rows, docs)
    ensures Enumerates(Titled(rows, title), Ids(docs, title))
  {
    if rows == [] {
      assert Ids(docs, title) == {};
    } else {
      var init, last := rows[..|rows| - 1], rows[|rows| - 1];
      TitledEnumerates(init, docs - {last.id}, title);
      if last.title == title {
        assert Ids(docs - {last.id}, title) == Ids(docs, title) - {last.id};
        var all := Titled(init, title) + [last.id];
        assert all[..|all| - 1] == Titled(init, title);
      } else {
        assert Ids(docs - {last.id}, title) == Ids(docs, title);
        assert Titled(init, title) + [] == Titled(init, title);
      }
    }
  }

  lemma OneRow(rows: seq<nat>, ids: set<nat>)
    requires Enumerates(rows, ids) && |rows| == 1
    ensures ids == {rows[0]}
  {
    assert Enumerates(rows[..0], ids - {rows[0]});
  }

  lemma NoRows(rows: seq<nat>, ids: set<nat>)
    requires Enumerates(rows, ids)
    ensures rows == [] <==> ids == {}
  {}

  lemma {:induction false} EnumeratesPrefix(rows: seq<nat>, ids: set<nat>, i: nat)
    requires Enumerates(rows, ids) && i < |rows|
    ensures rows[i] in ids && rows[i] !in rows[..i]
  {
    var n := |rows| - 1;
    EnumeratesMembers(rows[..n], ids - {rows[n]});
    if i < n {
      EnumeratesPrefix(rows[..n], ids - {rows[n]}, i);
      assert rows[..n][..i] == rows[..i];
    }
  }

  lemma {:induction false} EnumeratesMembers(rows: seq<nat>, ids: set<nat>)
    requires Enumerates(rows, ids)
    ensures forall id :: id in rows <==> id in ids
  {
    if rows != [] {
      var n := |rows| - 1;
      EnumeratesMembers(rows[..n], ids - {rows[n]});
      assert rows == rows[..n] + [rows[n]];
    }
  }

  // ---------------------------------------------------------------- deleting the rows of a title

  /** The loop over the rows of one title: every row is deleted, failures are counted. */
  method DeleteRows(server: Server, rows: seq<nat>, ghost title: string)
    returns (deleted: nat, failed: nat, ghost gone: set<nat>)
    requires server.Valid() && Enumerates(rows, Ids(server.docs, title))
    modifies server
    ensures old(server.Sized()) ==> server.Sized()
    ensures server.Valid() && (old(server.FailureFree()) ==> server.FailureFree() && failed == 0)
    ensures server.docs == old(server.docs) - gone && gone <= Ids(old(server.docs), title)
    ensures server.nextId == old(server.nextId)
    ensures failed == 0 ==> gone == Ids(old(server.docs), title)
    ensures deleted + failed == |rows| && server.writes == old(server.writes) + |rows|
    ensures failed == 0 ==> server.size + deleted == old(server.size)
    ensures server.deletions == old(server.deletions) + deleted && server.creations == old(server.creations)
    ensures server.refusals == old(server.refusals) + failed
  {
    deleted, failed, gone := 0, 0, {};
    EnumeratesMembers(rows, Ids(server.docs, title));
    assert server.docs - gone == server.docs;
    for i := 0 to |rows|
      invariant old(server.Sized()) ==> server.Sized()
      invariant server.Valid() && (old(server.FailureFree()) ==> server.FailureFree() && failed == 0)
      invariant server.docs == old(server.docs) - gone && gone <= Ids(old(server.docs), title)
      invariant server.nextId == old(server.nextId)
      invariant Tried(rows, i, gone, failed == 0)
      invariant deleted + failed == i && server.writes == old(server.writes) + i
      invariant failed == 0 ==> server.size + deleted == old(server.size)
      invariant server.deletions == old(server.deletions) + deleted && server.creations == old(server.creations)
      invariant server.refusals == old(server.refusals) + failed
    {
      EnumeratesPrefix(rows, Ids(old(server.docs), title), i);
      ghost var before := server.docs;
      var removed := server.Delete(rows[i]);
      TriedNext(rows, i, gone, failed == 0);
      RemoveMore(old(server.docs), gone, rows[i]);
      if server.docs != before {
        gone := gone + {rows[i]};
      }
      if removed {
        deleted := deleted + 1;
      } else {
        failed := failed + 1;
      }
    }
    TriedAll(rows, Ids(old(server.docs), title), gone, failed == 0);
  }

  /** Only the first `i` rows are gone, and all of them if every call succeeded. */
  ghost predicate Tried(rows: seq<nat>, i: nat, gone: set<nat>, all: bool)
    requires i <= |rows|
  {
    (forall id :: id in gone ==> id in rows[..i]) && (all ==> forall id :: id in rows[..i] ==> id in gone)
  }

  lemma TriedNext(rows: seq<nat>, i: nat, gone: set<nat>, all: bool)
    requires i < |rows| && Tried(rows, i, gone, all) && rows[i] !in rows[..i]
    ensures rows[i] !in gone
    ensures Tried(rows, i + 1, gone + {rows[i]}, all) && Tried(rows, i + 1, gone, false)
    ensures Tried(rows, i + 1, gone + {rows[i]}, false)
  {
    assert rows[..i + 1] == rows[..i] + [rows[i]];
  }

  lemma TriedAll(rows: seq<nat>, ids: set<nat>, gone: set<nat>, all: bool)
    requires Tried(rows, |rows|, gone, all) && forall id :: id in rows <==> id in ids
    ensures gone <= ids && (all ==> gone == ids)
  {
    assert rows[..|rows|] == rows;
  }

  lemma RemoveMore(docs: map<nat, Doc>, gone: set<nat>, id: nat)
    ensures docs - gone - {id} == docs - (gone + {id})
    ensures id in docs && id !in gone ==> id in docs - gone
  {}

  // ---------------------------------------------------------------- one managed title

  datatype Counts = Counts(deleted: nat, created: nat, updated: nat, skipped: nat, failed: nat)

  /** The counters account for the number of documents: every one deleted or created was counted. */
  ghost predicate Balanced(before: int, b: Counts, after: int, a: Counts) {
    after + (a.deleted - b.deleted) == before + (a.created - b.created)
  }

  /** The counters are the confirmed deletions and creations and the refused requests since a state with `d`,
      `c` and `f` of these. */
  ghost predicate Tallied(server: Server, d: nat, c: nat, f: nat, before: Counts, after: Counts)
    reads server
  {
    && server.deletions - d == after.deleted - before.deleted
    && server.creations - c == after.created - before.created
    && server.refusals - f == after.failed - before.failed
  }

  /** Deleting, then creating, the documents of one title. */
  method Replace(server: Server, rows: seq<nat>, expected: Doc, before: Counts) returns (after: Counts, crashed: bool)
    requires server.Valid() && Enumerates(rows, Ids(server.docs, expected.title))
    modifies server
    ensures old(server.Sized()) ==> server.Sized()
    ensures server.Valid()
      && (old(server.FailureFree()) ==> server.FailureFree() && !crashed && after.failed == before.failed)
    ensures Outside(server.docs, {expected.title}) == Outside(old(server.docs), {expected.title})
    ensures Grown(old(server.docs), server.docs, expected)
    ensures before.failed <= after.failed && after.skipped == before.skipped
    ensures Tallied(server, old(server.deletions), old(server.creations), old(server.refusals), before, after)
    ensures old(server.FailureFree()) ==> !LeftAlone(old(server.docs), server.docs, expected.title)
    ensures !crashed && after.failed == before.failed ==>
      && Fresh(server.docs, expected) && after.created == before.created + 1
      && after.updated == before.updated + (if rows == [] then 0 else 1)
      && Balanced(old(server.size), before, server.size, after)
  {
    var deleted, failed, gone := DeleteRows(server, rows, expected.title);
    RemovedOutside(old(server.docs), gone, expected.title);
    after := before.(deleted := before.deleted + deleted, failed := before.failed + failed);
    crashed := false;
    RemovedGrown(old(server.docs), gone, expected);
    if failed == 0 {
      ghost var cleared, id := server.docs, server.nextId;
      var r := server.Create(expected);
      if server.docs != cleared {
        CreatedFresh(cleared, id, expected);
      }
      if r.Created? {
        after := after.(created := after.created + 1, updated := after.updated + (if rows != [] then 1 else 0));
      } else if r.Refused? {
        after := after.(failed := after.failed + 1);
      } else {
        crashed := true;
      }
    }
  }

  lemma RemovedGrown(docs: map<nat, Doc>, gone: set<nat>, expected: Doc)
    requires gone <= Ids(docs, expected.title)
    ensures Grown(docs, docs - gone, expected)
  {}

  lemma CreatedFresh(cleared: map<nat, Doc>, id: nat, expected: Doc)
    requires id !in cleared && Ids(cleared, expected.title) == {}
    ensures Fresh(cleared[id := expected], expected)
    ensures Outside(cleared[id := expected], {expected.title}) == Outside(cleared, {expected.title})
  {
    AddedOutside(cleared, id, expected);
    assert id in cleared[id := expected];
  }

  /** Exactly one document has the title, and it is the expected one, tags included. */
  ghost predicate Fresh(docs: map<nat, Doc>, expected: Doc) {
    exists id :: id in docs && Ids(docs, expected.title) == {id} && docs[id] == expected
  }

  /** Without failures a round leaves a title alone exactly when it was current and is not forced, and leaves
      exactly the expected document, tags included, unless it keeps one that passes the comparison and differs. */
  ghost predicate AsExpected(before: map<nat, Doc>, after: map<nat, Doc>, expected: Doc, force: bool) {
    && (Fresh(after, expected) <==> force || !Current(before, expected) || Fresh(before, expected))
    && (LeftAlone(before, after, expected.title) <==> !force && Current(before, expected))
  }

  /** The documents of a title are some of the old ones, or the expected one alone. */
  ghost predicate Grown(before: map<nat, Doc>, after: map<nat, Doc>, expected: Doc) {
    || (Ids(after, expected.title) <= Ids(before, expected.title) &&
        forall id :: id in Ids(after, expected.title) ==> after[id] == before[id])
    || Fresh(after, expected)
  }

  /** One round of the loop over the managed corpus. */
  method SyncTitle(server: Server, rows: seq<nat>, expected: Doc, force: bool, before: Counts)
    returns (after: Counts, crashed: bool)
    requires server.Valid() && Enumerates(rows, Ids(server.docs, expected.title))
    modifies server
    ensures old(server.Sized()) ==> server.Sized()
    ensures server.Valid()
      && (old(server.FailureFree()) ==> server.FailureFree() && !crashed && after.failed == before.failed)
    ensures Outside(server.docs, {expected.title}) == Outside(old(server.docs), {expected.title})
    ensures Grown(old(server.docs), server.docs, expected)
    ensures before.failed <= after.failed
    ensures Tallied(server, old(server.deletions), old(server.creations), old(server.refusals), before, after)
    ensures !crashed && after.failed == before.failed ==>
      && Current(server.docs, expected) && after.skipped + after.created == before.skipped + before.created + 1
      && after.created - after.updated == before.created - before.updated + (if rows == [] then 1 else 0)
      && Balanced(old(server.size), before, server.size, after)
    ensures !crashed && after.failed == before.failed && force ==> Fresh(server.docs, expected)
    ensures old(server.FailureFree()) ==> AsExpected(old(server.docs), server.docs, expected, force)
    ensures old(server.FailureFree()) && !force && Current(old(server.docs), expected) ==>
      server.docs == old(server.docs) && server.writes == old(server.writes)
        && after == before.(skipped := before.skipped + 1)
  {
    var keep := false;
    if !force && |rows| == 1 {
      OneRow(rows, Ids(server.docs, expected.title));
      var detail := server.Detail(rows[0]);
      keep := detail.Some? && UpToDate(detail.value, expected);
    }
    if keep {
      assert Current(server.docs, expected);
      return before.(skipped := before.skipped + 1), false;
    }
    if Current(server.docs, expected) {
      CurrentHasOneRow(server.docs, rows, expected);
    }
    after, crashed := Replace(server, rows, expected, before);
  }

  lemma CurrentHasOneRow(docs: map<nat, Doc>, rows: seq<nat>, expected: Doc)
    requires Current(docs, expected) && Enumerates(rows, Ids(docs, expected.title))
    ensures |rows| == 1 && rows[0] in docs && UpToDate(docs[rows[0]], expected)
  {
    EnumeratesMembers(rows, Ids(docs, expected.title));
    var id :| id in docs && Ids(docs, expected.title) == {id} && UpToDate(docs[id], expected);
    assert rows != [];
    var n := |rows| - 1;
    assert rows[n] == id && Ids(docs, expected.title) - {id} == {};
    NoRows(rows[..n], {});
  }

  // ---------------------------------------------------------------- the whole run

  datatype Run = ListFailed | Aborted(counts: Counts) | Finished(counts: Counts)

  ghost function Prefix(titles: seq<string>, i: nat): set<string>
    requires i <= |titles|
  {
    set t | t in titles[..i]
  }

  lemma PrefixNext(titles: seq<string>, i: nat)
    requires i < |titles|
    ensures Prefix(titles, i + 1) == Prefix(titles, i) + {titles[i]}
  {
    assert titles[..i + 1] == titles[..i] + [titles[i]];
  }

  lemma NotInPrefix(titles: seq<string>, i: nat)
    requires i < |titles| && Sorting.Distinct(titles)
    ensures titles[i] !in Prefix(titles, i)
  {}

  /** The managed corpus: titles in order, and the document of each. */
  ghost predicate Corpus(order: seq<string>, expected: map<string, Doc>) {
    && Sorting.Distinct(order)
    && (forall t :: t in order <==> t in expected)
    && Keyed(expected)
  }

  ghost predicate Grouped(byTitle: map<string, seq<nat>>, docs: map<nat, Doc>) {
    forall t :: Enumerates(RowsOf(byTitle, t), Ids(docs, t))
  }

  lemma ListingGroups(rows: seq<Row>, docs: map<nat, Doc>, byTitle: map<string, seq<nat>>)
    requires Listing(rows, docs) && forall t :: RowsOf(byTitle, t) == Titled(rows, t)
    ensures Grouped(byTitle, docs)
  {
    forall t ensures Enumerates(RowsOf(byTitle, t), Ids(docs, t)) {
      TitledEnumerates(rows, docs, t);
    }
  }

  ghost predicate NoneTitled(docs: map<nat, Doc>, titles: set<string>) {
    forall t :: t in titles ==> Ids(docs, t) == {}
  }

  /** No legacy document is left, and every managed title has exactly one up-to-date document. */
  ghost predicate Converged(docs: map<nat, Doc>, expected: map<string, Doc>, legacy: set<string>) {
    NoneTitled(docs, legacy) && forall t :: t in expected ==> Current(docs, expected[t])
  }

  /** What every run keeps, whatever fails: documents with other titles are untouched, legacy documents
      are only removed, and under a managed title there are only old documents or the expected one. */
  ghost predicate Safe(before: map<nat, Doc>, after: map<nat, Doc>, expected: map<string, Doc>, legacy: set<string>) {
    && Outside(after, legacy + expected.Keys) == Outside(before, legacy + expected.Keys)
    && (forall t :: t in legacy ==> Ids(after, t) <= Ids(before, t))
    && (forall t :: t in expected ==> Grown(before, after, expected[t]))
  }

  lemma ChainOutside(a: map<nat, Doc>, b: map<nat, Doc>, c: map<nat, Doc>, done: set<string>, t: string)
    requires Outside(b, done) == Outside(a, done) && Outside(c, {t}) == Outside(b, {t})
    ensures Outside(c, done + {t}) == Outside(a, done + {t})
  {
    OutsideGrows(b, a, done, done + {t});
    OutsideGrows(c, b, {t}, done + {t});
  }

  lemma SameIds(a: map<nat, Doc>, b: map<nat, Doc>, titles: set<string>, others: set<string>)
    requires Outside(a, titles) == Outside(b, titles) && titles !! others
    ensures forall t :: t in others ==> Ids(a, t) == Ids(b, t)
  {
    forall t | t in others ensures Ids(a, t) == Ids(b, t) {
      OutsideKeepsIds(a, b, titles, t);
    }
  }

  lemma NoneGone(docs: map<nat, Doc>)
    ensures docs - {} == docs
  {}

  /** Under these titles documents were only removed. */
  ghost predicate Shrunk(before: map<nat, Doc>, after: map<nat, Doc>, titles: set<string>) {
    forall t :: t in titles ==> Ids(after, t) <= Ids(before, t)
  }

  /** One step of the loop over the legacy titles. */
  lemma LegacyStep(docs0: map<nat, Doc>, before: map<nat, Doc>, gone: set<nat>, done: set<string>, title: string)
    requires Outside(before, done) == Outside(docs0, done) && Shrunk(docs0, before, done) && title !in done
    requires gone <= Ids(before, title)
    ensures Outside(before - gone, done + {title}) == Outside(docs0, done + {title})
    ensures Shrunk(docs0, before - gone, done + {title})
    ensures NoneTitled(before, done) && gone == Ids(before, title) ==> NoneTitled(before - gone, done + {title})
  {
    RemovedOutside(before, gone, title);
    OutsideKeepsIds(docs0, before, done, title);
    ChainOutside(docs0, before, before - gone, done, title);
    SameIds(before - gone, before, {title}, done);
  }

  /** The loop over the legacy titles. */
  method DeleteLegacy(server: Server, byTitle: map<string, seq<nat>>, legacy: seq<string>) returns (counts: Counts)
    requires server.Valid() && Grouped(byTitle, server.docs) && Sorting.Distinct(legacy)
    modifies server
    ensures old(server.Sized()) ==> server.Sized()
    ensures server.Valid() && (old(server.FailureFree()) ==> server.FailureFree() && counts.failed == 0)
    ensures Outside(server.docs, Prefix(legacy, |legacy|)) == Outside(old(server.docs), Prefix(legacy, |legacy|))
    ensures Shrunk(old(server.docs), server.docs, Prefix(legacy, |legacy|))
    ensures counts.failed == 0 ==>
      NoneTitled(server.docs, Prefix(legacy, |legacy|)) && server.size + counts.deleted == old(server.size)
    ensures counts == Counts(counts.deleted, 0, 0, 0, counts.failed)
    ensures Tallied(server, old(server.deletions), old(server.creations), old(server.refusals), Counts(0, 0, 0, 0, 0),
      counts)
    ensures old(NoneTitled(server.docs, Prefix(legacy, |legacy|))) ==>
      server.docs == old(server.docs) && server.writes == old(server.writes) && counts == Counts(0, 0, 0, 0, 0)
  {
    var deleted, failed := 0, 0;
    ghost var docs0 := server.docs;
    for i := 0 to |legacy|
      invariant old(server.Sized()) ==> server.Sized()
      invariant server.Valid() && (old(server.FailureFree()) ==> server.FailureFree() && failed == 0)
      invariant Outside(server.docs, Prefix(legacy, i)) == Outside(docs0, Prefix(legacy, i))
      invariant Shrunk(docs0, server.docs, Prefix(legacy, i))
      invariant failed == 0 ==> NoneTitled(server.docs, Prefix(legacy, i)) && server.size + deleted == old(server.size)
      invariant Tallied(server, old(server.deletions), old(server.creations), old(server.refusals),
                        Counts(0, 0, 0, 0, 0), Counts(deleted, 0, 0, 0, failed))
      invariant NoneTitled(docs0, Prefix(legacy, |legacy|)) ==>
        server.docs == docs0 && server.writes == old(server.writes) && deleted == failed == 0
    {
      PrefixNext(legacy, i);
      NotInPrefix(legacy, i);
      ghost var before, done := server.docs, Prefix(legacy, i);
      LegacyRows(byTitle, docs0, before, done, legacy, i);
      var d, f, gone := DeleteRows(server, RowsOf(byTitle, legacy[i]), legacy[i]);
      LegacyStep(docs0, before, gone, done, legacy[i]);
      NoneGone(before);
      deleted, failed := deleted + d, failed + f;
    }
    counts := Counts(deleted, 0, 0, 0, failed);
  }

  lemma LegacyRows(byTitle: map<string, seq<nat>>, docs0: map<nat, Doc>, before: map<nat, Doc>, done: set<string>,
                   legacy: seq<string>, i: nat)
    requires i < |legacy| && legacy[i] !in done && Grouped(byTitle, docs0)
      && Outside(before, done) == Outside(docs0, done)
    ensures Enumerates(RowsOf(byTitle, legacy[i]), Ids(before, legacy[i]))
    ensures NoneTitled(docs0, Prefix(legacy, |legacy|)) ==>
      RowsOf(byTitle, legacy[i]) == [] && Ids(before, legacy[i]) == {}
  {
    OutsideKeepsIds(docs0, before, done, legacy[i]);
    assert Enumerates(RowsOf(byTitle, legacy[i]), Ids(docs0, legacy[i]));
    NoRows(RowsOf(byTitle, legacy[i]), Ids(docs0, legacy[i]));
    assert legacy[..|legacy|] == legacy;
    assert legacy[i] in Prefix(legacy, |legacy|);
  }

  lemma GrownOutside(a: map<nat, Doc>, b: map<nat, Doc>, c: map<nat, Doc>, titles: set<string>, e: Doc)
    requires Grown(a, b, e) && Outside(c, titles) == Outside(b, titles) && e.title !in titles
    ensures Grown(a, c, e)
  {
    OutsideKeepsIds(c, b, titles, e.title);
    if Fresh(b, e) {
      var id :| id in b && Ids(b, e.title) == {id} && b[id] == e;
      assert id in Ids(c, e.title);
    }
  }

  lemma GrownFrom(a: map<nat, Doc>, b: map<nat, Doc>, c: map<nat, Doc>, titles: set<string>, e: Doc)
    requires Grown(b, c, e) && Outside(a, titles) == Outside(b, titles) && e.title !in titles
    ensures Grown(a, c, e)
  {
    OutsideKeepsIds(a, b, titles, e.title);
  }

  ghost predicate AllGrown(a: map<nat, Doc>, b: map<nat, Doc>, expected: map<string, Doc>, titles: set<string>) {
    forall t :: t in titles && t in expected ==> Grown(a, b, expected[t])
  }

  ghost predicate AllCurrent(docs: map<nat, Doc>, expected: map<string, Doc>, titles: set<string>) {
    forall t :: t in titles && t in expected ==> Current(docs, expected[t])
  }

  ghost predicate AllFresh(docs: map<nat, Doc>, expected: map<string, Doc>, titles: set<string>) {
    forall t :: t in titles && t in expected ==> Fresh(docs, expected[t])
  }

  ghost predicate AllAsExpected(a: map<nat, Doc>, b: map<nat, Doc>, expected: map<string, Doc>, titles: set<string>,
                                force: bool)
  {
    forall t :: t in titles && t in expected ==> AsExpected(a, b, expected[t], force)
  }

  /** What holds of a title depends on its documents only. */
  lemma SameTitle(a: map<nat, Doc>, b: map<nat, Doc>, titles: set<string>, e: Doc)
    requires Outside(a, titles) == Outside(b, titles) && e.title !in titles
    ensures Current(a, e) <==> Current(b, e)
    ensures Fresh(a, e) <==> Fresh(b, e)
  {
    SameTitleOneWay(a, b, titles, e);
    SameTitleOneWay(b, a, titles, e);
  }

  lemma SameTitleOneWay(a: map<nat, Doc>, b: map<nat, Doc>, titles: set<string>, e: Doc)
    requires Outside(a, titles) == Outside(b, titles) && e.title !in titles
    ensures Current(a, e) ==> Current(b, e)
    ensures Fresh(a, e) ==> Fresh(b, e)
  {
    OutsideKeepsIds(a, b, titles, e.title);
    if Current(a, e) {
      OutsideKeepsCurrent(a, b, titles, e);
    }
    if Fresh(a, e) {
      var id :| id in a && Ids(a, e.title) == {id} && a[id] == e;
      assert id in Ids(b, e.title);
    }
  }

  /** How far the loop over the managed titles has come: `ok` while no call failed, `free` if none can. */
  ghost predicate Progress(a: map<nat, Doc>, b: map<nat, Doc>, expected: map<string, Doc>, done: set<string>,
                           force: bool, ok: bool, free: bool)
  {
    && Outside(b, done) == Outside(a, done)
    && AllGrown(a, b, expected, done)
    && (ok ==> AllCurrent(b, expected, done))
    && (ok && force ==> AllFresh(b, expected, done))
    && (free ==> AllAsExpected(a, b, expected, done, force))
  }

  /** What one round guarantees of its own title. */
  ghost predicate RoundDone(b: map<nat, Doc>, c: map<nat, Doc>, e: Doc, force: bool, ok: bool, free: bool) {
    && Outside(c, {e.title}) == Outside(b, {e.title})
    && Grown(b, c, e)
    && (ok ==> Current(c, e))
    && (ok && force ==> Fresh(c, e))
    && (free ==> AsExpected(b, c, e, force))
  }

  ghost predicate Keyed(expected: map<string, Doc>) {
    forall x :: x in expected ==> expected[x].title == x
  }

  lemma NothingDone(a: map<nat, Doc>, expected: map<string, Doc>, force: bool, ok: bool, free: bool)
    ensures Progress(a, a, expected, {}, force, ok, free)
  {}

  /** What held of the titles that are done still does. */
  lemma DoneStays(a: map<nat, Doc>, b: map<nat, Doc>, c: map<nat, Doc>, expected: map<string, Doc>, done: set<string>,
                  t: string, force: bool, ok: bool, free: bool, x: string)
    requires Keyed(expected) && t !in done && x in done && x in expected
    requires Progress(a, b, expected, done, force, ok, free) && Outside(c, {t}) == Outside(b, {t})
    ensures Grown(a, c, expected[x])
    ensures ok ==> Current(c, expected[x])
    ensures ok && force ==> Fresh(c, expected[x])
    ensures free ==> AsExpected(a, c, expected[x], force)
  {
    GrownOutside(a, b, c, {t}, expected[x]);
    SameTitle(c, b, {t}, expected[x]);
    AloneElsewhere(a, b, c, {t}, x);
  }

  /** One round of the loop. */
  lemma ProgressStep(a: map<nat, Doc>, b: map<nat, Doc>, c: map<nat, Doc>, expected: map<string, Doc>,
                     done: set<string>, t: string, force: bool, before: bool, ok: bool, free: bool)
    requires Keyed(expected) && t in expected && t !in done && (ok ==> before)
    requires Progress(a, b, expected, done, force, before, free) && RoundDone(b, c, expected[t], force, ok, free)
    ensures Progress(a, c, expected, done + {t}, force, ok, free)
  {
    ChainOutside(a, b, c, done, t);
    GrownFrom(a, b, c, done, expected[t]);
    SameTitle(a, b, done, expected[t]);
    AloneElsewhere(c, a, b, done, t);
    forall x | x in done && x in expected
      ensures Grown(a, c, expected[x]) && (ok ==> Current(c, expected[x])) && (ok && force ==> Fresh(c, expected[x]))
      ensures free ==> AsExpected(a, c, expected[x], force)
    {
      DoneStays(a, b, c, expected, done, t, force, before, free, x);
    }
  }

  /** Titles that are not reached keep their documents. */
  lemma UnreachedGrown(a: map<nat, Doc>, b: map<nat, Doc>, expected: map<string, Doc>, done: set<string>)
    requires Keyed(expected) && AllGrown(a, b, expected, done) && Outside(b, done) == Outside(a, done)
    ensures AllGrown(a, b, expected, expected.Keys)
  {
    forall x | x in expected && x !in done ensures Grown(a, b, expected[x]) {
      OutsideKeepsIds(a, b, done, x);
    }
  }

  /** How many titles have no document. */
  ghost function Absent(order: seq<string>, docs: map<nat, Doc>): nat {
    if order == [] then 0
    else Absent(order[..|order| - 1], docs) + (if Ids(docs, order[|order| - 1]) == {} then 1 else 0)
  }

  lemma AbsentNext(order: seq<string>, docs: map<nat, Doc>, i: nat)
    requires i < |order|
    ensures Absent(order[..i + 1], docs) == Absent(order[..i], docs) + (if Ids(docs, order[i]) == {} then 1 else 0)
  {
    assert order[..i + 1][..i] == order[..i];
  }

  lemma NextTitle(order: seq<string>, docs: map<nat, Doc>, i: nat)
    requires i < |order| && Sorting.Distinct(order)
    ensures order[i] !in Prefix(order, i) && Prefix(order, i + 1) == Prefix(order, i) + {order[i]}
    ensures Absent(order[..i + 1], docs) == Absent(order[..i], docs) + (if Ids(docs, order[i]) == {} then 1 else 0)
  {
    PrefixNext(order, i);
    NotInPrefix(order, i);
    AbsentNext(order, docs, i);
  }

  /** The loop over the managed titles. */
  method SyncManaged(server: Server, byTitle: map<string, seq<nat>>, order: seq<string>, expected: map<string, Doc>,
                     force: bool, before: Counts) returns (counts: Counts, crashed: bool)
    requires server.Valid() && Corpus(order, expected) && before.skipped == before.created == 0
    requires forall t :: t in expected ==> Enumerates(RowsOf(byTitle, t), Ids(server.docs, t))
    modifies server
    ensures old(server.Sized()) ==> server.Sized()
    ensures server.Valid()
      && (old(server.FailureFree()) ==> server.FailureFree() && !crashed && counts.failed == before.failed)
    ensures Outside(server.docs, expected.Keys) == Outside(old(server.docs), expected.Keys)
    ensures AllGrown(old(server.docs), server.docs, expected, expected.Keys)
    ensures before.failed <= counts.failed
    ensures Tallied(server, old(server.deletions), old(server.creations), old(server.refusals), before, counts)
    ensures !crashed && counts.failed == before.failed ==>
      && AllCurrent(server.docs, expected, expected.Keys) && counts.skipped + counts.created == |order|
      && counts.created - (counts.updated - before.updated) == Absent(order, old(server.docs))
      && Balanced(old(server.size), before, server.size, counts)
    ensures !crashed && counts.failed == before.failed && force ==> AllFresh(server.docs, expected, expected.Keys)
    ensures old(server.FailureFree()) ==> AllAsExpected(old(server.docs), server.docs, expected, expected.Keys, force)
    ensures old(server.FailureFree()) && !force && AllCurrent(old(server.docs), expected, expected.Keys) ==>
      server.docs == old(server.docs) && server.writes == old(server.writes) && counts == before.(skipped := |order|)
  {
    counts, crashed := before, false;
    ghost var docs0, free := server.docs, server.FailureFree();
    NothingDone(docs0, expected, force, true, free);
    for i := 0 to |order|
      invariant old(server.Sized()) ==> server.Sized()
      invariant server.Valid() && before.failed <= counts.failed
      invariant Tallied(server, old(server.deletions), old(server.creations), old(server.refusals), before, counts)
      invariant free ==> server.FailureFree() && counts.failed == before.failed
      invariant Progress(docs0, server.docs, expected, Prefix(order, i), force, counts.failed == before.failed, free)
      invariant counts.failed == before.failed ==>
        Counted(before, counts, i, Absent(order[..i], docs0), old(server.size), server.size)
      invariant free && !force && AllCurrent(docs0, expected, expected.Keys) ==>
        server.docs == docs0 && server.writes == old(server.writes) && counts == before.(skipped := i)
    {
      ghost var done := Prefix(order, i);
      NextTitle(order, docs0, i);
      counts, crashed :=
        SyncNext(server, byTitle, order[i], expected, force, counts, docs0, done, counts.failed == before.failed, free);
      if crashed {
        UnreachedGrown(docs0, server.docs, expected, done + {order[i]});
        OutsideGrows(server.docs, docs0, done + {order[i]}, expected.Keys);
        return;
      }
    }
    WholeOrder(order, expected);
  }

  lemma WholeOrder(order: seq<string>, expected: map<string, Doc>)
    requires Corpus(order, expected)
    ensures order[..|order|] == order && Prefix(order, |order|) == expected.Keys
  {}

  /** What the counters say after `n` managed titles, `absent` of which had no document. */
  ghost predicate Counted(before: Counts, after: Counts, n: nat, absent: nat, size0: int, size: int) {
    && after.skipped + after.created == n
    && after.created - (after.updated - before.updated) == absent
    && Balanced(size0, before, size, after)
  }

  /** One round for the next title of the loop. */
  method SyncNext(server: Server, byTitle: map<string, seq<nat>>, title: string, expected: map<string, Doc>,
                  force: bool, before: Counts, ghost docs0: map<nat, Doc>, ghost done: set<string>, ghost ok: bool,
                  ghost free: bool)
    returns (after: Counts, crashed: bool)
    requires server.Valid() && Keyed(expected) && title in expected && title !in done
    requires Enumerates(RowsOf(byTitle, title), Ids(docs0, title))
    requires Progress(docs0, server.docs, expected, done, force, ok, free) && (free ==> server.FailureFree())
    modifies server
    ensures old(server.Sized()) ==> server.Sized()
    ensures server.Valid() && before.failed <= after.failed
    ensures Tallied(server, old(server.deletions), old(server.creations), old(server.refusals), before, after)
    ensures free ==> server.FailureFree() && !crashed && after.failed == before.failed
    ensures crashed ==>
      Outside(server.docs, done + {title}) == Outside(docs0, done + {title})
        && AllGrown(docs0, server.docs, expected, done + {title})
    ensures !crashed ==>
      Progress(docs0, server.docs, expected, done + {title}, force, ok && after.failed == before.failed, free)
    ensures !crashed && after.failed == before.failed ==>
      && after.skipped + after.created == before.skipped + before.created + 1
      && after.created - after.updated == before.created - before.updated + (if Ids(docs0, title) == {} then 1 else 0)
      && Balanced(old(server.size), before, server.size, after)
    ensures free && !force && Current(old(server.docs), expected[title]) ==>
      server.docs == old(server.docs) && server.writes == old(server.writes)
        && after == before.(skipped := before.skipped + 1)
  {
    ghost var earlier := server.docs;
    OutsideKeepsIds(docs0, earlier, done, title);
    NoRows(RowsOf(byTitle, title), Ids(docs0, title));
    after, crashed := SyncTitle(server, RowsOf(byTitle, title), expected[title], force, before);
    ProgressStep(docs0, earlier, server.docs, expected, done, title, force, ok,
                 ok && !crashed && after.failed == before.failed, free);
  }

  predicate Succeeded(r: Run) {
    r.Finished? && r.counts.failed == 0
  }

  /** Convergence and what is left alone, without speaking of the comparison. */
  lemma WhatIsHeld(before: map<nat, Doc>, after: map<nat, Doc>, expected: map<string, Doc>, force: bool)
    requires Keyed(expected)
    ensures AllCurrent(after, expected, expected.Keys) ==> HoldsAll(after, expected)
    ensures AllAsExpected(before, after, expected, expected.Keys, force) ==>
      LeftExactly(before, after, expected, force)
  {
    forall t | t in expected
      ensures Current(before, expected[t]) <==> HoldsOne(before, t, expected[t].content, expected[t].docType)
      ensures Current(after, expected[t]) <==> HoldsOne(after, t, expected[t].content, expected[t].docType)
    {
      CurrentExactlyWhen(before, expected[t]);
      CurrentExactlyWhen(after, expected[t]);
    }
  }

  /** Both loops, for a listing of the store. */
  method SyncListed(server: Server, byTitle: map<string, seq<nat>>, order: seq<string>, expected: map<string, Doc>,
                    legacy: seq<string>, force: bool) returns (counts: Counts, crashed: bool)
    requires server.Valid() && Corpus(order, expected) && Sorting.Distinct(legacy)
      && Prefix(legacy, |legacy|) !! expected.Keys
    requires Grouped(byTitle, server.docs)
    modifies server
    ensures old(server.Sized()) ==> server.Sized()
    ensures server.Valid() && (old(server.FailureFree()) ==> server.FailureFree() && !crashed && counts.failed == 0)
    ensures Safe(old(server.docs), server.docs, expected, Prefix(legacy, |legacy|))
    ensures Tallied(server, old(server.deletions), old(server.creations), old(server.refusals), Counts(0, 0, 0, 0, 0),
      counts)
    ensures !crashed && counts.failed == 0 ==>
      && Converged(server.docs, expected, Prefix(legacy, |legacy|)) && counts.skipped + counts.created == |order|
      && server.size == old(server.size) - counts.deleted + counts.created
      && counts.created - counts.updated == Absent(order, old(server.docs))
    ensures !crashed && counts.failed == 0 ==> HoldsAll(server.docs, expected)
    ensures !crashed && counts.failed == 0 && force ==> AllFresh(server.docs, expected, expected.Keys)
    ensures old(server.FailureFree()) ==> AllAsExpected(old(server.docs), server.docs, expected, expected.Keys, force)
    ensures old(server.FailureFree()) ==> LeftExactly(old(server.docs), server.docs, expected, force)
    ensures old(server.FailureFree()) && !force && Converged(old(server.docs), expected, Prefix(legacy, |legacy|)) ==>
      server.docs == old(server.docs) && server.writes == old(server.writes) && counts == Counts(0, 0, 0, |order|, 0)
  {
    ghost var docs0, titles := server.docs, Prefix(legacy, |legacy|);
    counts := DeleteLegacy(server, byTitle, legacy);
    ghost var middle := server.docs;
    LegacyKeepsManaged(byTitle, docs0, middle, order, expected, titles);
    counts, crashed := SyncManaged(server, byTitle, order, expected, force, counts);
    RunIsSafe(docs0, middle, server.docs, expected, titles);
    ConvergedParts(docs0, expected, titles);
    ExpectedFrom(docs0, middle, server.docs, expected, titles, force);
    WhatIsHeld(docs0, server.docs, expected, force);
  }

  /** Deleting legacy documents changes nothing for the managed titles. */
  lemma ExpectedFrom(a: map<nat, Doc>, b: map<nat, Doc>, c: map<nat, Doc>, expected: map<string, Doc>,
                     legacy: set<string>, force: bool)
    requires Keyed(expected) && legacy !! expected.Keys && Outside(b, legacy) == Outside(a, legacy)
    ensures AllAsExpected(b, c, expected, expected.Keys, force) ==> AllAsExpected(a, c, expected, expected.Keys, force)
  {
    forall t | t in expected ensures AsExpected(b, c, expected[t], force) ==> AsExpected(a, c, expected[t], force) {
      SameTitle(a, b, legacy, expected[t]);
      AloneElsewhere(c, a, b, legacy, t);
    }
  }

  /** The listing, grouped by title. */
  method ListByTitle(server: Server) returns (ok: bool, byTitle: map<string, seq<nat>>)
    requires server.Valid()
    modifies server`calls
    ensures server.Valid() && (old(server.FailureFree()) ==> server.FailureFree() && ok)
    ensures ok ==> Grouped(byTitle, server.docs)
  {
    var rows;
    ok, rows := server.List();
    byTitle := GroupByTitle(rows);
    if ok {
      ListingGroups(rows, server.docs, byTitle);
    }
  }

  /** `main`: whatever fails, the run is safe; a run that reports success has converged, each managed
      document was either skipped or created, and the counters account for every document. Without
      failures a run succeeds; it leaves exactly the expected document under a managed title, tags included,
      if and only if it was forced, the title was not current, or that document was there already; and if
      nothing needs to change and nothing is forced, it writes nothing. */
  method Sync(server: Server, order: seq<string>, expected: map<string, Doc>, legacy: seq<string>, force: bool)
    returns (r: Run)
    requires server.Valid() && Corpus(order, expected) && Sorting.Distinct(legacy)
      && Prefix(legacy, |legacy|) !! expected.Keys
    modifies server
    ensures old(server.Sized()) ==> server.Sized()
    ensures server.Valid()
    ensures Safe(old(server.docs), server.docs, expected, Prefix(legacy, |legacy|))
    ensures !r.ListFailed? ==>
      && server.deletions == old(server.deletions) + r.counts.deleted
      && server.creations == old(server.creations) + r.counts.created
      && server.refusals == old(server.refusals) + r.counts.failed
    ensures Succeeded(r) ==>
      && Converged(server.docs, expected, Prefix(legacy, |legacy|)) && r.counts.skipped + r.counts.created == |order|
      && server.size == old(server.size) - r.counts.deleted + r.counts.created
      && r.counts.created - r.counts.updated == Absent(order, old(server.docs))
    ensures Succeeded(r) ==> HoldsAll(server.docs, expected)
    ensures Succeeded(r) && force ==> AllFresh(server.docs, expected, expected.Keys)
    ensures old(server.FailureFree()) ==> server.FailureFree() && Succeeded(r)
    ensures old(server.FailureFree()) ==> AllAsExpected(old(server.docs), server.docs, expected, expected.Keys, force)
    ensures old(server.FailureFree()) ==> LeftExactly(old(server.docs), server.docs, expected, force)
    ensures !force && old(server.FailureFree() && Converged(server.docs, expected, Prefix(legacy, |legacy|))) ==>
      server.docs == old(server.docs) && server.writes == old(server.writes)
        && r == Finished(Counts(0, 0, 0, |order|, 0))
  {
    var ok, byTitle := ListByTitle(server);
    if !ok {
      UnchangedIsSafe(server.docs, expected, Prefix(legacy, |legacy|));
      return ListFailed;
    }
    assert server.docs == old(server.docs) && server.size == old(server.size) && server.writes == old(server.writes);
    var counts, crashed := SyncListed(server, byTitle, order, expected, legacy, force);
    r := if crashed then Aborted(counts) else Finished(counts);
  }

  lemma ConvergedParts(docs: map<nat, Doc>, expected: map<string, Doc>, legacy: set<string>)
    ensures Converged(docs, expected, legacy) ==> NoneTitled(docs, legacy) && AllCurrent(docs, expected, expected.Keys)
  {}

  lemma LegacyKeepsManaged(byTitle: map<string, seq<nat>>, docs0: map<nat, Doc>, middle: map<nat, Doc>,
                           order: seq<string>, expected: map<string, Doc>, legacy: set<string>)
    requires Grouped(byTitle, docs0) && Outside(middle, legacy) == Outside(docs0, legacy) && legacy !! expected.Keys
    requires Corpus(order, expected)
    ensures forall t :: t in expected ==> Enumerates(RowsOf(byTitle, t), Ids(middle, t))
    ensures Absent(order, middle) == Absent(order, docs0)
  {
    SameIds(middle, docs0, legacy, expected.Keys);
    SameAbsent(order, middle, docs0);
  }

  lemma {:induction false} SameAbsent(order: seq<string>, a: map<nat, Doc>, b: map<nat, Doc>)
    requires forall t :: t in order ==> Ids(a, t) == Ids(b, t)
    ensures Absent(order, a) == Absent(order, b)
  {
    if order != [] {
      SameAbsent(order[..|order| - 1], a, b);
    }
  }

  lemma UnchangedIsSafe(docs: map<nat, Doc>, expected: map<string, Doc>, legacy: set<string>)
    ensures Safe(docs, docs, expected, legacy)
  {}

  lemma RunIsSafe(a: map<nat, Doc>, b: map<nat, Doc>, c: map<nat, Doc>, expected: map<string, Doc>, legacy: set<string>)
    requires Keyed(expected) && legacy !! expected.Keys
    requires Outside(b, legacy) == Outside(a, legacy) && Shrunk(a, b, legacy)
    requires Outside(c, expected.Keys) == Outside(b, expected.Keys) && AllGrown(b, c, expected, expected.Keys)
    ensures Safe(a, c, expected, legacy)
    ensures NoneTitled(b, legacy) && AllCurrent(c, expected, expected.Keys) ==> Converged(c, expected, legacy)
  {
    var all := legacy + expected.Keys;
    OutsideGrows(b, a, legacy, all);
    OutsideGrows(c, b, expected.Keys, all);
    SameIds(c, b, expected.Keys, legacy);
    forall t | t in expected ensures Grown(a, c, expected[t]) {
      GrownFrom(a, b, c, legacy, expected[t]);
    }
  }

  /** A document whose title is neither managed nor legacy survives every run unchanged, and no such
      document appears. */
  lemma ForeignDocumentsSurvive(before: map<nat, Doc>, after: map<nat, Doc>, expected: map<string, Doc>,
                                legacy: set<string>, id: nat)
    requires Safe(before, after, expected, legacy)
    ensures id in before && before[id].title !in legacy && before[id].title !in expected ==>
      id in after && after[id] == before[id]
    ensures id in after && after[id].title !in legacy && after[id].title !in expected ==>
      id in before && after[id] == before[id]
  {
    var all := legacy + expected.Keys;
    if id in before && before[id].title !in all {
      assert id in Outside(before, all) && Outside(after, all)[id] == before[id];
    }
    if id in after && after[id].title !in all {
      assert id in Outside(after, all) && Outside(before, all)[id] == after[id];
    }
  }

  /** No run multiplies documents: a managed title has at most as many as before, or exactly one. */
  lemma NoDuplicates(before: map<nat, Doc>, after: map<nat, Doc>, expected: map<string, Doc>, legacy: set<string>,
                     t: string)
    requires Safe(before, after, expected, legacy) && t in expected && expected[t].title == t
    ensures |Ids(after, t)| <= |Ids(before, t)| || |Ids(after, t)| == 1
  {
    if Ids(after, t) <= Ids(before, t) {
      SubsetIsSmaller(Ids(after, t), Ids(before, t));
    } else {
      assert Grown(before, after, expected[t]) && Fresh(after, expected[t]);
    }
  }

  lemma {:induction false} SubsetIsSmaller<T>(a: set<T>, b: set<T>)
    requires a <= b
    ensures |a| <= |b|
  {
    assert b == a + (b - a);
    assert a !! (b - a);
  }

  /** From any store, also one left behind by a failed run: one run without failures converges, and a
      second one, not forced, changes nothing and writes nothing. `middle` and `writes` are the store and the
      number of writing requests between the two. */
  method SyncTwice(server: Server, order: seq<string>, expected: map<string, Doc>, legacy: seq<string>, force: bool)
    returns (first: Run, second: Run, ghost middle: map<nat, Doc>, ghost writes: nat)
    requires server.Valid() && Corpus(order, expected) && Sorting.Distinct(legacy)
      && Prefix(legacy, |legacy|) !! expected.Keys
    requires server.FailureFree()
    modifies server
    ensures Succeeded(first) && Converged(middle, expected, Prefix(legacy, |legacy|))
    ensures AllAsExpected(old(server.docs), middle, expected, expected.Keys, force)
    ensures HoldsAll(middle, expected) && LeftExactly(old(server.docs), middle, expected, force)
    ensures second == Finished(Counts(0, 0, 0, |order|, 0)) && server.docs == middle && server.writes == writes
  {
    first := Sync(server, order, expected, legacy, force);
    middle, writes := server.docs, server.writes;
    second := Sync(server, order, expected, legacy, false);
  }

  /** Tags are not compared: a document that is up to date but for its tags counts as current, and it is
      the expected document exactly when its tags, title and content are. */
  lemma CurrentIsFreshExactlyWhen(docs: map<nat, Doc>, expected: Doc, id: nat)
    requires id in docs && Ids(docs, expected.title) == {id} && UpToDate(docs[id], expected)
    ensures Current(docs, expected)
    ensures Fresh(docs, expected) <==> docs[id].tags == expected.tags && docs[id].content == expected.content
  {
    if Fresh(docs, expected) {
      var other :| other in docs && Ids(docs, expected.title) == {other} && docs[other] == expected;
      assert other in Ids(docs, expected.title);
    }
  }

  /** So a run that is not forced leaves stale tags in place. */
  lemma StaleTagsAreCurrent(expected: Doc, tags: string, id: nat)
    requires tags != expected.tags
    ensures var docs := map[id := expected.(tags := tags)];
      Current(docs, expected) && !Fresh(docs, expected)
  {
    var docs := map[id := expected.(tags := tags)];
    assert Ids(docs, expected.title) == {id};
    CurrentIsFreshExactlyWhen(docs, expected, id);
  }
}
