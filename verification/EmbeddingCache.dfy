/** The embedding client: a cache keyed by the hash of the text in front of a remote service that is
    called in batches of at most ten texts and may fail at any call. */
module EmbeddingCache {
  import opened Optional
  import opened Sorting

  type Vector = seq<real>

  /** SHA-256 of a text, taken to be injective. */
  datatype Digest = Digest(text: string)

  datatype ResponseRow = ResponseRow(index: int, embedding: Vector)

  /** What a request yields: an error, or rows in any order. */
  datatype Response = Failed | Body(data: seq<ResponseRow>)

  datatype Result = Ok(vectors: seq<Vector>) | Error

  datatype Item = Item(index: nat, text: string)

  // ---------------------------------------------------------------- rows by index

  predicate LeqIndex(a: ResponseRow, b: ResponseRow) { a.index <= b.index }

  predicate LeqInt(a: int, b: int) { a <= b }

  function Indexes(rows: seq<ResponseRow>): (s: seq<int>)
    ensures |s| == |rows|
  {
    if rows == [] then [] else [rows[0].index] + Indexes(rows[1..])
  }

  function Upto(n: nat): (s: seq<int>)
    ensures |s| == n
  {
    if n == 0 then [] else Upto(n - 1) + [n - 1]
  }

  lemma {:induction false} IndexesAre(rows: seq<ResponseRow>)
    ensures forall i :: 0 <= i < |rows| ==> Indexes(rows)[i] == rows[i].index
  {
    if rows != [] {
      IndexesAre(rows[1..]);
    }
  }

  lemma {:induction false} UptoIs(n: nat)
    ensures forall i :: 0 <= i < n ==> Upto(n)[i] == i
  {
    if n > 0 {
      UptoIs(n - 1);
    }
  }

  lemma {:induction false} IndexesOfInsert(x: ResponseRow, rows: seq<ResponseRow>)
    ensures multiset(Indexes(Insert(x, rows, LeqIndex))) == multiset(Indexes(rows)) + multiset{x.index}
  {
    if rows != [] && !LeqIndex(x, rows[0]) {
      IndexesOfInsert(x, rows[1..]);
      var rest := Insert(x, rows[1..], LeqIndex);
      assert ([rows[0]] + rest)[1..] == rest;
      assert Indexes([rows[0]] + rest) == [rows[0].index] + Indexes(rest);
    } else {
      assert ([x] + rows)[1..] == rows;
      assert Indexes([x] + rows) == [x.index] + Indexes(rows);
    }
  }

  lemma {:induction false} IndexesOfSort(rows: seq<ResponseRow>)
    ensures multiset(Indexes(Sort(rows, LeqIndex))) == multiset(Indexes(rows))
  {
    if rows != [] {
      IndexesOfSort(rows[1..]);
      IndexesOfInsert(rows[0], Sort(rows[1..], LeqIndex));
    }
  }

  lemma SortedIndexes(rows: seq<ResponseRow>)
    requires SortedBy(LeqIndex, rows)
    ensures SortedBy(LeqInt, Indexes(rows))
  {
    IndexesAre(rows);
    forall i, j | 0 <= i < j < |rows| ensures LeqInt(Indexes(rows)[i], Indexes(rows)[j]) {
      assert LeqIndex(rows[i], rows[j]);
    }
  }

  lemma UptoIsSorted(n: nat)
    ensures SortedBy(LeqInt, Upto(n))
  {
    UptoIs(n);
  }

  lemma IntOrder()
    ensures TotalOrder(LeqInt) && Antisymmetric(LeqInt)
  {}

  /** If every index from zero on occurs once, sorting by index puts row `i` at position `i`. */
  lemma SortedRowsLineUp(rows: seq<ResponseRow>)
    requires multiset(Indexes(rows)) == multiset(Upto(|rows|))
    ensures forall i :: 0 <= i < |rows| ==> Sort(rows, LeqIndex)[i].index == i
  {
    var sorted := Sort(rows, LeqIndex);
    SortSorts(rows, LeqIndex);
    IndexesOfSort(rows);
    SortedIndexes(sorted);
    UptoIsSorted(|rows|);
    IntOrder();
    SortedUnique(Indexes(sorted), Upto(|rows|), LeqInt);
    IndexesAre(sorted);
    UptoIs(|rows|);
  }

  /** A full response has one row per text of the batch, each with the vector of its text. */
  ghost predicate Honest(remote: string -> Vector, batch: seq<string>, response: Response) {
    response.Body? && |response.data| == |batch| ==>
      && multiset(Indexes(response.data)) == multiset(Upto(|batch|))
      && forall row :: row in response.data ==>
           0 <= row.index < |batch| && row.embedding == remote(batch[row.index])
  }

  lemma HonestRows(remote: string -> Vector, batch: seq<string>, data: seq<ResponseRow>)
    requires |data| == |batch| && Honest(remote, batch, Body(data))
    ensures var rows := Sort(data, LeqIndex);
      forall i :: 0 <= i < |batch| ==> rows[i].embedding == remote(batch[i])
  {
    SortedRowsLineUp(data);
    SortKeepsMembers(data, LeqIndex);
    var rows := Sort(data, LeqIndex);
    forall i | 0 <= i < |batch| ensures rows[i].embedding == remote(batch[i]) {
      assert rows[i] in rows;
    }
  }

  // ---------------------------------------------------------------- hits and misses

  /** The texts that are not cached, with their positions. */
  function Missing(texts: seq<string>, cache: map<Digest, Vector>): seq<Item> {
    if texts == [] then []
    else
      var n := |texts| - 1;
      Missing(texts[..n], cache) + (if Digest(texts[n]) in cache then [] else [Item(n, texts[n])])
  }

  /** They are exactly the texts without an entry, in the order of their positions. */
  lemma {:induction false} MissingAre(texts: seq<string>, cache: map<Digest, Vector>, item: Item)
    ensures var missing := Missing(texts, cache);
      && (item in missing <==> item.index < |texts| && texts[item.index] == item.text && Digest(item.text) !in cache)
      && forall i, j :: 0 <= i < j < |missing| ==> missing[i].index < missing[j].index < |texts|
  {
    if texts != [] {
      var n := |texts| - 1;
      var before := Missing(texts[..n], cache);
      MissingAre(texts[..n], cache, item);
      forall i | 0 <= i < |before| ensures before[i].index < n {
        MissingAre(texts[..n], cache, before[i]);
        assert before[i] in before;
      }
    }
  }

  function TextsOf(items: seq<Item>): (texts: seq<string>)
    ensures |texts| == |items|
    ensures forall i :: 0 <= i < |items| ==> texts[i] == items[i].text
  {
    if items == [] then [] else TextsOf(items[..|items| - 1]) + [items[|items| - 1].text]
  }

  /** `[row for row in result if row is not None]` */
  function Present(result: seq<Option<Vector>>): seq<Vector> {
    if result == [] then []
    else
      Present(result[..|result| - 1]) +
      if result[|result| - 1].Some? then [result[|result| - 1].value] else []
  }

  lemma {:induction false} NothingIsDropped(result: seq<Option<Vector>>)
    requires forall i :: 0 <= i < |result| ==> result[i].Some?
    ensures |Present(result)| == |result|
    ensures forall i :: 0 <= i < |result| ==> Present(result)[i] == result[i].value
  {
    if result != [] {
      NothingIsDropped(result[..|result| - 1]);
    }
  }

  /** Position `i` is still open: it belongs to a missing item from `n` on. */
  ghost predicate Pending(missing: seq<Item>, n: nat, i: nat) {
    exists j :: n <= j < |missing| && missing[j].index == i
  }

  ghost predicate ItemsOf(texts: seq<string>, missing: seq<Item>) {
    forall j :: 0 <= j < |missing| ==> missing[j].index < |texts| && texts[missing[j].index] == missing[j].text
  }

  /** Every position that is not pending holds the remote vector of its text. */
  ghost predicate Filled(remote: string -> Vector, texts: seq<string>, missing: seq<Item>, n: nat,
                         result: seq<Option<Vector>>)
  {
    && |result| == |texts|
    && forall i: nat :: i < |texts| ==> result[i] == Some(remote(texts[i])) || Pending(missing, n, i)
  }

  lemma FillOne(remote: string -> Vector, texts: seq<string>, missing: seq<Item>, n: nat, result: seq<Option<Vector>>)
    requires Filled(remote, texts, missing, n, result) && ItemsOf(texts, missing) && n < |missing|
    ensures Filled(remote, texts, missing, n + 1,
                   result[missing[n].index := Some(remote(missing[n].text))])
  {
    var more := result[missing[n].index := Some(remote(missing[n].text))];
    forall i: nat | i < |texts|
      ensures more[i] == Some(remote(texts[i])) || Pending(missing, n + 1, i)
    {
      if more[i] != Some(remote(texts[i])) {
        assert Pending(missing, n, i);
        var j :| n <= j < |missing| && missing[j].index == i;
        assert j != n;
      }
    }
  }

  /** Every cached vector is the remote one of its text. */
  ghost predicate CacheIsRight(remote: string -> Vector, cache: map<Digest, Vector>) {
    forall key :: key in cache ==> cache[key] == remote(key.text)
  }

  ghost predicate Extends(before: map<Digest, Vector>, after: map<Digest, Vector>) {
    forall key :: key in before ==> key in after
  }

  /** The texts of the `k`-th batch of ten. */
  function BatchAt(missing: seq<Item>, k: nat): seq<string>
    requires 10 * k <= |missing|
  {
    TextsOf(missing[10 * k..if 10 * k + 10 < |missing| then 10 * k + 10 else |missing|])
  }

  /** A batch is answered: one row for each text, each with as many numbers as were asked for. */
  ghost predicate Answered(response: Response, count: nat, dimension: nat) {
    response.Body? && |response.data| == count && forall row :: row in response.data ==> |row.embedding| == dimension
  }

  /** So is the `k`-th batch, counting requests from `first`. */
  ghost predicate AnsweredAt(service: (nat, seq<string>) -> Response, dimension: nat, first: nat, missing: seq<Item>,
                             k: nat)
    requires 10 * k <= |missing|
  {
    Answered(service(first + k, BatchAt(missing, k)), |BatchAt(missing, k)|, dimension)
  }

  /** The first `n` batches are answered. */
  ghost predicate AllAnswered(service: (nat, seq<string>) -> Response, dimension: nat, first: nat, missing: seq<Item>,
                              n: nat)
  {
    forall k: nat :: k < n && 10 * k < |missing| ==> AnsweredAt(service, dimension, first, missing, k)
  }

  /** The first `n` batches, in order. */
  ghost function Batches(missing: seq<Item>, n: nat): seq<seq<string>> {
    if n == 0 || 10 * (n - 1) > |missing| then [] else Batches(missing, n - 1) + [BatchAt(missing, n - 1)]
  }

  /** What was put into the cache are vectors of that dimension for texts that were asked for. */
  ghost predicate Added(before: map<Digest, Vector>, after: map<Digest, Vector>, texts: seq<string>, dimension: nat) {
    forall key :: key in after && key !in before ==> |after[key]| == dimension && key.text in texts
  }

  lemma AddedMore(remote: string -> Vector, a: map<Digest, Vector>, b: map<Digest, Vector>, c: map<Digest, Vector>,
                  texts: seq<string>, dimension: nat)
    requires Added(a, b, texts, dimension) && Added(b, c, texts, dimension)
    requires CacheIsRight(remote, b) && CacheIsRight(remote, c)
    ensures Added(a, c, texts, dimension)
  {}

  /** After `n` batches, `start` texts have been sent. */
  predicate Sent(start: nat, n: nat, all: nat) {
    start == 10 * n || (start == all && 10 * n - 10 < start < 10 * n)
  }

  lemma NextAnswer(service: (nat, seq<string>) -> Response, dimension: nat, first: nat, missing: seq<Item>, n: nat,
                   ok: bool)
    requires 10 * n < |missing| && AllAnswered(service, dimension, first, missing, n)
    requires ok <==> AnsweredAt(service, dimension, first, missing, n)
    ensures ok ==> AllAnswered(service, dimension, first, missing, n + 1)
    ensures !ok ==> !AllAnswered(service, dimension, first, missing, |missing|)
  {}

  lemma NextSent(before: seq<seq<string>>, sent: seq<seq<string>>, missing: seq<Item>, n: nat)
    requires 10 * n < |missing| && sent == before + Batches(missing, n)
    ensures sent + [BatchAt(missing, n)] == before + Batches(missing, n + 1)
  {
    assert Batches(missing, n + 1) == Batches(missing, n) + [BatchAt(missing, n)];
  }

  lemma AllOfThem(service: (nat, seq<string>) -> Response, dimension: nat, first: nat, missing: seq<Item>, n: nat)
    requires 10 * n >= |missing| && AllAnswered(service, dimension, first, missing, n)
    ensures AllAnswered(service, dimension, first, missing, |missing|)
  {}

  // ---------------------------------------------------------------- the client

  class EmbeddingClient {
    const available: bool
    const dimension: nat
    /** What the service answers to its n-th request. */
    const service: (nat, seq<string>) -> Response
    /** The vector the model assigns to a text. */
    ghost const remote: string -> Vector
    var cache: map<Digest, Vector>
    var calls: nat
    var failures: nat
    var cacheHits: nat
    /** All batches sent so far. */
    ghost var sent: seq<seq<string>>

    /** The cache agrees with the service, and no request was too large. */
    ghost predicate Valid()
      reads this
    {
      && CacheIsRight(remote, cache)
      && calls == |sent| && (forall batch :: batch in sent ==> 1 <= |batch| <= 10)
    }

    /** Responses, when complete, are right. */
    ghost predicate ServiceIsHonest() {
      forall n: nat, batch: seq<string> {:trigger Honest(remote, batch, service(n, batch))} ::
        Honest(remote, batch, service(n, batch))
    }

    constructor (available: bool, dimension: nat, service: (nat, seq<string>) -> Response,
                 ghost remote: string -> Vector, stored: map<Digest, Vector>)
      requires CacheIsRight(remote, stored)
      ensures Valid() && cache == stored && calls == 0 && failures == 0 && cacheHits == 0
      ensures this.available == available && this.dimension == dimension
      ensures this.service == service && this.remote == remote
    {
      this.available, this.dimension, this.service, this.remote := available, dimension, service, remote;
      cache, calls, failures, cacheHits, sent := stored, 0, 0, 0, [];
    }

    /** The first loop of `embed`: cached texts are answered, the others are listed. */
    method LookUp(texts: seq<string>) returns (result: seq<Option<Vector>>, missing: seq<Item>)
      requires Valid()
      modifies this`cacheHits
      ensures missing == Missing(texts, cache) && ItemsOf(texts, missing)
      ensures Filled(remote, texts, missing, 0, result)
      ensures cacheHits + |missing| == old(cacheHits) + |texts|
    {
      result, missing := [], [];
      for index := 0 to |texts|
        invariant LookedUp(remote, texts[..index], cache, missing, result)
        invariant cacheHits + |missing| == old(cacheHits) + index
      {
        var key := Digest(texts[index]);
        LookUpStep(remote, texts, index, cache, missing, result);
        if key in cache {
          result := result + [Some(cache[key])];
          cacheHits := cacheHits + 1;
        } else {
          result := result + [None];
          missing := missing + [Item(index, texts[index])];
        }
      }
      assert texts[..|texts|] == texts;
    }

    /** The rows of a response, one per text of the batch, are cached and filled in until one has the
        wrong dimension. */
    method StoreRows(texts: seq<string>, missing: seq<Item>, start: nat, n: nat, rows: seq<ResponseRow>,
                     before: seq<Option<Vector>>)
      returns (ok: bool, result: seq<Option<Vector>>)
      requires CacheIsRight(remote, cache) && start + n <= |missing| && n == |rows|
      requires forall j :: 0 <= j < n ==> rows[j].embedding == remote(missing[start + j].text)
      requires ItemsOf(texts, missing) && Filled(remote, texts, missing, start, before)
      requires CachedBefore(missing, start)
      modifies this`cache
      ensures CacheIsRight(remote, cache) && Extends(old(cache), cache)
      ensures ok ==> Filled(remote, texts, missing, start + n, result) && CachedBefore(missing, start + n)
      ensures ok <==> forall row :: row in rows ==> |row.embedding| == dimension
      ensures Added(old(cache), cache, texts, dimension)
    {
      result := before;
      for j := 0 to n
        invariant Added(old(cache), cache, texts, dimension)
        invariant forall i :: 0 <= i < j ==> |rows[i].embedding| == dimension
        invariant CacheIsRight(remote, cache) && Extends(old(cache), cache)
        invariant Filled(remote, texts, missing, start + j, result) && CachedBefore(missing, start + j)
      {
        var item, vector := missing[start + j], rows[j].embedding;
        if |vector| != dimension {
          assert rows[j] in rows;
          return false, result;
        }
        FillOne(remote, texts, missing, start + j, result);
        cache := cache[Digest(item.text) := vector];
        result := result[item.index := Some(vector)];
      }
      return true, result;
    }

    /** One request. On success the batch is cached and its positions are filled. On failure some rows
        may have been cached before the bad one was met. */
    method SendBatch(texts: seq<string>, missing: seq<Item>, start: nat, before: seq<Option<Vector>>, ghost k: nat)
      returns (ok: bool, next: nat, result: seq<Option<Vector>>)
      requires Valid() && ServiceIsHonest() && start < |missing|
      requires ItemsOf(texts, missing) && Filled(remote, texts, missing, start, before)
      requires CachedBefore(missing, start) && start == 10 * k
      modifies this`cache, this`calls, this`failures, this`sent
      ensures Valid() && calls == old(calls) + 1 && Extends(old(cache), cache)
      ensures failures == old(failures) + (if ok then 0 else 1)
      ensures next == if start + 10 < |missing| then start + 10 else |missing|
      ensures ok ==> Filled(remote, texts, missing, next, result) && CachedBefore(missing, next)
      ensures sent == old(sent) + [BatchAt(missing, k)]
      ensures k <= old(calls) ==> (ok <==> AnsweredAt(service, dimension, old(calls) - k, missing, k))
      ensures Added(old(cache), cache, texts, dimension)
    {
      next := if start + 10 < |missing| then start + 10 else |missing|;
      result := before;
      var batch := TextsOf(missing[start..next]);
      var response := Ask(batch);
      ok, result := Receive(texts, missing, start, batch, response, before);
      if !ok {
        failures := failures + 1;
      }
    }

    /** The call over the wire. */
    method Ask(batch: seq<string>) returns (response: Response)
      requires Valid() && ServiceIsHonest() && 1 <= |batch| <= 10
      modifies this`calls, this`sent
      ensures Valid() && calls == old(calls) + 1 && Honest(remote, batch, response)
      ensures sent == old(sent) + [batch] && response == service(old(calls), batch)
    {
      response := service(calls, batch);
      assert Honest(remote, batch, service(calls, batch));
      calls := calls + 1;
      sent := sent + [batch];
    }

    /** The answer to a batch: sorted by index and stored, unless its length is wrong. */
    method Receive(texts: seq<string>, missing: seq<Item>, start: nat, batch: seq<string>, response: Response,
                   before: seq<Option<Vector>>) returns (ok: bool, result: seq<Option<Vector>>)
      requires CacheIsRight(remote, cache) && start + |batch| <= |missing|
        && batch == TextsOf(missing[start..start + |batch|])
      requires Honest(remote, batch, response)
      requires ItemsOf(texts, missing) && Filled(remote, texts, missing, start, before)
      requires CachedBefore(missing, start)
      modifies this`cache
      ensures CacheIsRight(remote, cache) && Extends(old(cache), cache)
      ensures ok ==> Filled(remote, texts, missing, start + |batch|, result) && CachedBefore(missing, start + |batch|)
      ensures ok <==> Answered(response, |batch|, dimension)
      ensures Added(old(cache), cache, texts, dimension)
    {
      if response.Failed? || |response.data| != |batch| {
        return false, before;
      }
      var rows := Sort(response.data, LeqIndex);
      HonestRows(remote, batch, response.data);
      SortKeepsMembers(response.data, LeqIndex);
      ok, result := StoreRows(texts, missing, start, |batch|, rows, before);
    }

    ghost predicate CachedBefore(missing: seq<Item>, n: nat)
      reads this
    {
      forall j :: 0 <= j < n && j < |missing| ==> Digest(missing[j].text) in cache
    }

    /** The loop over the batches: it goes on while batches are answered. */
    method SendAll(texts: seq<string>, missing: seq<Item>, before: seq<Option<Vector>>)
      returns (ok: bool, result: seq<Option<Vector>>, ghost batches: nat)
      requires Valid() && ServiceIsHonest() && ItemsOf(texts, missing) && Filled(remote, texts, missing, 0, before)
      modifies this`cache, this`calls, this`failures, this`sent
      ensures Valid() && Extends(old(cache), cache) && Added(old(cache), cache, texts, dimension)
      ensures ok <==> AllAnswered(service, dimension, old(calls), missing, |missing|)
      ensures failures == old(failures) + (if ok then 0 else 1)
      ensures ok ==> Filled(remote, texts, missing, |missing|, result) && CachedBefore(missing, |missing|)
      ensures calls == old(calls) + batches && (ok ==> batches == (|missing| + 9) / 10)
      ensures sent == old(sent) + Batches(missing, batches)
    {
      ok, result := true, before;
      var start: nat := 0;
      batches := 0;
      while start < |missing|
        invariant Valid() && start <= |missing| && ok && failures == old(failures)
        invariant Sent(start, batches, |missing|) && calls == old(calls) + batches
        invariant Extends(old(cache), cache) && Added(old(cache), cache, texts, dimension)
        invariant Filled(remote, texts, missing, start, result) && CachedBefore(missing, start)
        invariant AllAnswered(service, dimension, old(calls), missing, batches)
        invariant sent == old(sent) + Batches(missing, batches)
        decreases |missing| - start
      {
        ghost var cached, earlier := cache, sent;
        ok, start, result := SendBatch(texts, missing, start, result, batches);
        AddedMore(remote, old(cache), cached, cache, texts, dimension);
        NextAnswer(service, dimension, old(calls), missing, batches, ok);
        NextSent(old(sent), earlier, missing, batches);
        batches := batches + 1;
        if !ok {
          return;
        }
      }
      AllOfThem(service, dimension, old(calls), missing, batches);
    }

    /** `embed`: position `i` of a successful result is the remote vector of text `i`, whether it came
        from the cache or over the wire, and afterwards every text is cached. Whatever happens, the
        cache stays right and keeps what it had, and each text counts as a hit or a miss. */
    method Embed(texts: seq<string>) returns (r: Result, ghost batches: nat)
      requires Valid() && ServiceIsHonest()
      modifies this
      ensures Valid()
      ensures Extends(old(cache), cache)
      ensures r.Ok? ==> |r.vectors| == |texts| && forall i :: 0 <= i < |texts| ==> r.vectors[i] == remote(texts[i])
      ensures r.Ok? ==> forall t :: t in texts ==> Digest(t) in cache
      ensures r.Ok? ==> failures == old(failures)
      ensures r.Ok? ==> batches == (|Missing(texts, old(cache))| + 9) / 10
      ensures r.Error? <==> !available || failures == old(failures) + 1
      ensures var missing := Missing(texts, old(cache));
        r.Ok? <==> available && AllAnswered(service, dimension, old(calls), missing, |missing|)
      ensures Added(old(cache), cache, texts, dimension)
      ensures available ==> sent == old(sent) + Batches(Missing(texts, old(cache)), batches)
      ensures calls == old(calls) + batches
      ensures available && Missing(texts, old(cache)) == [] ==> r.Ok?
      ensures !available ==> cache == old(cache) && sent == old(sent) && batches == 0 && cacheHits == old(cacheHits)
      ensures available ==> cacheHits + |Missing(texts, old(cache))| == old(cacheHits) + |texts|
    {
      batches := 0;
      if !available {
        return Error, 0;
      }
      var result, missing := LookUp(texts);
      var ok;
      ok, result, batches := SendAll(texts, missing, result);
      if !ok {
        return Error, batches;
      }
      AllFilled(remote, texts, missing, result);
      NothingIsDropped(result);
      AllCached(texts, old(cache), missing, cache);
      return Ok(Present(result)), batches;
    }
  }

  /** The state of the first loop after `texts`. */
  ghost predicate LookedUp(remote: string -> Vector, texts: seq<string>, cache: map<Digest, Vector>,
                           missing: seq<Item>, result: seq<Option<Vector>>)
  {
    && missing == Missing(texts, cache) && ItemsOf(texts, missing)
    && Filled(remote, texts, missing, 0, result)
  }

  lemma LookUpStep(remote: string -> Vector, texts: seq<string>, index: nat, cache: map<Digest, Vector>,
                   missing: seq<Item>, result: seq<Option<Vector>>)
    requires index < |texts| && CacheIsRight(remote, cache)
    requires LookedUp(remote, texts[..index], cache, missing, result)
    ensures var text := texts[index];
      if Digest(text) in cache then
        LookedUp(remote, texts[..index + 1], cache, missing, result + [Some(cache[Digest(text)])])
      else LookedUp(remote, texts[..index + 1], cache, missing + [Item(index, text)], result + [None])
  {
    var before, text := texts[..index], texts[index];
    assert texts[..index + 1] == before + [text] && (before + [text])[..index] == before;
    if Digest(text) in cache {
      FilledSnoc(remote, before, missing, result, text, Some(cache[Digest(text)]), missing);
    } else {
      FilledSnoc(remote, before, missing, result, text, None, missing + [Item(index, text)]);
    }
  }

  lemma FilledSnoc(remote: string -> Vector, texts: seq<string>, missing: seq<Item>, result: seq<Option<Vector>>,
                   text: string, v: Option<Vector>, more: seq<Item>)
    requires Filled(remote, texts, missing, 0, result) && ItemsOf(texts, missing)
    requires (v == Some(remote(text)) && more == missing) || more == missing + [Item(|texts|, text)]
    ensures Filled(remote, texts + [text], more, 0, result + [v]) && ItemsOf(texts + [text], more)
  {
    forall i: nat | i < |texts| + 1
      ensures (result + [v])[i] == Some(remote((texts + [text])[i])) || Pending(more, 0, i)
    {
      if i < |texts| && result[i] != Some(remote(texts[i])) {
        assert Pending(missing, 0, i);
        var j :| 0 <= j < |missing| && missing[j].index == i;
        assert more[j].index == i;
      } else if i == |texts| && v != Some(remote(text)) {
        assert more[|missing|].index == i;
      }
    }
  }

  lemma AllFilled(remote: string -> Vector, texts: seq<string>, missing: seq<Item>, result: seq<Option<Vector>>)
    requires Filled(remote, texts, missing, |missing|, result)
    ensures forall i :: 0 <= i < |texts| ==> result[i] == Some(remote(texts[i]))
  {
    forall i | 0 <= i < |texts| ensures result[i] == Some(remote(texts[i])) {
      assert !Pending(missing, |missing|, i);
    }
  }

  lemma {:induction false} MissingHas(texts: seq<string>, cache: map<Digest, Vector>, t: string)
    requires t in texts && Digest(t) !in cache
    ensures exists j :: 0 <= j < |Missing(texts, cache)| && Missing(texts, cache)[j].text == t
  {
    var n := |texts| - 1;
    if t == texts[n] {
      assert Missing(texts, cache)[|Missing(texts[..n], cache)|].text == t;
    } else {
      MissingHas(texts[..n], cache, t);
      var j :| 0 <= j < |Missing(texts[..n], cache)| && Missing(texts[..n], cache)[j].text == t;
      assert Missing(texts, cache)[j].text == t;
    }
  }

  lemma AllCached(texts: seq<string>, before: map<Digest, Vector>, missing: seq<Item>, after: map<Digest, Vector>)
    requires missing == Missing(texts, before) && Extends(before, after)
    requires forall j :: 0 <= j < |missing| ==> Digest(missing[j].text) in after
    ensures forall t :: t in texts ==> Digest(t) in after
  {
    forall t | t in texts ensures Digest(t) in after {
      if Digest(t) !in before {
        MissingHas(texts, before, t);
      }
    }
  }

  lemma {:induction false} NothingMissing(texts: seq<string>, cache: map<Digest, Vector>)
    requires forall t :: t in texts ==> Digest(t) in cache
    ensures Missing(texts, cache) == []
  {
    if texts != [] {
      var n := |texts| - 1;
      assert texts[n] in texts && forall t :: t in texts[..n] ==> t in texts;
      NothingMissing(texts[..n], cache);
    }
  }

  /** An answer, if one is given, holds the remote vector of every text. */
  ghost predicate IsRight(remote: string -> Vector, texts: seq<string>, r: Result) {
    r.Ok? ==> r.vectors == seq(|texts|, n requires 0 <= n < |texts| => remote(texts[n]))
  }

  ghost predicate AllRight(remote: string -> Vector, requests: seq<seq<string>>, answers: seq<Result>) {
    |answers| <= |requests| && forall i :: 0 <= i < |answers| ==> IsRight(remote, requests[i], answers[i])
  }

  lemma NextRight(remote: string -> Vector, requests: seq<seq<string>>, answers: seq<Result>, r: Result)
    requires AllRight(remote, requests, answers) && |answers| < |requests|
    requires var texts := requests[|answers|];
      r.Ok? ==> |r.vectors| == |texts| && forall i :: 0 <= i < |texts| ==> r.vectors[i] == remote(texts[i])
    ensures AllRight(remote, requests, answers + [r])
  {
    assert IsRight(remote, requests[|answers|], r);
  }

  /** Any sequence of requests, including failing ones in between: every answer that is given is
      right. */
  method EmbedAll(client: EmbeddingClient, requests: seq<seq<string>>) returns (answers: seq<Result>)
    requires client.Valid() && client.ServiceIsHonest()
    modifies client
    ensures client.Valid() && |answers| == |requests|
    ensures AllRight(client.remote, requests, answers)
  {
    answers := [];
    for i := 0 to |requests|
      invariant client.Valid() && |answers| == i
      invariant AllRight(client.remote, requests, answers)
    {
      var r, _ := client.Embed(requests[i]);
      NextRight(client.remote, requests, answers, r);
      answers := answers + [r];
    }
  }

  /** Repeating a request that succeeded costs no call and gives the same answer. */
  method EmbedTwice(client: EmbeddingClient, texts: seq<string>) returns (first: Result, second: Result)
    requires client.Valid() && client.ServiceIsHonest()
    modifies client
    ensures client.Valid()
    ensures first.Ok? ==> second.Ok? && second.vectors == first.vectors
    ensures first.Ok? ==> client.calls == old(client.calls) + (|Missing(texts, old(client.cache))| + 9) / 10
  {
    ghost var batches;
    first, batches := client.Embed(texts);
    if first.Ok? {
      NothingMissing(texts, client.cache);
    }
    second, batches := client.Embed(texts);
  }
}
