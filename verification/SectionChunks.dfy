/** Cutting a document by its sections: every section is cut on its own, and the offsets of its pieces are
    shifted by where the section starts. Whether they are then offsets in the document depends on how the
    section starts. */
module SectionChunks {
  import opened Optional
  import opened Text
  import opened Integers
  import opened Windows
  import opened Sentences
  import opened Semantic
  import opened Headings
  import opened MarkdownSections

  datatype Chunk = Chunk(path: seq<string>, text: string, start: nat, end: nat)

  /** How a section is cut: by size, or by sentences with these options and an embedding model. */
  datatype Cutter = BySize
    | BySentences(maxSize: Option<int>, minSize: int, percentile: real, overlap: int,
                  model: Option<(string, string) -> real>)

  /** What is left of the size for the piece itself. */
  function WindowSize(size: int, prefix: string): int {
    if size > 0 then Max(80, size - |prefix|) else size
  }

  /** Prefix and piece fill the size up, unless the prefix leaves less than 80 characters: then the piece has 80.
      Without a size there is none for the piece. */
  lemma PrefixAndPieceFill(size: int, prefix: string)
    ensures size <= 0 ==> WindowSize(size, prefix) == size
    ensures size > 0 ==> WindowSize(size, prefix) >= 80
    ensures WindowSize(size, prefix) > 80 ==> |prefix| + WindowSize(size, prefix) == size
    ensures size > 0 ==> (WindowSize(size, prefix) == 80 <==> |prefix| + 80 >= size)
  {}

  function ChunkOf(row: Row, prefix: string, p: Piece): Chunk {
    Chunk(row.path, prefix + p.text, row.start + p.start, row.start + p.end)
  }

  function ChunksOf(row: Row, prefix: string, ps: seq<Piece>): seq<Chunk> {
    if ps == [] then [] else ChunksOf(row, prefix, ps[..|ps| - 1]) + [ChunkOf(row, prefix, ps[|ps| - 1])]
  }

  /** The chunks of the first `n` sections, whose pieces are `cuts`. */
  function AllChunks(rows: seq<Row>, cuts: seq<seq<Piece>>, prefix: seq<string> -> string, n: nat): seq<Chunk>
    requires n <= |rows| && n <= |cuts|
  {
    if n == 0 then []
    else AllChunks(rows, cuts, prefix, n - 1) + ChunksOf(rows[n - 1], prefix(rows[n - 1].path), cuts[n - 1])
  }

  /** Exact trimmed slices of the content that hold all of it but white space. */
  ghost predicate CutOf(content: string, ps: seq<Piece>) {
    CoversText(content, ps) && forall p :: p in ps ==> IsPiece(content, p)
  }

  /** Pieces within the window size. */
  predicate Fitting(ps: seq<Piece>, size: int) {
    size > 0 ==> forall p :: p in ps ==> |p.text| <= size
  }

  /** Several sentences cannot be grouped without a model. */
  predicate NeedsModel(cutter: Cutter, content: string) {
    cutter.BySentences? && cutter.model.None? && |SentencePieces(content)| > 1
  }

  /** The pieces of one section: its windows by size, or its groups of sentences. */
  ghost predicate CutBy(content: string, size: int, overlap: int, cutter: Cutter, ps: seq<Piece>) {
    match cutter
    case BySize => IsSmartCut(content, size, overlap, ps)
    case BySentences(maxSize, minSize, percentile, sentences, model) =>
      var most := if maxSize.Some? then maxSize.value else Max(size, 650);
      IsSemanticCut(content, Options(size, most, minSize, sentences), percentile, model, ps)
  }

  /** The windows clamp their overlap themselves. */
  lemma ClampTwice(content: string, size: int, overlap: int, ps: seq<Piece>)
    ensures IsSmartCut(content, size, Min(overlap, Max(0, size - 1)), ps) <==> IsSmartCut(content, size, overlap, ps)
  {
    var less := Min(overlap, Max(0, size - 1));
    if 0 < size < |content| {
      assert Clamp(less, size) == Clamp(overlap, size);
      forall ws ensures AreSmartWindows(content, size, less, ws) <==> AreSmartWindows(content, size, overlap, ws) {}
    }
  }

  /** The pieces of one section. Overlap is allowed inside a section only. */
  method CutSection(content: string, size: int, overlap: int, cutter: Cutter) returns (r: Option<seq<Piece>>)
    requires IsTrimmed(content)
    ensures r.Some? ==> CutBy(content, size, overlap, cutter, r.value)
    ensures r.Some? ==> CutOf(content, r.value) && (cutter.BySize? ==> Fitting(r.value, size))
    ensures r.None? <==> NeedsModel(cutter, content)
  {
    match cutter
    case BySize =>
      var ps := RecursiveChunks(content, size, Min(overlap, Max(0, size - 1)));
      ClampTwice(content, size, overlap, ps);
      r := Some(ps);
    case BySentences(maxSize, minSize, percentile, sentences, model) =>
      var most := if maxSize.Some? then maxSize.value else Max(size, 650);
      ghost var groups;
      r, groups := SemanticWindows(content, Options(size, most, minSize, sentences), percentile, model);
  }

  /** The pieces of a section, and that they leave room for the prefix. */
  ghost predicate IsCut(row: Row, prefix: seq<string> -> string, size: int, overlap: int, cutter: Cutter,
                        ps: seq<Piece>)
  {
    var left := WindowSize(size, prefix(row.path));
    CutBy(row.content, left, overlap, cutter, ps) && CutOf(row.content, ps) && (cutter.BySize? ==> Fitting(ps, left))
  }

  /** The section strategies of `chunk_document`: `prefix` is the text put in front of a piece, if any. It
      fails exactly when the sentences of some section are to be grouped without a model. */
  method SectionStrategy(rows: seq<Row>, prefix: seq<string> -> string, size: int, overlap: int, cutter: Cutter)
    returns (r: Option<seq<Chunk>>, ghost cuts: seq<seq<Piece>>)
    requires forall i :: 0 <= i < |rows| ==> IsTrimmed(rows[i].content)
    ensures r.Some? ==> |cuts| == |rows| && r.value == AllChunks(rows, cuts, prefix, |rows|)
    ensures r.Some? ==> AllCut(rows, prefix, size, overlap, cutter, cuts)
    ensures r.None? <==> exists i :: 0 <= i < |rows| && NeedsModel(cutter, rows[i].content)
  {
    var chunks: seq<Chunk> := [];
    cuts := [];
    for n := 0 to |rows|
      invariant |cuts| == n && chunks == AllChunks(rows, cuts, prefix, n)
      invariant AllCut(rows, prefix, size, overlap, cutter, cuts)
      invariant forall i :: 0 <= i < n ==> !NeedsModel(cutter, rows[i].content)
    {
      var pieces := CutRow(rows[n], prefix, size, overlap, cutter);
      if pieces.None? {
        return None, cuts;
      }
      NextSection(rows, cuts, prefix, size, overlap, cutter, n, pieces.value);
      NextChunks(rows, cuts, prefix, n, pieces.value);
      var more := ShiftPieces(rows[n], prefix(rows[n].path), pieces.value);
      chunks := chunks + more;
      cuts := cuts + [pieces.value];
    }
    r := Some(chunks);
  }

  method CutRow(row: Row, prefix: seq<string> -> string, size: int, overlap: int, cutter: Cutter)
    returns (r: Option<seq<Piece>>)
    requires IsTrimmed(row.content)
    ensures r.Some? ==> IsCut(row, prefix, size, overlap, cutter, r.value)
    ensures r.None? <==> NeedsModel(cutter, row.content)
  {
    r := CutSection(row.content, WindowSize(size, prefix(row.path)), overlap, cutter);
  }

  /** The sections that have been cut. */
  ghost predicate AllCut(rows: seq<Row>, prefix: seq<string> -> string, size: int, overlap: int, cutter: Cutter,
                         cuts: seq<seq<Piece>>)
  {
    |cuts| <= |rows| && forall i :: 0 <= i < |cuts| ==> IsCut(rows[i], prefix, size, overlap, cutter, cuts[i])
  }

  lemma NextSection(rows: seq<Row>, cuts: seq<seq<Piece>>, prefix: seq<string> -> string, size: int, overlap: int,
                    cutter: Cutter, n: nat, ps: seq<Piece>)
    requires n < |rows| && |cuts| == n && AllCut(rows, prefix, size, overlap, cutter, cuts)
      && IsCut(rows[n], prefix, size, overlap, cutter, ps)
    ensures AllCut(rows, prefix, size, overlap, cutter, cuts + [ps])
  {}

  lemma NextChunks(rows: seq<Row>, cuts: seq<seq<Piece>>, prefix: seq<string> -> string, n: nat, ps: seq<Piece>)
    requires n < |rows| && |cuts| == n
    ensures AllChunks(rows, cuts + [ps], prefix, n + 1) == AllChunks(rows, cuts, prefix, n) +
      ChunksOf(rows[n], prefix(rows[n].path), ps)
  {
    SameChunks(rows, cuts, cuts + [ps], prefix, n);
    assert (cuts + [ps])[n] == ps;
  }

  method ShiftPieces(row: Row, prefix: string, ps: seq<Piece>) returns (chunks: seq<Chunk>)
    ensures chunks == ChunksOf(row, prefix, ps)
  {
    chunks := [];
    for i := 0 to |ps|
      invariant chunks == ChunksOf(row, prefix, ps[..i])
    {
      assert ps[..i + 1][..i] == ps[..i];
      chunks := chunks + [ChunkOf(row, prefix, ps[i])];
    }
    assert ps[..|ps|] == ps;
  }

  lemma {:induction false} SameChunks(rows: seq<Row>, a: seq<seq<Piece>>, b: seq<seq<Piece>>,
                                      prefix: seq<string> -> string, n: nat)
    requires n <= |rows| && n <= |a| && n <= |b| && forall i :: 0 <= i < n ==> a[i] == b[i]
    ensures AllChunks(rows, a, prefix, n) == AllChunks(rows, b, prefix, n)
  {
    if n > 0 {
      SameChunks(rows, a, b, prefix, n - 1);
    }
  }

  lemma {:induction false} ChunksAre(row: Row, prefix: string, ps: seq<Piece>, c: Chunk)
    ensures c in ChunksOf(row, prefix, ps) <==> exists p :: p in ps && c == ChunkOf(row, prefix, p)
  {
    if ps != [] {
      var init, last := ps[..|ps| - 1], ps[|ps| - 1];
      ChunksAre(row, prefix, init, c);
      assert ps == init + [last];
    }
  }

  /** With a positive size a chunk, its prefix included, is at most that long unless the prefix leaves less
      than 80 characters. */
  lemma ChunkIsBounded(row: Row, prefix: string, ps: seq<Piece>, size: int, c: Chunk)
    requires size > 0 && Fitting(ps, WindowSize(size, prefix)) && c in ChunksOf(row, prefix, ps)
    ensures |c.text| <= Max(size, |prefix| + 80)
  {
    ChunksAre(row, prefix, ps, c);
  }

  // ---------------------------------------------------------------- offsets in the document

  /** The content of a section is its range without the white space around it. */
  predicate Fits(text: string, row: Row) {
    row.start <= row.end <= |text| && row.content == Strip(text[row.start..row.end])
  }

  predicate StartsWithText(text: string, row: Row) {
    row.content == "" || (row.start < |text| && !IsSpace(text[row.start]))
  }

  /** A chunk ends with what stands at its offsets in the document. */
  predicate ExactAt(text: string, prefix: string, c: Chunk) {
    c.start <= c.end <= |text| && c.text == prefix + text[c.start..c.end]
  }

  /** The offsets are too small by the white space in front of the section. */
  lemma PieceStands(text: string, row: Row, p: Piece)
    requires Fits(text, row) && IsPiece(row.content, p)
    ensures var lead := LeadSpace(text[row.start..row.end]);
      row.start + lead + p.end <= row.end && text[row.start + lead + p.start..row.start + lead + p.end] == p.text
  {
    var raw := text[row.start..row.end];
    StripFacts(raw);
    SliceTwice(text, row.start, row.end, LeadSpace(raw), TrimEnd(raw), p.start, p.end);
  }

  lemma SliceTwice(text: string, a: nat, b: nat, c: nat, d: nat, i: nat, j: nat)
    requires a <= b <= |text| && c <= d <= b - a && i <= j <= d - c
    ensures text[a..b][c..d][i..j] == text[a + c + i..a + c + j]
  {
    SliceOfSlice(text[a..b], c, d, i, j);
    SliceOfSlice(text, a, b, c + i, c + j);
  }

  /** All chunks of a section are exact if and only if it has none or its range does not start with white
      space. */
  lemma SectionExactExactlyWhen(text: string, row: Row, prefix: string, ps: seq<Piece>)
    requires Fits(text, row) && CutOf(row.content, ps)
    ensures (forall c :: c in ChunksOf(row, prefix, ps) ==> ExactAt(text, prefix, c)) <==>
      StartsWithText(text, row)
  {
    StripFacts(text[row.start..row.end]);
    if StartsWithText(text, row) {
      forall c | c in ChunksOf(row, prefix, ps) ensures ExactAt(text, prefix, c) {
        ExactChunk(text, row, prefix, ps, c);
      }
    } else {
      var p := FirstPiece(row.content, ps);
      ChunksAre(row, prefix, ps, ChunkOf(row, prefix, p));
      NotAtStart(text, row, prefix, p);
    }
  }

  lemma ExactChunk(text: string, row: Row, prefix: string, ps: seq<Piece>, c: Chunk)
    requires Fits(text, row) && CutOf(row.content, ps) && c in ChunksOf(row, prefix, ps)
    requires StartsWithText(text, row)
    ensures ExactAt(text, prefix, c)
  {
    ChunksAre(row, prefix, ps, c);
    var p :| p in ps && c == ChunkOf(row, prefix, p);
    assert IsPiece(row.content, p);
    PieceIsExact(text, row, prefix, p);
  }

  lemma PieceIsExact(text: string, row: Row, prefix: string, p: Piece)
    requires Fits(text, row) && IsPiece(row.content, p) && StartsWithText(text, row)
    ensures ExactAt(text, prefix, ChunkOf(row, prefix, p))
  {
    PieceStands(text, row, p);
    NoLead(text, row.start, row.end);
    assert text[row.start + p.start..row.start + p.end] == p.text;
  }

  lemma NoLead(text: string, start: nat, end: nat)
    requires start < end <= |text| && !IsSpace(text[start])
    ensures LeadSpace(text[start..end]) == 0
  {
    assert text[start..end][0] == text[start];
  }

  /** Some piece starts where the content starts. */
  lemma FirstPiece(content: string, ps: seq<Piece>) returns (p: Piece)
    requires content != "" && IsTrimmed(content) && CutOf(content, ps)
    ensures p in ps && p.start == 0 && IsPiece(content, p)
  {
    assert Covered(ps, 0);
    p :| p in ps && InPiece(p, 0);
  }

  lemma NotAtStart(text: string, row: Row, prefix: string, p: Piece)
    requires Fits(text, row) && IsPiece(row.content, p) && p.start == 0 && IsSpace(text[row.start])
    ensures !ExactAt(text, prefix, ChunkOf(row, prefix, p))
  {
    var c := ChunkOf(row, prefix, p);
    assert c.text[|prefix|] == p.text[0];
    if c.end <= |text| {
      var stands := prefix + text[c.start..c.end];
      assert stands[|prefix|] == text[c.start];
    }
  }

  // ---------------------------------------------------------------- the sections of a document

  /** The rows of a normalised text fit, whatever marks were detected. */
  lemma SectionsFit(text: string, found: seq<Mark>, defaultTitle: string, row: Row)
    requires IsTrimmed(text) && found != [] && forall m :: m in found ==> 1 <= m.level <= 6 && m.start < |text|
    requires Marks(MarksOf(found), |text|)
    requires MarksOf(found) != [] && row in RowsBefore(text, MarksOf(found), defaultTitle, HasBody, |MarksOf(found)|)
    ensures Fits(text, row) && IsTrimmed(row.content) && row.start < |text|
  {
    RowsAreExact(text, MarksOf(found), defaultTitle, HasBody, |MarksOf(found)|, row);
    StripFacts(text[row.start..row.end]);
  }

  /** All chunks of the sections are exact. */
  ghost predicate AllExact(text: string, rows: seq<Row>, cuts: seq<seq<Piece>>, prefix: seq<string> -> string)
    requires |cuts| == |rows|
  {
    forall i :: 0 <= i < |rows| ==> SectionExact(text, rows[i], cuts[i], prefix)
  }

  ghost predicate SectionExact(text: string, row: Row, ps: seq<Piece>, prefix: seq<string> -> string) {
    forall c :: c in ChunksOf(row, prefix(row.path), ps) ==> ExactAt(text, prefix(row.path), c)
  }

  lemma AllExactExactlyWhen(text: string, rows: seq<Row>, cuts: seq<seq<Piece>>, prefix: seq<string> -> string)
    requires |cuts| == |rows| && forall i :: 0 <= i < |rows| ==> Fits(text, rows[i]) && CutOf(rows[i].content, cuts[i])
    ensures AllExact(text, rows, cuts, prefix) <==> forall i :: 0 <= i < |rows| ==> StartsWithText(text, rows[i])
  {
    forall i | 0 <= i < |rows| ensures SectionExact(text, rows[i], cuts[i], prefix) <==> StartsWithText(text, rows[i]) {
      SectionExactExactlyWhen(text, rows[i], prefix(rows[i].path), cuts[i]);
    }
  }

  /** The row of heading `j`, which is kept. */
  predicate IsKept(text: string, ms: seq<Mark>, defaultTitle: string, keep: string -> bool, j: nat, row: Row)
    requires Marks(ms, |text|)
  {
    j < |ms| && keep(Content(text, ms, j)) && row == RowOf(text, ms, defaultTitle, j)
  }

  lemma RowNext(text: string, ms: seq<Mark>, defaultTitle: string, keep: string -> bool, m: nat, row: Row)
    requires Marks(ms, |text|) && ms != [] && 0 < m <= |ms|
    ensures row in RowsBefore(text, ms, defaultTitle, keep, m) <==>
      row in RowsBefore(text, ms, defaultTitle, keep, m - 1) || IsKept(text, ms, defaultTitle, keep, m - 1, row)
  {}

  /** A row that is not the preface belongs to a heading that is kept. */
  lemma {:induction false} HeadingOfRow(text: string, ms: seq<Mark>, defaultTitle: string, keep: string -> bool, m: nat,
                                        row: Row)
    returns (j: nat)
    requires Marks(ms, |text|) && ms != [] && m <= |ms| && row in RowsBefore(text, ms, defaultTitle, keep, m)
    ensures row.start != 0 ==> IsKept(text, ms, defaultTitle, keep, j, row)
  {
    j := 0;
    if m > 0 {
      RowNext(text, ms, defaultTitle, keep, m, row);
      j := m - 1;
      if row in RowsBefore(text, ms, defaultTitle, keep, m - 1) {
        j := HeadingOfRow(text, ms, defaultTitle, keep, m - 1, row);
      }
    }
  }

  lemma {:induction false} RowOfHeading(text: string, ms: seq<Mark>, defaultTitle: string, keep: string -> bool, m: nat,
                                        j: nat)
    requires Marks(ms, |text|) && ms != [] && j < m <= |ms| && keep(Content(text, ms, j))
    ensures RowOf(text, ms, defaultTitle, j) in RowsBefore(text, ms, defaultTitle, keep, m)
  {
    RowNext(text, ms, defaultTitle, keep, m, RowOf(text, ms, defaultTitle, j));
    if j < m - 1 {
      RowOfHeading(text, ms, defaultTitle, keep, m - 1, j);
    }
  }

  /** A document cut by its own headings: all chunks are exact if and only if no heading whose section is
      kept has white space at its position. */
  lemma DocumentExactExactlyWhen(text: string, found: seq<Mark>, defaultTitle: string, rows: seq<Row>,
                                 cuts: seq<seq<Piece>>, prefix: seq<string> -> string)
    requires IsTrimmed(text) && found != [] && forall m :: m in found ==> 1 <= m.level <= 6 && m.start < |text|
    requires Marks(MarksOf(found), |text|) && MarksOf(found) != []
    requires rows == RowsBefore(text, MarksOf(found), defaultTitle, HasBody, |MarksOf(found)|)
    requires |cuts| == |rows| && forall i :: 0 <= i < |rows| ==> CutOf(rows[i].content, cuts[i])
    ensures var ms := MarksOf(found);
      AllExact(text, rows, cuts, prefix) <==>
        forall j: nat :: j < |ms| && HasBody(Content(text, ms, j)) ==> !IsSpace(text[ms[j].start])
  {
    forall i | 0 <= i < |rows| ensures Fits(text, rows[i]) {
      SectionsFit(text, found, defaultTitle, rows[i]);
    }
    AllExactExactlyWhen(text, rows, cuts, prefix);
    StartsExactlyWhen(text, MarksOf(found), defaultTitle, HasBody, rows);
  }

  lemma StartsExactlyWhen(text: string, ms: seq<Mark>, defaultTitle: string, keep: string -> bool, rows: seq<Row>)
    requires IsTrimmed(text) && Marks(ms, |text|) && ms != [] && rows == RowsBefore(text, ms, defaultTitle, keep, |ms|)
    requires forall content :: keep(content) ==> content != ""
    ensures (forall i :: 0 <= i < |rows| ==> StartsWithText(text, rows[i])) <==>
      forall j: nat :: j < |ms| && keep(Content(text, ms, j)) ==> !IsSpace(text[ms[j].start])
  {
    if forall i :: 0 <= i < |rows| ==> StartsWithText(text, rows[i]) {
      forall j: nat | j < |ms| && keep(Content(text, ms, j)) ensures !IsSpace(text[ms[j].start]) {
        RowOfHeading(text, ms, defaultTitle, keep, |ms|, j);
        var i :| 0 <= i < |rows| && rows[i] == RowOf(text, ms, defaultTitle, j);
        assert StartsWithText(text, rows[i]);
      }
    }
    if forall j: nat :: j < |ms| && keep(Content(text, ms, j)) ==> !IsSpace(text[ms[j].start]) {
      forall i | 0 <= i < |rows| ensures StartsWithText(text, rows[i]) {
        var j := HeadingOfRow(text, ms, defaultTitle, keep, |ms|, rows[i]);
        RowsAreExact(text, ms, defaultTitle, keep, |ms|, rows[i]);
      }
    }
  }

  // ---------------------------------------------------------------- sections that are given

  /** Where given sections stand: one after the other, two characters apart. */
  function GivenRows(titles: seq<string>, contents: seq<string>): seq<Row>
    requires |titles| == |contents|
  {
    if contents == [] then []
    else
      var k := |contents| - 1;
      GivenRows(titles[..k], contents[..k]) +
        [Row([titles[k]], contents[k], Cursor(contents[..k]), Cursor(contents[..k]) + |contents[k]|)]
  }

  /** `cursor += len(content) + 2` */
  function Cursor(contents: seq<string>): nat {
    if contents == [] then 0 else Cursor(contents[..|contents| - 1]) + |contents[|contents| - 1]| + 2
  }

  /** Every content followed by a blank line. */
  function Written(contents: seq<string>): (s: string)
    ensures |s| == Cursor(contents)
  {
    if contents == [] then "" else Written(contents[..|contents| - 1]) + contents[|contents| - 1] + "\n\n"
  }

  /** Given sections that are trimmed fit the text that has them one below the other, so that their chunks
      are always exact there. */
  lemma {:induction false} GivenRowsFit(titles: seq<string>, contents: seq<string>, more: string, row: Row)
    requires |titles| == |contents| && (forall c :: c in contents ==> IsTrimmed(c))
      && row in GivenRows(titles, contents)
    ensures Fits(Written(contents) + more, row) && StartsWithText(Written(contents) + more, row)
  {
    var k := |contents| - 1;
    var text := Written(contents) + more;
    assert contents[k] in contents && forall c :: c in contents[..k] ==> c in contents;
    if row in GivenRows(titles[..k], contents[..k]) {
      assert text == Written(contents[..k]) + (contents[k] + "\n\n" + more);
      GivenRowsFit(titles[..k], contents[..k], contents[k] + "\n\n" + more, row);
    } else {
      assert text == Written(contents[..k]) + (contents[k] + ("\n\n" + more));
      assert text[row.start..row.end] == contents[k];
      StripOfTrimmed(contents[k]);
      assert contents[k] != "" ==> text[row.start] == contents[k][0];
    }
  }
}
