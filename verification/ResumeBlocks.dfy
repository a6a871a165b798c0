/** The production resume splitter: paragraphs separated by blank lines, or single lines when there
    is at most one paragraph. It cuts the text into stripped strings first and recovers their
    positions afterwards by searching. */
module ResumeBlocks {
  import opened Text
  import opened Normalize
  import opened Windows
  import opened Integers

  /** `re.split(r"\n{2,}", s)` */
  function SplitBlankLines(s: string): seq<string>
    decreases |s|
  {
    var i := Find(s, "\n\n", 0);
    if i < 0 then [s]
    else
      ParagraphBreak(s, i);
      [s[..i]] + SplitBlankLines(s[i + RunLength(s[i..], IsNewline)..])
  }

  lemma ParagraphBreak(s: string, i: nat)
    requires At(s, "\n\n", i)
    ensures 2 <= RunLength(s[i..], IsNewline) <= |s| - i
  {
    assert s[i..][0] == s[i..i + 2][0] && s[i..][1] == s[i..i + 2][1];
    assert s[i..][1..][0] == '\n';
  }

  /** `[block.strip() for block in blocks if block.strip()]` */
  function StripAll(blocks: seq<string>): seq<string> {
    if blocks == [] then []
    else (if Strip(blocks[0]) == "" then [] else [Strip(blocks[0])]) + StripAll(blocks[1..])
  }

  // ---------------------------------------------------------------- where blocks lie

  ghost predicate SpaceBetween(text: string, a: nat, b: nat)
    requires b <= |text|
  {
    forall i :: a <= i < b ==> IsSpace(text[i])
  }

  /** The blocks lie in `text` from `from` on at positions `pos`, in order, without overlap, and with
      nothing but white space before, between and after them. */
  ghost predicate Placed(text: string, from: nat, blocks: seq<string>, pos: seq<nat>)
    decreases |blocks|
  {
    && |pos| == |blocks| && from <= |text|
    && if blocks == [] then SpaceBetween(text, from, |text|) else
         && from <= pos[0] && At(text, blocks[0], pos[0]) && SpaceBetween(text, from, pos[0])
         && blocks[0] != "" && IsTrimmed(blocks[0])
         && Placed(text, pos[0] + |blocks[0]|, blocks[1..], pos[1..])
  }

  lemma PlacedEarlier(text: string, a: nat, from: nat, blocks: seq<string>, pos: seq<nat>)
    requires Placed(text, from, blocks, pos) && a <= from && SpaceBetween(text, a, from)
    ensures Placed(text, a, blocks, pos)
  {}

  /** The stripped core of the raw block `text[from..e]`. */
  lemma CoreIsAt(text: string, from: nat, e: nat, raw: string)
    requires from <= e <= |text| && raw == text[from..e] && Strip(raw) != ""
    ensures var k := from + LeadSpace(raw);
      && At(text, Strip(raw), k) && SpaceBetween(text, from, k)
      && k + |Strip(raw)| == from + TrimEnd(raw) <= e && SpaceBetween(text, from + TrimEnd(raw), e)
      && IsTrimmed(Strip(raw))
  {
    StripFacts(raw);
    LeadSpaceIs(raw, LeadSpace(raw));
    TrimEndIs(raw, TrimEnd(raw));
    SliceOfSlice(text, from, e, LeadSpace(raw), TrimEnd(raw));
    forall i | from <= i < e ensures text[i] == raw[i - from] {}
  }

  /** One raw block and the white space after it, in front of blocks that are already placed. */
  lemma PlaceBlock(text: string, from: nat, e: nat, to: nat, raw: string, rest: seq<string>, pos: seq<nat>)
    returns (all: seq<nat>)
    requires from <= e <= to <= |text| && SpaceBetween(text, e, to) && raw == text[from..e]
    requires Placed(text, to, StripAll(rest), pos)
    ensures Placed(text, from, StripAll([raw] + rest), all)
  {
    StripAllCons(raw, rest);
    if Strip(raw) == "" {
      StripFacts(raw);
      BlankRange(text, from, e, raw);
      PlacedEarlier(text, from, to, StripAll(rest), pos);
      all := pos;
    } else {
      PlaceCore(text, from, e, to, raw, StripAll(rest), pos);
      all := [from + LeadSpace(raw)] + pos;
    }
  }

  lemma PlaceCore(text: string, from: nat, e: nat, to: nat, raw: string, rest: seq<string>, pos: seq<nat>)
    requires from <= e <= to <= |text| && SpaceBetween(text, e, to) && raw == text[from..e] && Strip(raw) != ""
    requires Placed(text, to, rest, pos)
    ensures Placed(text, from, [Strip(raw)] + rest, [from + LeadSpace(raw)] + pos)
  {
    var core, k := Strip(raw), from + LeadSpace(raw);
    CoreIsAt(text, from, e, raw);
    PlacedEarlier(text, k + |core|, to, rest, pos);
    PlacedCons(text, from, core, k, rest, pos);
  }

  lemma StripAllCons(raw: string, rest: seq<string>)
    ensures StripAll([raw] + rest) == (if Strip(raw) == "" then StripAll(rest) else [Strip(raw)] + StripAll(rest))
  {
    assert ([raw] + rest)[1..] == rest;
  }

  lemma PlacedCons(text: string, from: nat, b: string, k: nat, rest: seq<string>, pos: seq<nat>)
    requires from <= k <= |text| && SpaceBetween(text, from, k) && At(text, b, k) && b != "" && IsTrimmed(b)
    requires Placed(text, k + |b|, rest, pos)
    ensures Placed(text, from, [b] + rest, [k] + pos)
  {
    assert ([b] + rest)[1..] == rest && ([k] + pos)[1..] == pos;
  }

  lemma BlankRange(text: string, from: nat, e: nat, raw: string)
    requires from <= e <= |text| && raw == text[from..e] && AllSpace(raw)
    ensures SpaceBetween(text, from, e)
  {
    forall i | from <= i < e ensures IsSpace(text[i]) {
      assert text[i] == raw[i - from];
    }
  }

  lemma SplitFound(s: string, i: nat, n: nat)
    requires i == Find(s, "\n\n", 0) && i < |s| && n == RunLength(s[i..], IsNewline)
    ensures SplitBlankLines(s) == [s[..i]] + SplitBlankLines(s[i + n..])
  {}

  lemma {:induction false} ParagraphsPlaced(text: string, from: nat, s: string) returns (pos: seq<nat>)
    requires from <= |text| && s == text[from..]
    ensures Placed(text, from, StripAll(SplitBlankLines(s)), pos)
    decreases |s|
  {
    var i := Find(s, "\n\n", 0);
    if i < 0 {
      pos := LoneParagraph(text, from, s);
    } else {
      ParagraphBreak(s, i);
      var n := RunLength(s[i..], IsNewline);
      SuffixParts(text, from, s, i, n);
      var later := ParagraphsPlaced(text, from + i + n, s[i + n..]);
      SplitFound(s, i, n);
      pos := ParagraphBefore(text, from, s, i, n, SplitBlankLines(s[i + n..]), later);
    }
  }

  lemma ParagraphBefore(text: string, from: nat, s: string, i: nat, n: nat, rest: seq<string>, later: seq<nat>)
    returns (pos: seq<nat>)
    requires from <= |text| && s == text[from..] && i + n <= |s| && n == RunLength(s[i..], IsNewline)
    requires Placed(text, from + i + n, StripAll(rest), later)
    ensures Placed(text, from, StripAll([s[..i]] + rest), pos)
  {
    NewlineRange(text, from, i, n, s);
    SuffixParts(text, from, s, i, n);
    pos := PlaceBlock(text, from, from + i, from + i + n, s[..i], rest, later);
  }

  lemma LoneParagraph(text: string, from: nat, s: string) returns (pos: seq<nat>)
    requires from <= |text| && s == text[from..] && Find(s, "\n\n", 0) < 0
    ensures Placed(text, from, StripAll(SplitBlankLines(s)), pos)
  {
    LoneBlock(text, from, s);
    pos := PlaceBlock(text, from, |text|, |text|, s, [], []);
  }

  lemma LoneBlock(text: string, from: nat, s: string)
    requires from <= |text| && s == text[from..]
    ensures s == text[from..|text|] && [s] == [s] + [] && SpaceBetween(text, |text|, |text|)
    ensures Placed(text, |text|, StripAll([]), [])
    ensures Find(s, "\n\n", 0) < 0 ==> SplitBlankLines(s) == [s] + []
  {}

  lemma SuffixParts(text: string, from: nat, s: string, i: nat, n: nat)
    requires from <= |text| && s == text[from..] && i + n <= |s|
    ensures s[i + n..] == text[from + i + n..] && s[..i] == text[from..from + i]
  {}

  lemma NewlineRange(text: string, from: nat, i: nat, n: nat, s: string)
    requires from <= |text| && s == text[from..] && i <= |s| && n == RunLength(s[i..], IsNewline)
    ensures SpaceBetween(text, from + i, from + i + n)
  {
    RunLengthIs(s[i..], IsNewline);
    forall k | from + i <= k < from + i + n ensures IsSpace(text[k]) {
      assert text[k] == s[k - from] == s[i..][k - from - i];
    }
  }

  lemma BreakRange(text: string, from: nat, e: nat, s: string)
    requires from <= |text| && s == text[from..] && e < |s| && IsBreak(s[e])
    ensures SpaceBetween(text, from + e, from + e + BreakLength(s, e))
  {
    assert text[from + e] == s[e];
    assert e + 1 < |s| ==> text[from + e + 1] == s[e + 1];
  }

  lemma {:induction false} LinesPlaced(text: string, from: nat, s: string) returns (pos: seq<nat>)
    requires from <= |text| && s == text[from..]
    ensures Placed(text, from, StripAll(SplitLines(s)), pos)
    decreases |s|
  {
    var e := LineEnd(s);
    if s == "" {
      pos := [];
    } else if e == |s| {
      assert s == text[from..|text|] && [s] == [s] + [];
      pos := PlaceBlock(text, from, |text|, |text|, s, [], []);
    } else {
      var to := e + BreakLength(s, e);
      var rest := SplitLines(s[to..]);
      assert SplitLines(s) == [s[..e]] + rest;
      assert s[to..] == text[from + to..];
      var more := LinesPlaced(text, from + to, s[to..]);
      pos := FirstLinePlaced(text, from, s, e, to, rest, more);
    }
  }

  lemma FirstLinePlaced(text: string, from: nat, s: string, e: nat, to: nat, rest: seq<string>, more: seq<nat>)
    returns (pos: seq<nat>)
    requires from <= |text| && s == text[from..] && e < |s| && IsBreak(s[e]) && to == e + BreakLength(s, e)
    requires Placed(text, from + to, StripAll(rest), more)
    ensures Placed(text, from, StripAll([s[..e]] + rest), pos)
  {
    BreakRange(text, from, e, s);
    SplitSuffix(text, from, s, e, to);
    pos := PlaceBlock(text, from, from + e, from + to, s[..e], rest, more);
  }

  lemma SplitSuffix(text: string, from: nat, s: string, e: nat, to: nat)
    requires from <= |text| && s == text[from..] && e <= to <= |s|
    ensures s[..e] == text[from..from + e] && s[to..] == text[from + to..]
  {}

  // ---------------------------------------------------------------- positions

  /** The search from the cursor finds the next block exactly where it was cut out: only white space
      lies before it, and it starts with another character. */
  lemma FindRecovers(text: string, cursor: nat, blocks: seq<string>, pos: seq<nat>, i: nat)
    requires i < |blocks| == |pos| && Placed(text, cursor, blocks[i..], pos[i..])
    ensures Find(text, blocks[i], cursor) == pos[i] && pos[i] + |blocks[i]| <= |text|
    ensures Placed(text, pos[i] + |blocks[i]|, blocks[i + 1..], pos[i + 1..])
  {
    assert blocks[i..][1..] == blocks[i + 1..] && pos[i..][1..] == pos[i + 1..];
    FindFirst(text, cursor, blocks[i], pos[i]);
  }

  lemma FindFirst(text: string, cursor: nat, b: string, k: nat)
    requires cursor <= k <= |text| && SpaceBetween(text, cursor, k) && At(text, b, k)
    requires b != "" && IsTrimmed(b)
    ensures Find(text, b, cursor) == k
  {
    var r := Find(text, b, cursor);
    assert 0 <= r <= k && text[r..r + |b|][0] == text[r];
  }

  /** The row of a block: at most 600 characters of it. */
  function BlockRow(block: string, start: nat): Piece {
    var piece := block[..Min(600, |block|)];
    Piece(piece, start, start + |piece|)
  }

  /** Paragraphs if there are at least two, else lines. */
  function Blocks(normalized: string): seq<string> {
    var paragraphs := StripAll(SplitBlankLines(normalized));
    if |paragraphs| <= 1 then StripAll(SplitLines(normalized)) else paragraphs
  }

  /** The first `n` blocks have their rows. */
  ghost predicate RowsUpTo(blocks: seq<string>, pos: seq<nat>, rows: seq<Piece>, n: nat) {
    && |rows| == n <= |blocks| == |pos|
    && forall i :: 0 <= i < n ==> rows[i] == BlockRow(blocks[i], pos[i])
  }

  /** Each block has its row, at its position. */
  ghost predicate RowsAt(blocks: seq<string>, pos: seq<nat>, rows: seq<Piece>) {
    RowsUpTo(blocks, pos, rows, |blocks|)
  }

  /** The loop that searches for each block behind the previous one: every search succeeds and finds
      the place its block was cut from. */
  method RecoverPositions(text: string, blocks: seq<string>, ghost pos: seq<nat>) returns (rows: seq<Piece>)
    requires Placed(text, 0, blocks, pos)
    ensures RowsAt(blocks, pos, rows)
  {
    rows := [];
    var cursor := 0;
    assert blocks[0..] == blocks && pos[0..] == pos;
    for i := 0 to |blocks|
      invariant 0 <= cursor <= |text| && Placed(text, cursor, blocks[i..], pos[i..])
      invariant RowsUpTo(blocks, pos, rows, i)
    {
      FindRecovers(text, cursor, blocks, pos, i);
      var idx := Find(text, blocks[i], cursor);
      if idx < 0 {
        idx := cursor;
      }
      rows := rows + [BlockRow(blocks[i], idx)];
      cursor := idx + |blocks[i]|;
    }
  }

  /** The splitter on any text: rows at the true positions of the blocks of the normalised text. */
  method ProductionResumeBlocks(text: string) returns (rows: seq<Piece>, ghost pos: seq<nat>)
    ensures var normalized := NormalizeText(text);
      Placed(normalized, 0, Blocks(normalized), pos) && RowsAt(Blocks(normalized), pos, rows)
  {
    var normalized := NormalizeText(text);
    assert normalized[0..] == normalized;
    var rawBlocks := StripAll(SplitBlankLines(normalized));
    pos := ParagraphsPlaced(normalized, 0, normalized);
    if |rawBlocks| <= 1 {
      rawBlocks := StripAll(SplitLines(normalized));
      pos := LinesPlaced(normalized, 0, normalized);
    }
    SomeBlock(text, rawBlocks, pos);
    if rawBlocks == [] && normalized != "" {
      assert false;
    }
    rows := RecoverPositions(normalized, rawBlocks, pos);
  }

  /** A non-empty normalised text has a block. */
  lemma SomeBlock(text: string, blocks: seq<string>, pos: seq<nat>)
    requires Placed(NormalizeText(text), 0, blocks, pos)
    ensures blocks == [] ==> NormalizeText(text) == ""
  {
    NormalizeIsNormal(text);
  }

  // ---------------------------------------------------------------- what the rows hold

  lemma {:induction false} PlacedAt(text: string, from: nat, blocks: seq<string>, pos: seq<nat>, i: nat)
    requires Placed(text, from, blocks, pos) && i < |blocks|
    ensures from <= pos[i] && At(text, blocks[i], pos[i]) && blocks[i] != "" && IsTrimmed(blocks[i])
    decreases i
  {
    if i > 0 {
      PlacedAt(text, pos[0] + |blocks[0]|, blocks[1..], pos[1..], i - 1);
    }
  }

  lemma {:induction false} PlacedInOrder(text: string, from: nat, blocks: seq<string>, pos: seq<nat>, i: nat, j: nat)
    requires Placed(text, from, blocks, pos) && i < j < |blocks|
    ensures pos[i] + |blocks[i]| <= pos[j]
    decreases i
  {
    if i == 0 {
      PlacedAt(text, pos[0] + |blocks[0]|, blocks[1..], pos[1..], j - 1);
    } else {
      PlacedInOrder(text, pos[0] + |blocks[0]|, blocks[1..], pos[1..], i - 1, j - 1);
    }
  }

  /** Every row is the slice at its own offsets, at most 600 characters long, and ends before the
      next row starts. */
  lemma RowsAreSlices(text: string, blocks: seq<string>, pos: seq<nat>, rows: seq<Piece>, i: nat)
    requires Placed(text, 0, blocks, pos) && RowsAt(blocks, pos, rows) && i < |rows|
    ensures rows[i].start < rows[i].end <= |text| && rows[i].text == text[rows[i].start..rows[i].end]
    ensures |rows[i].text| <= 600
    ensures forall j :: i < j < |rows| ==> rows[i].end <= rows[j].start
  {
    PlacedAt(text, 0, blocks, pos, i);
    SliceOfSlice(text, pos[i], pos[i] + |blocks[i]|, 0, Min(600, |blocks[i]|));
    forall j | i < j < |rows| ensures rows[i].end <= rows[j].start {
      PlacedInOrder(text, 0, blocks, pos, i, j);
    }
  }

  /** Every character that is not white space lies in a block. */
  lemma {:induction false} BlocksCover(text: string, from: nat, blocks: seq<string>, pos: seq<nat>, c: nat)
    returns (i: nat)
    requires Placed(text, from, blocks, pos) && from <= c < |text| && !IsSpace(text[c])
    ensures i < |blocks| && pos[i] <= c < pos[i] + |blocks[i]|
    decreases |blocks|
  {
    i := 0;
    if c >= pos[0] + |blocks[0]| {
      i := BlocksCover(text, pos[0] + |blocks[0]|, blocks[1..], pos[1..], c);
      i := i + 1;
    }
  }

  ghost predicate AllShort(blocks: seq<string>) {
    forall i :: 0 <= i < |blocks| ==> |blocks[i]| <= 600
  }

  /** The 600-character cut loses content exactly when some block is longer than that. */
  lemma LosesContentExactlyWhen(text: string, blocks: seq<string>, pos: seq<nat>, rows: seq<Piece>)
    requires Placed(text, 0, blocks, pos) && RowsAt(blocks, pos, rows)
    ensures CoversText(text, rows) <==> AllShort(blocks)
  {
    if AllShort(blocks) {
      forall c | 0 <= c < |text| && !IsSpace(text[c]) ensures Covered(rows, c) {
        var i := BlocksCover(text, 0, blocks, pos, c);
        assert rows[i] in rows && InPiece(rows[i], c);
      }
    } else {
      var i :| 0 <= i < |blocks| && |blocks[i]| > 600;
      LongBlockLosesItsEnd(text, blocks, pos, rows, i);
    }
  }

  lemma LongBlockLosesItsEnd(text: string, blocks: seq<string>, pos: seq<nat>, rows: seq<Piece>, i: nat)
    requires Placed(text, 0, blocks, pos) && RowsAt(blocks, pos, rows)
    requires i < |blocks| && |blocks[i]| > 600
    ensures !CoversText(text, rows)
  {
    PlacedAt(text, 0, blocks, pos, i);
    var c := pos[i] + |blocks[i]| - 1;
    assert text[c] == text[pos[i]..pos[i] + |blocks[i]|][|blocks[i]| - 1];
    forall j | 0 <= j < |rows| ensures !InPiece(rows[j], c) {
      if j < i {
        PlacedInOrder(text, 0, blocks, pos, j, i);
      } else if i < j {
        PlacedInOrder(text, 0, blocks, pos, i, j);
      }
    }
    assert !Covered(rows, c);
  }

  lemma {:induction false} OneLine(s: string)
    requires NoBreak(s)
    ensures LineEnd(s) == |s|
  {
    if s != "" {
      OneLine(s[1..]);
    }
  }

  lemma OneBlock(line: string)
    requires line != "" && IsTrimmed(line) && NoBreak(line)
    ensures Blocks(line) == [line]
  {
    OneLine(line);
    assert Find(line, "\n\n", 0) < 0;
    assert Strip(line) == line && [line][1..] == [];
    assert StripAll([line]) == [line];
  }

  /** A resume written on one line of more than 600 characters loses its end. */
  lemma LongLineLosesItsEnd(line: string, pos: seq<nat>, rows: seq<Piece>)
    requires IsNormal(line) && NoBreak(line) && |line| > 600
    requires Placed(line, 0, Blocks(line), pos) && RowsAt(Blocks(line), pos, rows)
    ensures NormalizeText(line) == line && |rows| == 1 && !CoversText(line, rows)
  {
    NormalizeFixedPoints(line);
    OneBlock(line);
    LongBlockLosesItsEnd(line, [line], pos, rows, 0);
  }
}
