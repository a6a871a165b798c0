/** Character windows over a text: the boundary-seeking splitter and its fixed-size control. */
module Windows {
  import opened Text
  import opened Integers

  /** A chunk and the offsets it claims to have in the text. */
  datatype Piece = Piece(text: string, start: nat, end: nat)

  /** A window before its surrounding white space is trimmed. */
  datatype Window = Window(start: nat, end: nat)

  /** The boundary marks in the order they are searched for. */
  const MARKS: seq<string> :=
    ["\n\n", "\n", "\U{3002}", "\U{FF1B}", ";", "\U{FF0C}", ",", " "]

  /** A single character after which a window may end. */
  predicate IsMark(c: char) {
    c == '\n' || c == '\U{3002}' || c == '\U{FF1B}' || c == ';' || c == '\U{FF0C}' || c == ',' || c == ' '
  }

  /** `max(0, min(overlap, size - 1))` */
  function Clamp(overlap: int, size: int): int { Max(0, Min(overlap, size - 1)) }

  // ---------------------------------------------------------------- trimming

  /** The row of one window: none if the window is blank. */
  function Trimmed(text: string, w: Window): seq<Piece> {
    if !(w.start <= w.end <= |text|) || Strip(text[w.start..w.end]) == "" then [] else
      var raw := text[w.start..w.end];
      [Piece(Strip(raw), w.start + LeadSpace(raw), w.start + TrimEnd(raw))]
  }

  lemma TrimmedIsPiece(text: string, w: Window)
    ensures forall p :: p in Trimmed(text, w) ==> IsPiece(text, p) && w.start <= p.start && p.end <= w.end
  {
    if Trimmed(text, w) != [] {
      var raw := text[w.start..w.end];
      StripFacts(raw);
      CoreIsPiece(text, w, LeadSpace(raw), TrimEnd(raw), Strip(raw));
    }
  }

  lemma CoreIsPiece(text: string, w: Window, a: nat, b: nat, core: string)
    requires w.start <= w.end <= |text| && a < b <= w.end - w.start
    requires core == text[w.start..w.end][a..b] && IsTrimmed(core)
    ensures IsPiece(text, Piece(core, w.start + a, w.start + b))
  {
    SliceOfSlice(text, w.start, w.end, a, b);
  }

  /** The rows that a list of raw windows yields: blank windows give none. */
  function TrimAll(text: string, ws: seq<Window>): seq<Piece>
  {
    if ws == [] then []
    else TrimAll(text, ws[..|ws| - 1]) + Trimmed(text, ws[|ws| - 1])
  }

  /** A piece is the exact, non-empty, trimmed slice at its own offsets. */
  predicate IsPiece(text: string, p: Piece) {
    p.start < p.end <= |text| && p.text == text[p.start..p.end] && IsTrimmed(p.text)
  }

  /** A text that fits one window is one row, unless it is blank. */
  function ShortRows(text: string): seq<Piece> {
    if Strip(text) != "" then [Piece(Strip(text), 0, |text|)] else []
  }

  predicate InPiece(p: Piece, i: int) { p.start <= i < p.end }

  ghost predicate Covered(rows: seq<Piece>, i: int) {
    exists p :: p in rows && InPiece(p, i)
  }

  /** Every character that is not white space lies in some row. */
  ghost predicate CoversText(text: string, rows: seq<Piece>) {
    forall i :: 0 <= i < |text| && !IsSpace(text[i]) ==> Covered(rows, i)
  }

  /** The next window starts later, inside or right after this one, and shares at most `overlap`
      characters with it. */
  predicate Meets(v: Window, w: Window, overlap: int) {
    v.start < w.start <= v.end <= w.start + overlap
  }

  /** Non-empty windows that start at the beginning of the text, always move forward, leave no gap
      and overlap by at most `overlap`. */
  ghost predicate TilesPrefix(ws: seq<Window>, n: nat, overlap: int) {
    ws != [] ==>
      var w := ws[|ws| - 1];
      && w.start < w.end <= n
      && TilesPrefix(ws[..|ws| - 1], n, overlap)
      && if |ws| == 1 then w.start == 0 else Meets(ws[|ws| - 2], w, overlap)
  }

  /** The same, and the last window reaches the end. */
  ghost predicate Tiles(ws: seq<Window>, n: nat, overlap: int) {
    ws != [] && ws[|ws| - 1].end == n && TilesPrefix(ws, n, overlap)
  }

  lemma TrimmedCovers(text: string, w: Window, i: int)
    requires w.start <= i < w.end <= |text| && !IsSpace(text[i])
    ensures Covered(Trimmed(text, w), i)
  {
    var raw := text[w.start..w.end];
    assert raw[i - w.start] == text[i];
    StripFacts(raw);
    StripBounds(raw);
    assert InPiece(Trimmed(text, w)[0], i);
  }

  lemma {:induction false} TrimAllPieces(text: string, ws: seq<Window>)
    ensures forall p :: p in TrimAll(text, ws) ==> IsPiece(text, p)
  {
    if ws != [] {
      TrimAllPieces(text, ws[..|ws| - 1]);
      TrimmedIsPiece(text, ws[|ws| - 1]);
    }
  }

  lemma {:induction false} TrimAllCovers(text: string, ws: seq<Window>, k: nat, i: int)
    requires k < |ws| && ws[k].end <= |text|
    requires ws[k].start <= i < ws[k].end && !IsSpace(text[i])
    ensures Covered(TrimAll(text, ws), i)
  {
    if k == |ws| - 1 {
      TrimmedCovers(text, ws[k], i);
      var p :| p in Trimmed(text, ws[k]) && InPiece(p, i);
      assert p in TrimAll(text, ws);
    } else {
      TrimAllCovers(text, ws[..|ws| - 1], k, i);
      var p :| p in TrimAll(text, ws[..|ws| - 1]) && InPiece(p, i);
      assert p in TrimAll(text, ws);
    }
  }

  lemma {:induction false} TilesReach(ws: seq<Window>, n: nat, overlap: int, i: nat) returns (k: nat)
    requires TilesPrefix(ws, n, overlap) && ws != [] && i < ws[|ws| - 1].end
    ensures k < |ws| && ws[k].start <= i < ws[k].end <= n
  {
    k := |ws| - 1;
    if i < ws[k].start {
      k := TilesReach(ws[..|ws| - 1], n, overlap, i);
    }
  }

  /** Tiling windows lose no content when they are trimmed, and every row is an exact slice. */
  lemma TilingCovers(text: string, ws: seq<Window>, overlap: int)
    requires Tiles(ws, |text|, overlap)
    ensures CoversText(text, TrimAll(text, ws))
    ensures forall p :: p in TrimAll(text, ws) ==> IsPiece(text, p)
  {
    forall i | 0 <= i < |text| && !IsSpace(text[i]) ensures Covered(TrimAll(text, ws), i) {
      var k := TilesReach(ws, |text|, overlap, i);
      TrimAllCovers(text, ws, k, i);
    }
    TrimAllPieces(text, ws);
  }

  // ---------------------------------------------------------------- smart windows

  /** `b` is the last single-character mark in the open interval. */
  ghost predicate LastMark(text: string, floor: int, target: int, b: int)
    requires 0 <= floor && target <= |text|
  {
    floor < b < target && IsMark(text[b]) && forall c :: b < c < target ==> !IsMark(text[c])
  }

  ghost predicate HasMark(text: string, floor: int, target: int)
    requires 0 <= floor && target <= |text|
  {
    exists b :: floor < b < target && IsMark(text[b])
  }

  /** Every mark starts with a mark character, and every mark character alone is a mark. */
  ghost predicate MarkList(marks: seq<string>) {
    && (forall m :: m in marks ==> m != "" && IsMark(m[0]))
    && (forall c :: IsMark(c) ==> [c] in marks)
  }

  lemma MarksAreMarkList()
    ensures MarkList(MARKS)
  {
    forall m | m in MARKS ensures m != "" && IsMark(m[0]) {
      var k :| 0 <= k < |MARKS| && MARKS[k] == m;
      assert k == 0 || k == 1 || k == 2 || k == 3 || k == 4 || k == 5 || k == 6 || k == 7;
    }
    forall c | IsMark(c) ensures [c] in MARKS {
      assert MARKS[1] == "\n" && MARKS[2] == "\U{3002}" && MARKS[3] == "\U{FF1B}" && MARKS[4] == ";";
      assert MARKS[5] == "\U{FF0C}" && MARKS[6] == "," && MARKS[7] == " ";
    }
  }

  /** The right-most occurrence of any mark: the eight substring searches together find the last
      mark character, or nothing beyond `floor`. */
  method LastBoundary(text: string, marks: seq<string>, floor: nat, target: nat) returns (best: int)
    requires target <= |text| && MarkList(marks)
    ensures if HasMark(text, floor, target) then LastMark(text, floor, target, best) else best <= floor
  {
    best := -1;
    for i := 0 to |marks|
      invariant best < 0 || (floor <= best < target && IsMark(text[best]))
      invariant forall j, c :: 0 <= j < i && floor <= c && c + |marks[j]| <= target && At(text, marks[j], c) ==>
        c <= best
    {
      var found := RFind(text, marks[i], floor, target);
      if found >= 0 {
        assert marks[i] in marks && text[found..found + |marks[i]|][0] == marks[i][0];
      }
      best := Max(best, found);
    }
    forall c | floor <= c < target && IsMark(text[c]) ensures c <= best {
      var j :| 0 <= j < |marks| && marks[j] == [text[c]];
      assert At(text, marks[j], c);
    }
  }

  function Floor(start: nat, size: int): int {
    start + Max(80, size * 55 / 100)
  }

  /** Two line feeds at a cut are kept together in the window that ends there. */
  function PastMark(text: string, b: nat): nat {
    if b + 1 < |text| && text[b] == '\n' && text[b + 1] == '\n' then b + 2 else b + 1
  }

  /** Where a boundary-seeking window that starts at `start` must end. */
  ghost predicate IsCut(text: string, size: int, w: Window) {
    && w.start < |text|
    && if w.start + size >= |text| then w.end == |text|
       else if HasMark(text, Floor(w.start, size), w.start + size) then
         exists b :: LastMark(text, Floor(w.start, size), w.start + size, b) && w.end == PastMark(text, b)
       else w.end == w.start + size
  }

  /** The end of the window that starts at `start`. */
  method WindowEnd(text: string, size: int, start: nat) returns (end: nat)
    requires 0 < size && start < |text|
    ensures IsCut(text, size, Window(start, end)) && start < end <= |text|
  {
    var target := Min(|text|, start + size);
    end := target;
    if target < |text| {
      var floor := Floor(start, size);
      MarksAreMarkList();
      var best := LastBoundary(text, MARKS, floor, target);
      if best > floor {
        end := best + (if At(text, "\n\n", best) then 2 else 1);
        assert end == PastMark(text, best) by {
          assert best + 2 <= |text| ==>
            (text[best..best + 2] == "\n\n" <==> text[best] == '\n' && text[best + 1] == '\n');
        }
        assert LastMark(text, floor, target, best);
      }
    }
  }

  /** Every window ends at its cut, and unless that is the end of the text the next one starts `overlap` characters
      before it but later than the window itself. */
  ghost predicate SmartRun(text: string, size: int, overlap: int, ws: seq<Window>) {
    ws != [] ==>
      var w := ws[|ws| - 1];
      && SmartRun(text, size, overlap, ws[..|ws| - 1])
      && IsCut(text, size, w)
      && (|ws| > 1 ==> ws[|ws| - 2].end < |text|)
      && w.start == if |ws| == 1 then 0 else Max(ws[|ws| - 2].start + 1, ws[|ws| - 2].end - overlap)
  }

  lemma ExtendRun(text: string, size: int, overlap: int, ws: seq<Window>, w: Window)
    requires TilesPrefix(ws, |text|, overlap) && SmartRun(text, size, overlap, ws) && 0 <= overlap
    requires IsCut(text, size, w) && w.start < w.end <= |text|
    requires if ws == [] then w.start == 0 else
      w.start == Max(ws[|ws| - 1].start + 1, ws[|ws| - 1].end - overlap) <= ws[|ws| - 1].end < |text|
    ensures TilesPrefix(ws + [w], |text|, overlap) && SmartRun(text, size, overlap, ws + [w])
    ensures TrimAll(text, ws + [w]) == TrimAll(text, ws) + Trimmed(text, w)
  {
    assert (ws + [w])[..|ws|] == ws;
  }

  /** Boundary-seeking windows: every window ends after the last mark in the final 45% of its span,
      if there is one. `ws` is the list of windows before trimming. */
  method SmartWindows(text: string, size: int, overlap: int)
    returns (rows: seq<Piece>, ghost ws: seq<Window>)
    ensures size <= 0 || |text| <= size ==>
      rows == ShortRows(text)
    ensures 0 < size < |text| ==>
      && Tiles(ws, |text|, Clamp(overlap, size))
      && SmartRun(text, size, Clamp(overlap, size), ws)
      && rows == TrimAll(text, ws)
  {
    ws := [];
    if size <= 0 || |text| <= size {
      rows := ShortRows(text);
      return;
    }
    var overlap := Max(0, Min(overlap, size - 1));
    rows := [];
    var start := 0;
    while start < |text|
      invariant 0 <= start < |text| && 0 <= overlap
      invariant rows == TrimAll(text, ws)
      invariant TilesPrefix(ws, |text|, overlap) && SmartRun(text, size, overlap, ws)
      invariant if ws == [] then start == 0 else
        start == Max(ws[|ws| - 1].start + 1, ws[|ws| - 1].end - overlap) <= ws[|ws| - 1].end < |text|
      decreases |text| - start
    {
      var end := WindowEnd(text, size, start);
      var w := Window(start, end);
      rows := rows + Trimmed(text, w);
      ExtendRun(text, size, overlap, ws, w);
      ws := ws + [w];
      if end >= |text| {
        break;
      }
      var nextStart := Max(start + 1, end - overlap);
      if nextStart <= start {
        nextStart := end;
      }
      start := nextStart;
    }
  }

  /** A raw window is at most one character longer than `size`, and a trimmed one never is. */
  lemma CutIsBounded(text: string, size: int, w: Window)
    requires 0 < size && IsCut(text, size, w) && w.end <= |text|
    ensures w.end - w.start <= size + 1
    ensures forall p :: p in Trimmed(text, w) ==> |p.text| <= size
  {
    TrimmedIsPiece(text, w);
    if w.end == w.start + size + 1 {
      assert text[w.end - 1] == '\n';
      EndsWithSpace(text, w);
    }
  }

  /** A window that ends with white space has a row that is shorter than the window. */
  lemma EndsWithSpace(text: string, w: Window)
    requires w.start < w.end <= |text| && IsSpace(text[w.end - 1])
    ensures forall p :: p in Trimmed(text, w) ==> |p.text| < w.end - w.start
  {
    var raw := text[w.start..w.end];
    StripFacts(raw);
    TrimEndIs(raw, |raw|);
    assert raw[|raw| - 1] == text[w.end - 1];
  }

  lemma {:induction false} CutsAreBounded(text: string, size: int, overlap: int, ws: seq<Window>)
    requires 0 < size && SmartRun(text, size, overlap, ws) && TilesPrefix(ws, |text|, overlap)
    ensures forall p :: p in TrimAll(text, ws) ==> |p.text| <= size
  {
    if ws != [] {
      CutsAreBounded(text, size, overlap, ws[..|ws| - 1]);
      CutIsBounded(text, size, ws[|ws| - 1]);
    }
  }

  lemma CutIsUnique(text: string, size: int, v: Window, w: Window)
    requires IsCut(text, size, v) && IsCut(text, size, w) && v.start == w.start
    ensures v == w
  {}

  /** One of the two lists of windows starts with the other. */
  lemma {:induction false} RunsAgree(text: string, size: int, overlap: int, vs: seq<Window>, ws: seq<Window>)
    requires SmartRun(text, size, overlap, vs) && SmartRun(text, size, overlap, ws) && |vs| <= |ws|
    ensures vs == ws[..|vs|]
    decreases |vs| + |ws|
  {
    if |vs| < |ws| {
      RunsAgree(text, size, overlap, vs, ws[..|ws| - 1]);
    } else if vs != [] {
      var n := |vs| - 1;
      RunsAgree(text, size, overlap, vs[..n], ws[..n]);
      assert n > 0 ==> vs[n - 1] == vs[..n][n - 1] && ws[n - 1] == ws[..n][n - 1];
      CutIsUnique(text, size, vs[n], ws[n]);
    }
  }

  /** Text, size and overlap determine the windows. */
  lemma SmartRunIsUnique(text: string, size: int, overlap: int, vs: seq<Window>, ws: seq<Window>)
    requires SmartRun(text, size, overlap, vs) && vs != [] && vs[|vs| - 1].end == |text|
    requires SmartRun(text, size, overlap, ws) && ws != [] && ws[|ws| - 1].end == |text|
    ensures vs == ws
  {
    if |vs| <= |ws| {
      ShorterRunIsAll(text, size, overlap, vs, ws);
    } else {
      ShorterRunIsAll(text, size, overlap, ws, vs);
    }
  }

  lemma ShorterRunIsAll(text: string, size: int, overlap: int, vs: seq<Window>, ws: seq<Window>)
    requires SmartRun(text, size, overlap, vs) && vs != [] && vs[|vs| - 1].end == |text|
    requires SmartRun(text, size, overlap, ws) && |vs| <= |ws|
    ensures vs == ws
  {
    var last := |vs| - 1;
    RunsAgree(text, size, overlap, vs, ws);
    SamePlace(vs, ws, last);
    if |vs| < |ws| {
      EarlierEndsInside(text, size, overlap, ws, last);
    }
  }

  lemma SamePlace(vs: seq<Window>, ws: seq<Window>, k: nat)
    requires |vs| <= |ws| && vs == ws[..|vs|] && k < |vs|
    ensures vs[k] == ws[k]
  {}

  /** Only the last window reaches the end of the text. */
  lemma {:induction false} EarlierEndsInside(text: string, size: int, overlap: int, ws: seq<Window>, k: nat)
    requires SmartRun(text, size, overlap, ws) && k < |ws| - 1
    ensures ws[k].end < |text|
  {
    if k < |ws| - 2 {
      EarlierEndsInside(text, size, overlap, ws[..|ws| - 1], k);
    }
  }

  // ---------------------------------------------------------------- where a window ends

  /** A window may end behind position `c`: a mark stands there, and the window is longer than 80 characters and
      than 55 % of the size, but not longer than the size. */
  predicate MayEndBehind(text: string, size: int, start: nat, c: int) {
    && start <= c < |text| && text[c] in "\n\U{3002}\U{FF1B};\U{FF0C}, "
    && 80 < c - start < size && 55 * size < 100 * (c - start)
  }

  /** No later position is like that. */
  ghost predicate LastToEndBehind(text: string, size: int, start: nat, c: int) {
    MayEndBehind(text, size, start, c) && forall d :: MayEndBehind(text, size, start, d) ==> d <= c
  }

  /** The mark at `c`, or the two line feeds of a blank line. */
  function Length(text: string, c: int): nat {
    if 0 <= c < |text| - 1 && text[c] == '\n' && text[c + 1] == '\n' then 2 else 1
  }

  /** A window that does not reach the end of the text ends behind the last character where it may - behind the second
      one, if a blank line starts there - and has full size if there is none. */
  lemma EndsWhere(text: string, size: int, w: Window)
    requires 0 < size && w.start + size < |text|
    ensures IsCut(text, size, w) <==>
      if exists c :: MayEndBehind(text, size, w.start, c)
      then exists c :: LastToEndBehind(text, size, w.start, c) && w.end == c + Length(text, c)
      else w.end == w.start + size
  {
    var floor, target := Floor(w.start, size), w.start + size;
    if HasMark(text, floor, target) {
      var b :| floor < b < target && IsMark(text[b]);
      MayEndIs(text, size, w.start, b);
    }
    if c :| MayEndBehind(text, size, w.start, c) {
      MayEndIs(text, size, w.start, c);
      assert HasMark(text, floor, target);
    }
    forall b: int ensures LastMark(text, floor, target, b) <==> LastToEndBehind(text, size, w.start, b)
      ensures LastMark(text, floor, target, b) ==> 0 <= b && PastMark(text, b) == b + Length(text, b)
    {
      LastIs(text, size, w.start, b);
    }
  }

  lemma MayEndIs(text: string, size: int, start: nat, c: int)
    requires 0 < size && start + size < |text|
    ensures MayEndBehind(text, size, start, c) <==> Floor(start, size) < c < start + size && IsMark(text[c])
  {
    FloorIs(size, c - start);
  }

  lemma LastIs(text: string, size: int, start: nat, c: int)
    requires 0 < size && start + size < |text|
    ensures LastMark(text, Floor(start, size), start + size, c) <==> LastToEndBehind(text, size, start, c)
    ensures LastMark(text, Floor(start, size), start + size, c) ==> 0 <= c && PastMark(text, c) == c + Length(text, c)
  {
    forall d: int ensures
      MayEndBehind(text, size, start, d) <==> Floor(start, size) < d < start + size && IsMark(text[d])
    {
      MayEndIs(text, size, start, d);
    }
  }

  lemma FloorIs(size: int, d: int)
    requires 0 < size
    ensures size * 55 / 100 < d <==> 55 * size < 100 * d
  {}

  /** So it has full size, or it is longer than 80 characters and than 55 % of the size. */
  lemma WindowIsLong(text: string, size: int, w: Window)
    requires 0 < size && IsCut(text, size, w) && w.end < |text|
    ensures w.end - w.start == size || (w.end - w.start > 80 && 100 * (w.end - w.start) > 55 * size)
  {}

  /** The bound `size + 1` on raw windows is reached: a blank line may straddle the target. */
  lemma RawWindowCanExceedSize()
    ensures exists text, size, w :: 0 < size && IsCut(text, size, w) && w.end - w.start == size + 1
  {
    var text := seq(102, i => if i == 99 || i == 100 then '\n' else 'a');
    var w := Window(0, 101);
    assert LastMark(text, Floor(0, 100), 0 + 100, 99) && PastMark(text, 99) == 101;
    assert IsCut(text, 100, w);
  }

  /** The row of a text that fits one window has the right offsets exactly when the text is already
      trimmed, as normalised text is. */
  lemma ShortRowIsExact(text: string)
    requires !AllSpace(text)
    ensures IsPiece(text, Piece(Strip(text), 0, |text|)) <==> IsTrimmed(text)
  {
    StripOfTrimmed(text);
    assert text[0..|text|] == text;
  }

  /** The rows of the boundary-seeking windows. */
  ghost predicate IsSmartCut(text: string, size: int, overlap: int, rows: seq<Piece>) {
    if size <= 0 || |text| <= size then rows == ShortRows(text)
    else exists ws :: AreSmartWindows(text, size, overlap, ws) && rows == TrimAll(text, ws)
  }

  ghost predicate AreSmartWindows(text: string, size: int, overlap: int, ws: seq<Window>) {
    Tiles(ws, |text|, Clamp(overlap, size)) && SmartRun(text, size, Clamp(overlap, size), ws)
  }

  lemma SmartCutIsUnique(text: string, size: int, overlap: int, a: seq<Piece>, b: seq<Piece>)
    requires IsSmartCut(text, size, overlap, a) && IsSmartCut(text, size, overlap, b)
    ensures a == b
  {
    if 0 < size < |text| {
      var vs :| AreSmartWindows(text, size, overlap, vs) && a == TrimAll(text, vs);
      var ws :| AreSmartWindows(text, size, overlap, ws) && b == TrimAll(text, ws);
      SmartRunIsUnique(text, size, Clamp(overlap, size), vs, ws);
    }
  }

  /** The `recursive` strategy on normalised text: exact slices within the size bound, and no
      content lost. */
  method RecursiveChunks(text: string, size: int, overlap: int) returns (rows: seq<Piece>)
    requires IsTrimmed(text)
    ensures IsSmartCut(text, size, overlap, rows)
    ensures forall p :: p in rows ==> IsPiece(text, p) && (size > 0 ==> |p.text| <= size)
    ensures CoversText(text, rows)
  {
    ghost var ws;
    rows, ws := SmartWindows(text, size, overlap);
    if 0 < size < |text| {
      assert AreSmartWindows(text, size, overlap, ws);
      TilingCovers(text, ws, Clamp(overlap, size));
      CutsAreBounded(text, size, Clamp(overlap, size), ws);
    } else {
      ShortRowCovers(text, rows);
    }
  }

  lemma ShortRowCovers(text: string, rows: seq<Piece>)
    requires IsTrimmed(text)
    requires rows == ShortRows(text)
    ensures CoversText(text, rows)
    ensures forall p :: p in rows ==> IsPiece(text, p) && p.text == text
  {
    StripFacts(text);
    if !AllSpace(text) {
      ShortRowIsExact(text);
      StripOfTrimmed(text);
      forall i | 0 <= i < |text| ensures Covered(rows, i) {
        assert rows[0] in rows && InPiece(rows[0], i);
      }
    }
  }

  // ---------------------------------------------------------------- fixed windows

  /** The k-th fixed window. */
  function FixedWindow(n: nat, size: int, step: int, k: nat): Window
    requires 0 < size && 0 < step && k * step <= n
  {
    Window(k * step, Min(n, k * step + size))
  }

  /** Windows the loop emits: one, and one more per step needed to reach the end. */
  function FixedCount(n: nat, size: int, step: int): int
    requires 0 < step
  {
    1 + (n - size + step - 1) / step
  }

  lemma ExtendFixed(text: string, size: int, step: int, ws: seq<Window>, w: Window)
    requires 0 < step <= size && FixedRun(|text|, size, step, ws)
    requires |ws| * step < |text| && w == FixedWindow(|text|, size, step, |ws|)
    requires ws != [] ==> (|ws| - 1) * step + size < |text|
    ensures FixedRun(|text|, size, step, ws + [w]) && TilesPrefix(ws + [w], |text|, size - step)
    ensures TrimAll(text, ws + [w]) == TrimAll(text, ws) + Trimmed(text, w)
    ensures (|ws| + 1) * step == |ws| * step + step
  {
    assert (ws + [w])[..|ws|] == ws;
    Distribute(|ws|, step);
    FixedRunTiles(|text|, size, step, ws + [w]);
  }

  /** As many windows as it takes, the k-th at k times the step. */
  ghost predicate CutsFixed(n: nat, size: int, step: int, ws: seq<Window>)
    requires 0 < size && 0 < step
  {
    |ws| == FixedCount(n, size, step) && forall k :: 0 <= k < |ws| ==> IsFixedWindow(n, size, step, k, ws[k])
  }

  lemma FixedCuts(n: nat, size: int, step: int, ws: seq<Window>)
    requires 0 < step <= size < n && ws != [] && FixedRun(n, size, step, ws)
    requires (|ws| - 1) * step + size >= n && (|ws| == 1 || (|ws| - 2) * step + size < n)
    ensures CutsFixed(n, size, step, ws)
  {
    FixedCountIs(n, size, step, |ws|);
    FixedRunAll(n, size, step, ws);
  }

  /** Character windows: the k-th starts at `k * (size - overlap)`, and exactly
      `1 + ceil((n - size) / (size - overlap))` of them are cut. */
  method FixedWindows(text: string, size: int, overlap: int)
    returns (rows: seq<Piece>, ghost ws: seq<Window>)
    ensures size <= 0 || |text| <= size ==>
      rows == ShortRows(text)
    ensures 0 < size < |text| ==>
      var step := size - Clamp(overlap, size);
      && CutsFixed(|text|, size, step, ws)
      && Tiles(ws, |text|, Clamp(overlap, size))
      && rows == TrimAll(text, ws)
  {
    ws := [];
    if size <= 0 || |text| <= size {
      rows := ShortRows(text);
      return;
    }
    var overlap := Max(0, Min(overlap, size - 1));
    ghost var step := size - overlap;
    rows := [];
    var start := 0;
    while start < |text|
      invariant 0 <= start < |text| && start == |ws| * step
      invariant rows == TrimAll(text, ws) && FixedRun(|text|, size, step, ws)
      invariant ws != [] ==> (|ws| - 1) * step + size < |text|
      decreases |text| - start
    {
      var end := Min(|text|, start + size);
      var w := Window(start, end);
      rows := rows + Trimmed(text, w);
      ExtendFixed(text, size, step, ws, w);
      ws := ws + [w];
      if end >= |text| {
        FixedCuts(|text|, size, step, ws);
        break;
      }
      start := Max(start + 1, end - overlap);
    }
  }

  /** The first windows of the arithmetic progression. */
  ghost predicate FixedRun(n: nat, size: int, step: int, ws: seq<Window>)
    requires 0 < size && 0 < step
  {
    ws != [] ==>
      var k := |ws| - 1;
      FixedRun(n, size, step, ws[..k]) && k * step < n && ws[k] == FixedWindow(n, size, step, k)
  }

  /** `w` is the k-th fixed window: it starts at k times the step. */
  predicate IsFixedWindow(n: nat, size: int, step: int, k: nat, w: Window)
    requires 0 < size && 0 < step
  {
    k * step < n && w == FixedWindow(n, size, step, k)
  }

  lemma FixedRunAll(n: nat, size: int, step: int, ws: seq<Window>)
    requires 0 < size && 0 < step && FixedRun(n, size, step, ws)
    ensures forall k :: 0 <= k < |ws| ==> IsFixedWindow(n, size, step, k, ws[k])
  {
    forall k | 0 <= k < |ws| ensures IsFixedWindow(n, size, step, k, ws[k]) {
      FixedRunAt(n, size, step, ws, k);
    }
  }

  lemma {:induction false} FixedRunAt(n: nat, size: int, step: int, ws: seq<Window>, k: nat)
    requires 0 < size && 0 < step && FixedRun(n, size, step, ws) && k < |ws|
    ensures IsFixedWindow(n, size, step, k, ws[k])
  {
    if k < |ws| - 1 {
      FixedRunAt(n, size, step, ws[..|ws| - 1], k);
    }
  }

  lemma {:induction false} FixedRunTiles(n: nat, size: int, step: int, ws: seq<Window>)
    requires 0 < step <= size && FixedRun(n, size, step, ws)
    requires |ws| > 1 ==> (|ws| - 2) * step + size < n
    ensures TilesPrefix(ws, n, size - step)
  {
    if ws != [] {
      var k := |ws| - 1;
      Distribute(k - 1, step);
      Distribute(k - 2, step);
      FixedRunTiles(n, size, step, ws[..k]);
    }
  }

  lemma Distribute(k: int, step: int)
    ensures (k + 1) * step == k * step + step
  {}

  lemma FixedCountIs(n: nat, size: int, step: int, m: nat)
    requires 0 < size < n && 0 < step && 0 < m
    requires (m - 1) * step + size >= n
    requires m == 1 || (m - 2) * step + size < n
    ensures m == FixedCount(n, size, step)
  {
    var q := (n - size + step - 1) / step;
    var r := (n - size + step - 1) % step;
    assert n - size + step - 1 == q * step + r;
    Distribute(m - 2, step);
    if q < m - 1 {
      MulMonotone(q + 1, m - 1, step);
      Distribute(q, step);
      assert false;
    } else if q > m - 1 {
      MulMonotone(m, q, step);
      Distribute(m - 1, step);
      assert false;
    }
  }

  lemma MulMonotone(a: int, b: int, step: int)
    requires a <= b && 0 < step
    ensures a * step <= b * step
  {
    assert 0 <= (b - a) * step;
    assert (b - a) * step == b * step - a * step;
  }

  lemma {:induction false} FixedAreBounded(text: string, size: int, step: int, ws: seq<Window>)
    requires 0 < size && 0 < step && forall k :: 0 <= k < |ws| ==> IsFixedWindow(|text|, size, step, k, ws[k])
    ensures forall p :: p in TrimAll(text, ws) ==> |p.text| <= size
  {
    if ws != [] {
      assert IsFixedWindow(|text|, size, step, |ws| - 1, ws[|ws| - 1]);
      FixedAreBounded(text, size, step, ws[..|ws| - 1]);
      TrimmedIsPiece(text, ws[|ws| - 1]);
    }
  }

  /** The k-th of these windows starts at k times the step and has full size, except the last, which is the first
      to reach the end of the text. */
  ghost predicate AreFixedWindows(n: nat, size: int, step: int, ws: seq<Window>) {
    && ws != [] && ws[|ws| - 1].end == n
    && (forall k :: 0 <= k < |ws| ==> ws[k].start == k * step)
    && (forall k :: 0 <= k < |ws| - 1 ==> ws[k].end == ws[k].start + size < n)
    && ws[|ws| - 1].start + size >= n
  }

  lemma FixedWindowsAre(n: nat, size: int, step: int, ws: seq<Window>)
    requires 0 < step <= size < n && CutsFixed(n, size, step, ws)
    requires ws != [] && ws[|ws| - 1].end == n
    ensures AreFixedWindows(n, size, step, ws)
  {
    forall k | 0 <= k < |ws| ensures ws[k] == Window(k * step, Min(n, k * step + size)) {
      assert IsFixedWindow(n, size, step, k, ws[k]);
    }
    FixedEndsOnce(n, size, step, |ws|);
    forall k | 0 <= k < |ws| - 1 ensures k * step + size < n {
      MulMonotone(k, |ws| - 2, step);
    }
  }

  /** One window fewer would not reach the end. */
  lemma FixedEndsOnce(n: nat, size: int, step: int, m: nat)
    requires 0 < step <= size < n && m == FixedCount(n, size, step)
    ensures (m - 2) * step + size < n
  {
    var q := (n - size + step - 1) / step;
    assert q * step <= n - size + step - 1;
    Distribute(q - 1, step);
  }

  /** The `fixed` strategy on normalised text. */
  method FixedChunks(text: string, size: int, overlap: int) returns (rows: seq<Piece>)
    requires IsTrimmed(text)
    ensures size <= 0 || |text| <= size ==> rows == ShortRows(text)
    ensures 0 < size < |text| ==>
      exists ws :: AreFixedWindows(|text|, size, size - Clamp(overlap, size), ws) && rows == TrimAll(text, ws)
    ensures forall p :: p in rows ==> IsPiece(text, p) && (size > 0 ==> |p.text| <= size)
    ensures CoversText(text, rows)
  {
    ghost var ws;
    rows, ws := FixedWindows(text, size, overlap);
    if 0 < size < |text| {
      FixedWindowsAre(|text|, size, size - Clamp(overlap, size), ws);
      TilingCovers(text, ws, Clamp(overlap, size));
      FixedAreBounded(text, size, size - Clamp(overlap, size), ws);
    } else {
      ShortRowCovers(text, rows);
    }
  }
}
