/** The byte layout of the PDF writer: numbered objects, the cross-reference table and the trailer, and
    a reader that starts from the end of the file (sections 7.5.4 and 7.5.5 of ISO 32000-1). Bytes are
    characters below 256. */
module PdfFile {
  import opened Optional
  import opened Text
  import opened Decimal
  import opened PdfText

  // ---------------------------------------------------------------- objects

  function Catalog(): string { "<< /Type /Catalog /Pages 2 0 R >>" }

  /** `" ".join(f"{3 + i * 2} 0 R" for i in range(n))` */
  function Kids(n: nat): string {
    if n == 0 then "" else if n == 1 then Dec(3) + " 0 R"
    else Kids(n - 1) + " " + Dec(3 + 2 * (n - 1)) + " 0 R"
  }

  function PagesOpen(): string { "<< /Type /Pages /Kids [" }

  function PagesMiddle(): string { "] /Count " }

  function PagesClose(): string { " >>" }

  function PagesObject(n: nat): string {
    PagesOpen() + Kids(n) + PagesMiddle() + Dec(n) + PagesClose()
  }

  /** What every page object starts with. */
  function PageHead(): string {
    "<< /Type /Page /Parent 2 0 R /MediaBox [0 0 595 842] " +
    "/Resources << /Font << /F1 << /Type /Font /Subtype /Type1 /BaseFont /Helvetica >> >> >> " +
    "/Contents "
  }

  function PageClose(): string { " 0 R >>" }

  function PageObject(head: string, contents: nat): string {
    head + (Dec(contents) + PageClose())
  }

  function PageWith(head: string): nat -> string {
    (contents: nat) => PageObject(head, contents)
  }

  function LengthOpen(): string { "<< /Length " }

  function StreamOpen(): string { " >>\nstream\n" }

  function StreamClose(): string { "\nendstream" }

  /** A stream object: its length entry counts exactly the bytes of the stream. */
  function StreamObject(stream: string): string {
    LengthOpen() + Dec(|stream|) + StreamOpen() + stream + StreamClose()
  }

  function StreamOf(lines: seq<string>): string { StreamObject(Stream(lines)) }

  /** For every page a page object and a stream object; the contents of page `k` are object `4 + 2k`. */
  function Interleave(pages: seq<seq<string>>, page: nat -> string, stream: seq<string> -> string): seq<string> {
    if pages == [] then []
    else
      var k := |pages| - 1;
      Interleave(pages[..k], page, stream) + [page(4 + 2 * k), stream(pages[k])]
  }

  function Objects(head: string, pages: seq<seq<string>>): seq<string> {
    [Catalog(), PagesObject(|pages|)] + Interleave(pages, PageWith(head), StreamOf)
  }

  lemma {:induction false} InterleaveLength(pages: seq<seq<string>>, page: nat -> string, stream: seq<string> -> string)
    ensures |Interleave(pages, page, stream)| == 2 * |pages|
  {
    if pages != [] {
      InterleaveLength(pages[..|pages| - 1], page, stream);
    }
  }

  lemma {:induction false} InterleaveAt(pages: seq<seq<string>>, page: nat -> string, stream: seq<string> -> string,
                                        k: nat)
    requires k < |pages|
    ensures var objs := Interleave(pages, page, stream);
      |objs| == 2 * |pages| && objs[2 * k] == page(4 + 2 * k) && objs[2 * k + 1] == stream(pages[k])
  {
    var n := |pages| - 1;
    var init := Interleave(pages[..n], page, stream);
    InterleaveLength(pages, page, stream);
    InterleaveLength(pages[..n], page, stream);
    LastTwo(init, page(4 + 2 * n), stream(pages[n]));
    if k < n {
      InterleaveAt(pages[..n], page, stream, k);
    }
  }

  lemma LastTwo(s: seq<string>, a: string, b: string)
    ensures |s + [a, b]| == |s| + 2 && (s + [a, b])[|s|] == a && (s + [a, b])[|s| + 1] == b
    ensures forall i :: 0 <= i < |s| ==> (s + [a, b])[i] == s[i]
  {}

  // ---------------------------------------------------------------- layout

  function FrameOpen(i: nat): string { Dec(i) + " 0 obj\n" }

  function FrameClose(): string { "\nendobj\n" }

  /** Object `i` as written: `i 0 obj`, the object, `endobj`. */
  function Frame(i: nat, obj: string): string {
    FrameOpen(i) + obj + FrameClose()
  }

  function Header(): string { "%PDF-1.4\n%\U{E2}\U{E3}\U{CF}\U{D3}\n" }

  /** The file up to and including object `n`. */
  function Body(objs: seq<string>, n: nat): string
    requires n <= |objs|
  {
    if n == 0 then Header() else Body(objs, n - 1) + Frame(n, objs[n - 1])
  }

  /** Where object `i` starts. */
  function Offset(objs: seq<string>, i: nat): nat
    requires 1 <= i <= |objs|
  {
    |Body(objs, i - 1)|
  }

  function EntryTail(): string { " 00000 n \n" }

  /** The table entries of the first `n` objects. */
  function TableEntries(objs: seq<string>, n: nat): string
    requires n <= |objs|
  {
    if n == 0 then "" else TableEntries(objs, n - 1) + (Pad10(Offset(objs, n)) + EntryTail())
  }

  function XrefOpen(): string { "xref\n0 " }

  function FreeEntry(): string { "0000000000 65535 f \n" }

  function Table(objs: seq<string>): string {
    XrefOpen() + (Dec(|objs| + 1) + ("\n" + (FreeEntry() + TableEntries(objs, |objs|))))
  }

  function TrailerOpen(objs: seq<string>): string {
    "trailer\n<< /Size " + Dec(|objs| + 1) + " /Root 1 0 R >>\nstartxref\n"
  }

  function FileEnd(): string { "\n%%EOF\n" }

  function File(objs: seq<string>): string {
    var body := Body(objs, |objs|);
    body + (Table(objs) + (TrailerOpen(objs) + (Dec(|body|) + FileEnd())))
  }

  /** The list of offsets that the writer keeps: zero, then the offset of every object. */
  ghost predicate OffsetsAre(objs: seq<string>, offsets: seq<nat>, n: nat)
    requires n <= |objs|
  {
    |offsets| == n + 1 && offsets[0] == 0 && forall i :: 1 <= i <= n ==> offsets[i] == Offset(objs, i)
  }

  lemma InterleaveNext(pages: seq<seq<string>>, page: nat -> string, stream: seq<string> -> string, k: nat,
                       start: seq<string>)
    requires k < |pages|
    ensures start + Interleave(pages[..k + 1], page, stream) ==
      start + Interleave(pages[..k], page, stream) + [page(4 + 2 * k)] + [stream(pages[k])]
  {
    assert pages[..k + 1][..k] == pages[..k];
    AppendTwo(start, Interleave(pages[..k], page, stream), page(4 + 2 * k), stream(pages[k]));
  }

  lemma AppendTwo(s: seq<string>, t: seq<string>, a: string, b: string)
    ensures s + t + [a] + [b] == s + (t + [a, b])
  {}

  /** The loop over the pages. */
  method BuildObjects(head: string, pages: seq<seq<string>>) returns (objs: seq<string>)
    ensures objs == Objects(head, pages)
  {
    objs := [Catalog()];
    objs := objs + [PagesObject(|pages|)];
    ghost var start := objs;
    assert start == [Catalog(), PagesObject(|pages|)];
    for idx := 0 to |pages|
      invariant objs == start + Interleave(pages[..idx], PageWith(head), StreamOf)
    {
      var pageObj := 3 + idx * 2;
      var contentObj := pageObj + 1;
      InterleaveNext(pages, PageWith(head), StreamOf, idx, start);
      var stream := WriteStream(pages[idx]);
      objs := objs + [PageObject(head, contentObj)];
      objs := objs + [StreamObject(stream)];
    }
    assert pages[..|pages|] == pages;
  }

  /** The loop that writes the entries of the table. */
  method WriteEntries(objs: seq<string>, offsets: seq<nat>) returns (entries: string)
    requires OffsetsAre(objs, offsets, |objs|)
    ensures entries == TableEntries(objs, |objs|)
  {
    entries := "";
    for i := 1 to |offsets|
      invariant entries == TableEntries(objs, i - 1)
    {
      entries := entries + (Pad10(offsets[i]) + EntryTail());
    }
  }

  /** The loop over the objects, and what is written around it. */
  method WriteObjects(objs: seq<string>) returns (data: string)
    ensures data == File(objs)
  {
    data := Header();
    var offsets: seq<nat> := [0];
    for i := 1 to |objs| + 1
      invariant data == Body(objs, i - 1) && OffsetsAre(objs, offsets, i - 1)
    {
      offsets := offsets + [|data|];
      data := data + Frame(i, objs[i - 1]);
    }
    var xrefOffset := |data|;
    var entries := WriteEntries(objs, offsets);
    var table := XrefOpen() + (Dec(|objs| + 1) + ("\n" + (FreeEntry() + entries)));
    data := data + (table + (TrailerOpen(objs) + (Dec(xrefOffset) + FileEnd())));
  }

  /** `write_simple_pdf`: the bytes written for a text. */
  method WriteSimplePdf(text: string) returns (data: string)
    ensures data == File(Objects(PageHead(), PagesOf(text)))
  {
    var lines := WrapLines(text);
    var pages := SplitPages(lines);
    var objs := BuildObjects(PageHead(), pages);
    data := WriteObjects(objs);
  }

  // ---------------------------------------------------------------- reading back

  /** `pattern` stands at offset `i`. */
  predicate Stands(data: string, i: nat, pattern: string) {
    i + |pattern| <= |data| && data[i..i + |pattern|] == pattern
  }

  /** The end of the run of digits that starts at `i`. */
  function DigitsEnd(data: string, i: nat): (e: nat)
    requires i <= |data|
    ensures i <= e <= |data|
    decreases |data| - i
  {
    if i == |data| || !IsDigit(data[i]) then i else DigitsEnd(data, i + 1)
  }

  /** The start of the run of digits that ends at `e`. */
  function DigitsStart(data: string, e: nat): (i: nat)
    requires e <= |data|
    ensures i <= e
  {
    if e == 0 || !IsDigit(data[e - 1]) then e else DigitsStart(data, e - 1)
  }

  /** The number at `i`, which must be followed by `close`. */
  function ReadNumber(s: string, i: nat, close: string): Option<nat>
    requires i <= |s|
  {
    var e := DigitsEnd(s, i);
    if e == i || !Stands(s, e, close) then None else Some(Parse(s[i..e]))
  }

  /** The number between `startxref` and the end-of-file marker. */
  function ReadStartXref(data: string): Option<nat> {
    if |data| < 7 || !Stands(data, |data| - 7, "\n%%EOF\n") then None
    else
      var s := DigitsStart(data, |data| - 7);
      if s == |data| - 7 || s < 10 || !Stands(data, s - 10, "startxref\n") then None
      else Some(Parse(data[s..|data| - 7]))
  }

  /** Two bytes end an entry of the table. */
  predicate EndsEntry(s: string) { s == " \n" || s == " \r" || s == "\r\n" }

  /** The entry of an object in use: ten digits of its offset, five of its generation, and an `n`. */
  datatype Entry = Entry(offset: nat, generation: nat)

  function ReadEntry(s: string): Option<Entry>
    requires |s| == 20
  {
    if AllDigits(s[..10]) && s[10] == ' ' && AllDigits(s[11..16]) && s[16] == ' ' && s[17] == 'n' && EndsEntry(s[18..])
    then Some(Entry(Parse(s[..10]), Parse(s[11..16])))
    else None
  }

  /** The entry of object zero, which is free and has the largest generation. */
  predicate IsFreeHead(s: string)
    requires |s| == 20
  {
    s[..18] == "0000000000 65535 f" && EndsEntry(s[18..])
  }

  /** Where the entries of a table start, and how many there are. */
  datatype XrefTable = XrefTable(first: nat, count: nat)

  /** The table at `x`: one section, from object zero on. */
  function ReadTable(data: string, x: nat): Option<XrefTable> {
    if !Stands(data, x, "xref\n0 ") then None
    else
      var count, first := ReadNumber(data, x + 7, "\n"), DigitsEnd(data, x + 7) + 1;
      if count.None? || count.value == 0 || first + 20 * count.value > |data| || !IsFreeHead(data[first..first + 20])
      then None
      else Some(XrefTable(first, count.value))
  }

  /** The entry of object `i`. */
  function EntryOf(data: string, t: XrefTable, i: nat): Option<Entry> {
    var at := t.first + 20 * i;
    if i >= t.count || at + 20 > |data| then None else ReadEntry(data[at..at + 20])
  }

  /** The size and the catalog that the trailer at `at` names. */
  function ReadTrailer(data: string, at: nat): Option<(nat, nat)> {
    if !Stands(data, at, "trailer\n<< /Size ") then None
    else
      var size, e := ReadNumber(data, at + 17, " /Root "), DigitsEnd(data, at + 17);
      if size.None? then None
      else
        var root := ReadNumber(data, e + 7, " 0 R >>\nstartxref\n");
        if root.None? then None else Some((size.value, root.value))
  }

  /** The catalog that the trailer behind the table names; the size it gives must be the number of entries. */
  function ReadRoot(data: string, t: XrefTable): Option<nat> {
    var trailer := ReadTrailer(data, t.first + 20 * t.count);
    if trailer.None? || trailer.value.0 != t.count then None else Some(trailer.value.1)
  }

  lemma StandsAfter(a: string, b: string, c: string)
    ensures Stands(a + (b + c), |a|, b)
    ensures (a + (b + c))[|a| + |b|..] == c
  {
    assert (a + (b + c))[|a|..|a| + |b|] == b;
  }

  lemma StandsExtend(a: string, b: string, i: nat, p: string)
    requires Stands(a, i, p)
    ensures Stands(a + b, i, p)
  {
    assert (a + b)[i..i + |p|] == a[i..i + |p|];
  }

  /** What stands somewhere in something that stands somewhere. */
  lemma StandsIn(data: string, at: nat, whole: string, i: nat, p: string)
    requires Stands(data, at, whole) && Stands(whole, i, p)
    ensures Stands(data, at + i, p)
  {
    SliceOfSlice(data, at, at + |whole|, i, i + |p|);
  }

  lemma StandsFirst(s: string, i: nat, p: string, rest: string)
    requires i <= |s| && s[i..] == p + rest
    ensures Stands(s, i, p)
  {
    assert s[i..][..|p|] == p;
  }

  /** Every object stands at its offset, complete. */
  lemma {:induction false} ObjectStandsInBody(objs: seq<string>, n: nat, i: nat)
    requires 1 <= i <= n <= |objs|
    ensures Stands(Body(objs, n), Offset(objs, i), Frame(i, objs[i - 1]))
  {
    if i < n {
      ObjectStandsInBody(objs, n - 1, i);
      StandsExtend(Body(objs, n - 1), Frame(n, objs[n - 1]), Offset(objs, i), Frame(i, objs[i - 1]));
    } else {
      StandsAfter(Body(objs, n - 1), Frame(n, objs[n - 1]), "");
      assert Frame(n, objs[n - 1]) + "" == Frame(n, objs[n - 1]);
    }
  }

  /** Offsets grow, so they are small when the last one is. */
  lemma {:induction false} OffsetBelow(objs: seq<string>, i: nat, n: nat)
    requires 1 <= i <= n <= |objs|
    ensures Offset(objs, i) <= |Body(objs, n)|
  {
    if i < n {
      OffsetBelow(objs, i, n - 1);
    }
  }

  /** While offsets have at most ten digits, entry `i` of the table stands at `20 * (i - 1)`. */
  lemma {:induction false} EntryStands(objs: seq<string>, n: nat, i: nat)
    requires 1 <= i <= n <= |objs| && |Body(objs, |objs|)| < Pow10(10)
    ensures |TableEntries(objs, n)| == 20 * n
    ensures Stands(TableEntries(objs, n), 20 * (i - 1), Pad10(Offset(objs, i)) + EntryTail())
    decreases n
  {
    var entry := Pad10(Offset(objs, n)) + EntryTail();
    OffsetBelow(objs, n, |objs|);
    Pad10Facts(Offset(objs, n));
    if n == 1 {
      assert TableEntries(objs, 0) == "" && "" + entry == entry;
    } else {
      EntryStands(objs, n - 1, if i < n then i else 1);
      if i < n {
        StandsExtend(TableEntries(objs, n - 1), entry, 20 * (i - 1), Pad10(Offset(objs, i)) + EntryTail());
      } else {
        StandsAfter(TableEntries(objs, n - 1), entry, "");
        assert entry + "" == entry;
      }
    }
  }

  lemma {:induction false} DigitsStartIs(a: string, digits: string)
    requires AllDigits(digits) && (a != "" ==> !IsDigit(a[|a| - 1]))
    ensures DigitsStart(a + digits, |a + digits|) == |a|
  {
    if digits != "" {
      var init := digits[..|digits| - 1];
      DigitsStartIs(a, init);
      assert (a + digits)[|a + digits| - 1] == digits[|digits| - 1];
      DigitsStartExtend(a + init, [digits[|digits| - 1]], |a + init|);
      assert a + digits == (a + init) + [digits[|digits| - 1]];
    }
  }

  lemma {:induction false} DigitsStartExtend(a: string, b: string, e: nat)
    requires e <= |a|
    ensures DigitsStart(a + b, e) == DigitsStart(a, e)
  {
    if e > 0 {
      DigitsStartExtend(a, b, e - 1);
    }
  }

  lemma {:induction false} DigitsEndIs(a: string, digits: string, b: string, i: nat)
    requires AllDigits(digits) && i <= |digits| && b != "" && !IsDigit(b[0])
    ensures DigitsEnd(a + (digits + b), |a| + i) == |a| + |digits|
    decreases |digits| - i
  {
    var s := a + (digits + b);
    if i < |digits| {
      assert s[|a| + i] == digits[i];
      DigitsEndIs(a, digits, b, i + 1);
    } else {
      assert s[|a| + i] == b[0];
    }
  }

  lemma ThreePieces(a: string, b: string, c: string)
    ensures var s := a + (b + c);
      Stands(s, 0, a) && s[|a|..|a| + |b|] == b && s[|a| + |b|..] == c
  {}

  lemma NumberReadsBack(before: string, n: nat, close: string, rest: string)
    requires close != "" && !IsDigit(close[0])
    ensures ReadNumber(before + (Dec(n) + (close + rest)), |before|, close) == Some(n)
    ensures DigitsEnd(before + (Dec(n) + (close + rest)), |before|) == |before| + |Dec(n)|
  {
    var digits := Dec(n);
    ParseDec(n);
    ThreePieces(before, digits, close + rest);
    DigitsEndIs(before, digits, close + rest, 0);
    StandsFirst(before + (digits + (close + rest)), |before| + |digits|, close, rest);
  }

  /** A number that stands somewhere, with what must follow it. */
  lemma NumberStands(data: string, at: nat, n: nat, close: string)
    requires close != "" && !IsDigit(close[0]) && Stands(data, at, Dec(n) + close)
    ensures ReadNumber(data, at, close) == Some(n) && DigitsEnd(data, at) == at + |Dec(n)|
  {
    var whole := Dec(n) + close;
    var before, rest := data[..at], data[at + |whole|..];
    assert data == before + (Dec(n) + (close + rest)) by {
      assert data == data[..at] + data[at..at + |whole|] + data[at + |whole|..];
    }
    NumberReadsBack(before, n, close, rest);
  }

  // ---------------------------------------------------------------- the end of the file

  lemma LastNumberReadsBack(front: string, n: nat)
    ensures ReadStartXref((front + "startxref\n") + (Dec(n) + FileEnd())) == Some(n)
  {
    var before := front + "startxref\n";
    var data := before + (Dec(n) + FileEnd());
    ParseDec(n);
    DigitsStartIs(before, Dec(n));
    Reassemble(before, Dec(n), FileEnd());
    DigitsStartExtend(before + Dec(n), FileEnd(), |before + Dec(n)|);
    assert Stands(data, |data| - 7, "\n%%EOF\n");
    assert Stands(data, |before| - 10, "startxref\n");
    assert data[|before|..|data| - 7] == Dec(n);
  }

  lemma Reassemble(a: string, b: string, c: string)
    ensures a + (b + c) == (a + b) + c
  {}

  /** Two ways to bracket a file made of a body, a table, a trailer, a number and an end. */
  lemma Bracketings(body: string, table: string, size: string, digits: string, root: string, start: string, end: string)
    ensures body + (table + ((size + digits + (root + start)) + end)) ==
      ((body + table + size + digits + root) + start) + end
  {}

  /** The reader finds the table: the number at the end of the file is its offset. */
  lemma StartXrefReadsBack(objs: seq<string>)
    ensures ReadStartXref(File(objs)) == Some(|Body(objs, |objs|)|)
  {
    var body := Body(objs, |objs|);
    Bracketings(body, Table(objs), "trailer\n<< /Size ", Dec(|objs| + 1), " /Root 1 0 R >>\n", "startxref\n",
                Dec(|body|) + FileEnd());
    TrailerIs(objs);
    LastNumberReadsBack(body + Table(objs) + "trailer\n<< /Size " + Dec(|objs| + 1) + " /Root 1 0 R >>\n", |body|);
  }

  lemma TrailerIs(objs: seq<string>)
    ensures TrailerOpen(objs) == "trailer\n<< /Size " + Dec(|objs| + 1) + (" /Root 1 0 R >>\n" + "startxref\n")
  {}

  // ---------------------------------------------------------------- the table and the trailer

  /** From offset `at` on, the data is `rest`. */
  predicate Follows(data: string, at: nat, rest: string)
    decreases at
  {
    if at == 0 then data == rest else data != "" && Follows(data[1..], at - 1, rest)
  }

  lemma {:induction false} FollowsIs(data: string, at: nat, rest: string)
    ensures Follows(data, at, rest) <==> at <= |data| && data[at..] == rest
    decreases at
  {
    if at > 0 && data != "" {
      FollowsIs(data[1..], at - 1, rest);
      assert at <= |data| ==> data[1..][at - 1..] == data[at..];
    }
  }

  lemma FollowsNext(data: string, at: nat, p: string, rest: string)
    requires Follows(data, at, p + rest)
    ensures Stands(data, at, p) && Follows(data, at + |p|, rest)
  {
    FollowsIs(data, at, p + rest);
    StandsFirst(data, at, p, rest);
    assert data[at..][|p|..] == rest;
    FollowsIs(data, at + |p|, rest);
  }

  lemma FollowsNumber(data: string, at: nat, n: nat, close: string, rest: string)
    requires close != "" && !IsDigit(close[0]) && Follows(data, at, Dec(n) + (close + rest))
    ensures at + |Dec(n)| + |close| <= |data|
    ensures ReadNumber(data, at, close) == Some(n) && DigitsEnd(data, at) == at + |Dec(n)|
    ensures Follows(data, at + |Dec(n)| + |close|, rest)
  {
    Reassemble(Dec(n), close, rest);
    FollowsNext(data, at, Dec(n) + close, rest);
    NumberStands(data, at, n, close);
  }

  /** What follows the body of the file, piece by piece. */
  function TableAndTrailer(count: nat, entries: string, ending: string): string {
    "xref\n0 " + (Dec(count) + ("\n" + (FreeEntry() + (entries + TrailerParts(count, ending)))))
  }

  function TrailerParts(count: nat, ending: string): string {
    "trailer\n<< /Size " + (Dec(count) + (" /Root " + (Dec(1) + (" 0 R >>\nstartxref\n" + ending))))
  }

  lemma FileIs(objs: seq<string>)
    ensures var body := Body(objs, |objs|);
      Follows(File(objs), |body|,
              TableAndTrailer(|objs| + 1, TableEntries(objs, |objs|), Dec(|body|) + FileEnd()))
  {
    var body := Body(objs, |objs|);
    var ending, digits := Dec(|body|) + FileEnd(), Dec(|objs| + 1);
    assert Dec(1) == "1";
    TrailerNested(TrailerOpen(objs), digits, ending);
    TableNested(XrefOpen(), digits, "\n", FreeEntry(), TableEntries(objs, |objs|), TrailerOpen(objs) + ending);
    assert File(objs) == body + (Table(objs) + (TrailerOpen(objs) + ending));
    assert File(objs)[|body|..] == Table(objs) + (TrailerOpen(objs) + ending);
    FollowsIs(File(objs), |body|, Table(objs) + (TrailerOpen(objs) + ending));
  }

  lemma TrailerNested(trailer: string, digits: string, ending: string)
    requires trailer == "trailer\n<< /Size " + digits + " /Root 1 0 R >>\nstartxref\n"
    ensures trailer + ending ==
      "trailer\n<< /Size " + (digits + (" /Root " + ("1" + (" 0 R >>\nstartxref\n" + ending))))
  {
    assert " /Root 1 0 R >>\nstartxref\n" == " /Root " + ("1" + " 0 R >>\nstartxref\n");
  }

  lemma TableNested(x: string, digits: string, n: string, free: string, entries: string, after: string)
    ensures (x + (digits + (n + (free + entries)))) + after == x + (digits + (n + (free + (entries + after))))
  {}

  /** Table and trailer read back: as many entries as objects and one more, and the catalog is object 1. */
  lemma TableReadsBack(data: string, x: nat, first: nat, count: nat, entries: string, ending: string)
    requires Follows(data, x, TableAndTrailer(count, entries, ending)) && count > 0 && |entries| == 20 * (count - 1)
    requires first == x + 7 + |Dec(count)| + 1
    ensures ReadTable(data, x) == Some(XrefTable(first, count))
    ensures ReadRoot(data, XrefTable(first, count)) == Some(1)
    ensures Stands(data, first + 20, entries)
  {
    var trailer := TrailerParts(count, ending);
    TableParts(data, x, first, count, entries, trailer);
    TableIs(data, x, first, count);
    RootBehind(data, XrefTable(first, count), first + 20 * count, trailer, ending);
  }

  lemma RootBehind(data: string, t: XrefTable, at: nat, trailer: string, ending: string)
    requires at == t.first + 20 * t.count && trailer == TrailerParts(t.count, ending) && Follows(data, at, trailer)
    ensures ReadRoot(data, t) == Some(1)
  {
    TrailerReadsBack(data, at, t.count, ending);
    RootIs(data, t, at);
  }

  lemma RootIs(data: string, t: XrefTable, at: nat)
    requires at == t.first + 20 * t.count && ReadTrailer(data, at) == Some((t.count, 1))
    ensures ReadRoot(data, t) == Some(1)
  {}

  lemma TableParts(data: string, x: nat, first: nat, count: nat, entries: string, trailer: string)
    requires Follows(data, x, "xref\n0 " + (Dec(count) + ("\n" + (FreeEntry() + (entries + trailer)))))
    requires first == x + 7 + |Dec(count)| + 1
    ensures Stands(data, x, "xref\n0 ") && x + 7 <= |data| && ReadNumber(data, x + 7, "\n") == Some(count)
    ensures DigitsEnd(data, x + 7) + 1 == first && Stands(data, first, FreeEntry()) && Stands(data, first + 20, entries)
    ensures Follows(data, first + 20 + |entries|, trailer)
  {
    FollowsNext(data, x, "xref\n0 ", Dec(count) + ("\n" + (FreeEntry() + (entries + trailer))));
    FollowsNumber(data, x + 7, count, "\n", FreeEntry() + (entries + trailer));
    FollowsNext(data, first, FreeEntry(), entries + trailer);
    FollowsNext(data, first + 20, entries, trailer);
  }

  lemma TableIs(data: string, x: nat, first: nat, count: nat)
    requires Stands(data, x, "xref\n0 ") && x + 7 <= |data| && ReadNumber(data, x + 7, "\n") == Some(count) && count > 0
    requires DigitsEnd(data, x + 7) + 1 == first && first + 20 * count <= |data| && Stands(data, first, FreeEntry())
    ensures ReadTable(data, x) == Some(XrefTable(first, count))
  {
    FreeHead(data[first..first + 20]);
  }

  lemma TrailerIsRead(data: string, at: nat, e: nat, size: nat, root: nat)
    requires Stands(data, at, "trailer\n<< /Size ") && at + 17 <= |data| && e == DigitsEnd(data, at + 17)
    requires ReadNumber(data, at + 17, " /Root ") == Some(size) && e + 7 <= |data|
    requires ReadNumber(data, e + 7, " 0 R >>\nstartxref\n") == Some(root)
    ensures ReadTrailer(data, at) == Some((size, root))
  {}

  lemma FreeHead(s: string)
    requires s == FreeEntry()
    ensures |s| == 20 && IsFreeHead(s)
  {
    assert s[..18] == "0000000000 65535 f" && s[18..] == " \n";
  }

  lemma TrailerReadsBack(data: string, at: nat, count: nat, ending: string)
    requires Follows(data, at, TrailerParts(count, ending))
    ensures ReadTrailer(data, at) == Some((count, 1))
  {
    TwoNumbers(data, at, "trailer\n<< /Size ", count, " /Root ", 1, " 0 R >>\nstartxref\n", ending);
    TrailerIsRead(data, at, at + 17 + |Dec(count)|, count, 1);
  }

  /** Two numbers between three fixed pieces. */
  lemma TwoNumbers(data: string, at: nat, a: string, n: nat, b: string, m: nat, c: string, rest: string)
    requires b != "" && !IsDigit(b[0]) && c != "" && !IsDigit(c[0])
    requires Follows(data, at, a + (Dec(n) + (b + (Dec(m) + (c + rest)))))
    ensures Stands(data, at, a) && at + |a| + |Dec(n)| + |b| <= |data|
    ensures ReadNumber(data, at + |a|, b) == Some(n) && DigitsEnd(data, at + |a|) == at + |a| + |Dec(n)|
    ensures ReadNumber(data, at + |a| + |Dec(n)| + |b|, c) == Some(m)
    ensures DigitsEnd(data, at + |a| + |Dec(n)| + |b|) == at + |a| + |Dec(n)| + |b| + |Dec(m)|
    ensures Follows(data, at + |a| + |Dec(n)| + |b| + |Dec(m)| + |c|, rest)
  {
    FollowsNext(data, at, a, Dec(n) + (b + (Dec(m) + (c + rest))));
    FollowsNumber(data, at + |a|, n, b, Dec(m) + (c + rest));
    FollowsNumber(data, at + |a| + |Dec(n)| + |b|, m, c, rest);
  }

  /** An entry that the writer makes reads back: the offset, generation zero, in use. */
  lemma EntryReadsBack(offset: nat, s: string)
    requires offset < Pow10(10) && s == Pad10(offset) + EntryTail()
    ensures |s| == 20 && ReadEntry(s) == Some(Entry(offset, 0))
  {
    Pad10Facts(offset);
    PadDigits(offset);
    assert s[..10] == Pad10(offset);
    assert s[11..16] == "00000" && s[18..] == " \n";
    FiveZeros();
  }

  lemma FiveZeros()
    ensures AllDigits("00000") && Parse("00000") == 0
  {
    assert Zeros(5) == "00000" by {
      assert Zeros(1) == "0" && Zeros(2) == "00" && Zeros(3) == "000" && Zeros(4) == "0000";
    }
    ZerosAreZero(5);
  }

  lemma PadDigits(n: nat)
    ensures AllDigits(Pad10(n))
  {
    ParseDec(n);
    ZerosAreDigits(if |Dec(n)| < 10 then 10 - |Dec(n)| else 0);
  }

  /** What a reader that starts at the end of the file finds there: the table, and which object the catalog is. */
  function ReadFileTable(data: string): Option<XrefTable> {
    var x := ReadStartXref(data);
    if x.None? then None else ReadTable(data, x.value)
  }

  /** The reader finds the table of the file, with an entry for every object, and the catalog in object 1. */
  lemma FileTableReadsBack(objs: seq<string>) returns (t: XrefTable)
    requires |Body(objs, |objs|)| < Pow10(10)
    ensures ReadFileTable(File(objs)) == Some(t) && t.count == |objs| + 1 && ReadRoot(File(objs), t) == Some(1)
    ensures Stands(File(objs), t.first + 20, TableEntries(objs, |objs|))
  {
    StartXrefReadsBack(objs);
    FileIs(objs);
    EntriesLength(objs);
    var x := |Body(objs, |objs|)|;
    t := TableOfFile(File(objs), x, |objs| + 1, TableEntries(objs, |objs|), Dec(x) + FileEnd());
  }

  lemma TableOfFile(data: string, x: nat, count: nat, entries: string, ending: string) returns (t: XrefTable)
    requires ReadStartXref(data) == Some(x) && Follows(data, x, TableAndTrailer(count, entries, ending))
    requires count > 0 && |entries| == 20 * (count - 1)
    ensures ReadFileTable(data) == Some(t) && t.count == count && ReadRoot(data, t) == Some(1)
    ensures Stands(data, t.first + 20, entries)
  {
    t := XrefTable(x + 7 + |Dec(count)| + 1, count);
    TableReadsBack(data, x, t.first, count, entries, ending);
  }

  lemma EntriesLength(objs: seq<string>)
    requires |Body(objs, |objs|)| < Pow10(10)
    ensures |TableEntries(objs, |objs|)| == 20 * |objs|
  {
    if objs != [] {
      EntryStands(objs, |objs|, 1);
    }
  }

  /** For every text whose objects take less than ten to the tenth bytes: the entry of object `i` says that it is in
      use, and where `i 0 obj` starts, followed by the whole object and `endobj`. */
  lemma XrefPointsAtObjects(objs: seq<string>, i: nat)
    requires 1 <= i <= |objs| && |Body(objs, |objs|)| < Pow10(10)
    ensures ReadFileTable(File(objs)).Some?
    ensures EntryOf(File(objs), ReadFileTable(File(objs)).value, i) == Some(Entry(Offset(objs, i), 0))
    ensures Stands(File(objs), Offset(objs, i), Dec(i) + " 0 obj\n" + objs[i - 1] + "\nendobj\n")
  {
    var t := FileTableReadsBack(objs);
    EntryStands(objs, |objs|, i);
    OffsetBelow(objs, i, |objs|);
    EntryStandsIn(File(objs), t, TableEntries(objs, |objs|), i, Offset(objs, i));
    ObjectStandsInFile(objs, i);
  }

  lemma EntryStandsIn(data: string, t: XrefTable, entries: string, i: nat, offset: nat)
    requires Stands(data, t.first + 20, entries) && 1 <= i < t.count && offset < Pow10(10)
    requires Stands(entries, 20 * (i - 1), Pad10(offset) + EntryTail())
    ensures EntryOf(data, t, i) == Some(Entry(offset, 0))
  {
    var entry := Pad10(offset) + EntryTail();
    EntryReadsBack(offset, entry);
    StandsIn(data, t.first + 20, entries, 20 * (i - 1), entry);
  }

  lemma ObjectStandsInFile(objs: seq<string>, i: nat)
    requires 1 <= i <= |objs|
    ensures Stands(File(objs), Offset(objs, i), Frame(i, objs[i - 1]))
  {
    var body := Body(objs, |objs|);
    ObjectStandsInBody(objs, |objs|, i);
    StandsExtend(body, Table(objs) + (TrailerOpen(objs) + (Dec(|body|) + FileEnd())), Offset(objs, i),
      Frame(i, objs[i - 1]));
  }
}
