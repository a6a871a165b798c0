/** Reading a written PDF file back: from the end of the file to the table, from there to the page tree,
    to every page, to its content stream and to the lines that the stream shows (sections 7.3.8, 7.5.4,
    7.5.5 and 7.7.3 of ISO 32000-1). */
module PdfReader {
  import opened Optional
  import opened Text
  import opened Decimal
  import opened PdfText
  import opened PdfFile

  // ---------------------------------------------------------------- streams

  /** Reading a stream object: the length entry says how many bytes the stream has, and behind them both the stream
      and the object must end. */
  function ReadStream(s: string): Option<string> {
    StreamBetween(s, "<< /Length ", " >>\nstream\n", "\nendstream\nendobj\n")
  }

  function StreamBetween(s: string, open: string, middle: string, close: string): Option<string> {
    if !Stands(s, 0, open) then None
    else Taken(s, ReadNumber(s, |open|, middle), DigitsEnd(s, |open|) + |middle|, close)
  }

  function Taken(s: string, length: Option<nat>, from: nat, close: string): Option<string> {
    if length.None? || !Stands(s, from + length.value, close) then None else Some(s[from..from + length.value])
  }

  /** The length entry is the size of the stream, whatever the stream contains and whatever follows. */
  lemma StreamReadsBackFromObject(stream: string, rest: string)
    ensures ReadStream(StreamObject(stream) + ("\nendobj\n" + rest)) == Some(stream)
  {
    var s, behind := StreamObject(stream) + ("\nendobj\n" + rest), "\nendstream\nendobj\n" + rest;
    StreamNested(LengthOpen(), Dec(|stream|), StreamOpen(), stream, StreamClose(), "\nendobj\n" + rest);
    assert StreamClose() + ("\nendobj\n" + rest) == behind;
    StreamIsBetween(s, "<< /Length ", " >>\nstream\n", stream, "\nendstream\nendobj\n", rest);
  }

  lemma StreamNested(a: string, b: string, c: string, d: string, e: string, f: string)
    ensures (a + b + c + d + e) + f == a + (b + (c + (d + (e + f))))
  {}

  lemma StreamIsBetween(s: string, open: string, middle: string, stream: string, close: string, rest: string)
    requires NoDigitFirst(middle) && s == open + (Dec(|stream|) + (middle + (stream + (close + rest))))
    ensures StreamBetween(s, open, middle, close) == Some(stream)
  {
    var behind, digits := stream + (close + rest), Dec(|stream|);
    Opens(s, open, digits + (middle + behind));
    var from := NumberThen(s, |open|, |stream|, middle, behind);
    StreamTaken(s, |stream|, from, stream, close, rest);
  }

  lemma Opens(s: string, open: string, rest: string)
    requires s == open + rest
    ensures Stands(s, 0, open) && |open| <= |s| && Follows(s, |open|, rest)
  {
    FollowsIs(s, 0, s);
    FollowsNext(s, 0, open, rest);
  }

  lemma StreamTaken(s: string, n: nat, from: nat, stream: string, close: string, rest: string)
    requires n == |stream| && Follows(s, from, stream + (close + rest))
    ensures Taken(s, Some(n), from, close) == Some(stream)
  {
    FollowsNext(s, from, stream, close + rest);
    FollowsNext(s, from + n, close, rest);
  }

  // ---------------------------------------------------------------- what a stream shows

  /** Four numbers, each with what must stand before it and, behind the last one, after it; and where that ends. */
  datatype Four = Four(n1: nat, n2: nat, n3: nat, n4: nat, end: nat)

  function ReadFour(s: string, a: string, b: string, c: string, d: string, e: string): Option<Four> {
    if !Stands(s, 0, a) then None
    else
      var first := ReadTwo(s, |a|, b, c);
      if first.None? then None
      else
        var second := ReadTwo(s, first.value.2, d, e);
        if second.None? then None
        else Some(Four(first.value.0, first.value.1, second.value.0, second.value.1, second.value.2))
  }

  /** Two numbers from `i` on, and where what follows them ends. */
  function ReadTwo(s: string, i: nat, b: string, c: string): (r: Option<(nat, nat, nat)>)
    requires i <= |s|
    ensures r.Some? ==> r.value.2 <= |s|
  {
    var n, j := ReadNumber(s, i, b), DigitsEnd(s, i) + |b|;
    if n.None? then None
    else
      var m := ReadNumber(s, j, c);
      if m.None? then None else Some((n.value, m.value, DigitsEnd(s, j) + |c|))
  }

  predicate NoDigitFirst(s: string) { s != "" && !IsDigit(s[0]) }

  lemma NumberThen(s: string, i: nat, n: nat, close: string, rest: string) returns (end: nat)
    requires NoDigitFirst(close) && Follows(s, i, Dec(n) + (close + rest))
    ensures i <= end <= |s| && Follows(s, end, rest)
    ensures ReadNumber(s, i, close) == Some(n) && DigitsEnd(s, i) + |close| == end
  {
    FollowsNumber(s, i, n, close, rest);
    end := i + |Dec(n)| + |close|;
  }

  lemma TwoReadBack(s: string, i: nat, n: nat, b: string, m: nat, c: string, rest: string) returns (end: nat)
    requires NoDigitFirst(b) && NoDigitFirst(c) && Follows(s, i, Dec(n) + (b + (Dec(m) + (c + rest))))
    ensures i <= end <= |s| && ReadTwo(s, i, b, c) == Some((n, m, end)) && Follows(s, end, rest)
  {
    var j := NumberThen(s, i, n, b, Dec(m) + (c + rest));
    end := NumberThen(s, j, m, c, rest);
    TwoIs(s, i, n, b, j, m, c, end);
  }

  lemma TwoIs(s: string, i: nat, n: nat, b: string, j: nat, m: nat, c: string, end: nat)
    requires i <= j <= end <= |s| && ReadNumber(s, i, b) == Some(n) && DigitsEnd(s, i) + |b| == j
    requires ReadNumber(s, j, c) == Some(m) && DigitsEnd(s, j) + |c| == end
    ensures ReadTwo(s, i, b, c) == Some((n, m, end))
  {}

  lemma FourReadBack(s: string, a: string, n1: nat, b: string, n2: nat, c: string, n3: nat, d: string, n4: nat,
                     e: string, rest: string)
    returns (end: nat)
    requires NoDigitFirst(b) && NoDigitFirst(c) && NoDigitFirst(d) && NoDigitFirst(e)
    requires Follows(s, 0, a + (Dec(n1) + (b + (Dec(n2) + (c + (Dec(n3) + (d + (Dec(n4) + (e + rest)))))))))
    ensures ReadFour(s, a, b, c, d, e) == Some(Four(n1, n2, n3, n4, end)) && end <= |s| && s[end..] == rest
  {
    var i := FirstTwo(s, a, n1, b, n2, c, Dec(n3) + (d + (Dec(n4) + (e + rest))));
    end := TwoReadBack(s, i, n3, d, n4, e, rest);
    FollowsIs(s, end, rest);
    FourIs(s, a, b, c, d, e, n1, n2, i, n3, n4, end);
  }

  lemma FirstTwo(s: string, a: string, n1: nat, b: string, n2: nat, c: string, rest: string) returns (i: nat)
    requires NoDigitFirst(b) && NoDigitFirst(c) && Follows(s, 0, a + (Dec(n1) + (b + (Dec(n2) + (c + rest)))))
    ensures Stands(s, 0, a) && |a| <= i <= |s| && ReadTwo(s, |a|, b, c) == Some((n1, n2, i)) && Follows(s, i, rest)
  {
    var tail := Dec(n1) + (b + (Dec(n2) + (c + rest)));
    FollowsNext(s, 0, a, tail);
    i := TwoReadBack(s, |a|, n1, b, n2, c, rest);
  }

  lemma FourIs(s: string, a: string, b: string, c: string, d: string, e: string, n1: nat, n2: nat, i: nat, n3: nat,
               n4: nat, end: nat)
    requires Stands(s, 0, a) && |a| <= |s| && ReadTwo(s, |a|, b, c) == Some((n1, n2, i))
    requires i <= |s| && ReadTwo(s, i, d, e) == Some((n3, n4, end))
    ensures ReadFour(s, a, b, c, d, e) == Some(Four(n1, n2, n3, n4, end))
  {}

  /** A text object: the size of the font, where its first line stands, how far apart lines are, and the lines. */
  datatype TextObject = TextObject(size: nat, x: nat, y: nat, leading: nat, lines: seq<string>)

  /** Reading the content stream of a page. */
  function ReadPage(s: string): Option<TextObject> {
    TextBehind(s, ReadFour(s, "BT\n/F1 ", " Tf\n", " ", " Td\n", " TL\n"))
  }

  function TextBehind(s: string, r: Option<Four>): Option<TextObject> {
    if r.None? || r.value.end > |s| then None
    else
      var lines := ReadShown(s[r.value.end..]);
      if lines.None? then None else Some(TextObject(r.value.n1, r.value.n2, r.value.n3, r.value.n4, lines.value))
  }

  /** A page starts at (50, 790) with ten-point type and lines fourteen points apart. */
  lemma PageStreamReadsBack(lines: seq<string>)
    requires NoReturns(lines)
    ensures ReadPage(Stream(lines)) == Some(TextObject(10, 50, 790, 14, Latin1All(lines)))
  {
    var s, shown := Stream(lines), Shown(Latin1All(lines));
    StreamReadsBack(lines);
    PreludeIs();
    ShownFollows(s, shown);
    PreludeRead(s, shown, Latin1All(lines));
  }

  lemma PreludeIs()
    ensures Latin1(PreludeText()) == "BT\n/F1 10 Tf\n50 790 Td\n14 TL\n"
  {
    var prelude := "BT\n/F1 10 Tf\n50 790 Td\n14 TL\n";
    FourParts("BT", "/F1 10 Tf", "50 790 Td", "14 TL");
    assert PreludeText() == prelude;
    Latin1Same(prelude);
  }

  lemma FourParts(a: string, b: string, c: string, d: string)
    ensures Each([a, b, c, d]) == a + "\n" + (b + "\n" + (c + "\n" + (d + "\n")))
  {
    assert [a, b, c, d][1..] == [b, c, d] && [b, c, d][1..] == [c, d] && [c, d][1..] == [d] && [d][1..] == [];
    assert Each([d]) == d + "\n" + "";
    assert Each([c, d]) == c + "\n" + Each([d]);
    assert Each([b, c, d]) == b + "\n" + Each([c, d]);
  }

  lemma {:induction false} Latin1Same(s: string)
    requires forall i :: 0 <= i < |s| ==> s[i] as int < 256
    ensures Latin1(s) == s
  {
    if s != "" {
      Latin1Same(s[1..]);
    }
  }

  lemma ShownFollows(s: string, shown: string)
    requires s == "BT\n/F1 10 Tf\n50 790 Td\n14 TL\n" + shown
    ensures Follows(s, 0, "BT\n/F1 " + (Dec(10) + (" Tf\n" + (Dec(50) + (" " +
      (Dec(790) + (" Td\n" + (Dec(14) + (" TL\n" + shown)))))))))
  {
    Numerals();
    var prelude := "BT\n/F1 " + ("10" + (" Tf\n" + ("50" + (" " + ("790" + (" Td\n" + ("14" + " TL\n")))))));
    assert prelude == "BT\n/F1 10 Tf\n50 790 Td\n14 TL\n";
    NineParts("BT\n/F1 ", "10", " Tf\n", "50", " ", "790", " Td\n", "14", " TL\n", shown);
  }

  lemma NineParts(a: string, b: string, c: string, d: string, e: string, f: string, g: string, h: string, i: string,
                  z: string)
    ensures (a + (b + (c + (d + (e + (f + (g + (h + i)))))))) + z ==
      a + (b + (c + (d + (e + (f + (g + (h + (i + z))))))))
  {}

  lemma Numerals()
    ensures Dec(0) == "0" && Dec(1) == "1" && Dec(2) == "2" && Dec(10) == "10" && Dec(14) == "14" && Dec(50) == "50"
    ensures Dec(595) == "595" && Dec(790) == "790" && Dec(842) == "842"
  {
    assert Dec(5) == "5" && Dec(7) == "7" && Dec(8) == "8";
    assert Dec(59) == "59" && Dec(79) == "79" && Dec(84) == "84";
  }

  lemma PreludeRead(s: string, shown: string, lines: seq<string>)
    requires ReadShown(shown) == Some(lines)
    requires Follows(s, 0, "BT\n/F1 " + (Dec(10) + (" Tf\n" + (Dec(50) + (" " +
      (Dec(790) + (" Td\n" + (Dec(14) + (" TL\n" + shown)))))))))
    ensures ReadPage(s) == Some(TextObject(10, 50, 790, 14, lines))
  {
    var end := FourReadBack(s, "BT\n/F1 ", 10, " Tf\n", 50, " ", 790, " Td\n", 14, " TL\n", shown);
    TextIsBehind(s, Four(10, 50, 790, 14, end), lines);
  }

  lemma TextIsBehind(s: string, four: Four, lines: seq<string>)
    requires four.end <= |s| && ReadShown(s[four.end..]) == Some(lines)
    ensures TextBehind(s, Some(four)) == Some(TextObject(four.n1, four.n2, four.n3, four.n4, lines))
  {}

  // ---------------------------------------------------------------- catalog and pages

  /** Reading the catalog: the object of the page tree. */
  function ReadCatalog(s: string): Option<nat> {
    if !Stands(s, 0, "<< /Type /Catalog /Pages ") then None else ReadNumber(s, 25, " 0 R >>\nendobj\n")
  }

  lemma CatalogReadsBack(rest: string)
    ensures ReadCatalog(Catalog() + ("\nendobj\n" + rest)) == Some(2)
  {
    var s := Catalog() + ("\nendobj\n" + rest);
    Numerals();
    assert Catalog() == "<< /Type /Catalog /Pages " + ("2" + " 0 R >>");
    assert s == "<< /Type /Catalog /Pages " + (Dec(2) + (" 0 R >>\nendobj\n" + rest));
    FollowsIs(s, 0, s);
    FollowsNext(s, 0, "<< /Type /Catalog /Pages ", Dec(2) + (" 0 R >>\nendobj\n" + rest));
    FollowsNumber(s, 25, 2, " 0 R >>\nendobj\n", rest);
  }

  /** A page: its parent, the size of its sheet, and the object of its contents. */
  datatype Page = Page(parent: nat, width: nat, height: nat, contents: nat)

  /** What a page needs to show type: the font that its stream uses. */
  function FontEntry(): string {
    "] " + ("/Resources << /Font << /F1 << /Type /Font /Subtype /Type1 /BaseFont /Helvetica >> >> >> " + "/Contents ")
  }

  /** Reading a page object. */
  function ReadPageObject(s: string): Option<Page> { ReadPageWith(FontEntry(), s) }

  function ReadPageWith(font: string, s: string): Option<Page> {
    PageFrom(ReadFour(s, "<< /Type /Page /Parent ", " 0 R /MediaBox [0 0 ", " ", font, " 0 R >>\nendobj\n"))
  }

  function PageFrom(r: Option<Four>): Option<Page> {
    if r.None? then None else Some(Page(r.value.n1, r.value.n2, r.value.n3, r.value.n4))
  }

  lemma PageObjectReadsBack(contents: nat, rest: string)
    ensures ReadPageObject(PageObject(PageHead(), contents) + ("\nendobj\n" + rest)) ==
      Some(Page(2, 595, 842, contents))
  {
    PageHeadIs();
    assert FontEntry()[0] == ']';
    PageWithReadsBack(PageHead(), FontEntry(), contents, rest);
  }

  /** The head of a page object, told in its parts. */
  function HeadParts(font: string): string {
    "<< /Type /Page /Parent " + ("2" + (" 0 R /MediaBox [0 0 " + ("595" + (" " + ("842" + font)))))
  }

  lemma PageWithReadsBack(head: string, font: string, contents: nat, rest: string)
    requires head == HeadParts(font) && NoDigitFirst(font)
    ensures ReadPageWith(font, PageObject(head, contents) + ("\nendobj\n" + rest)) == Some(Page(2, 595, 842, contents))
  {
    var s, end := PageObject(head, contents) + ("\nendobj\n" + rest), " 0 R >>\nendobj\n" + rest;
    PageObjectNested(head, Dec(contents), PageClose(), "\nendobj\n" + rest);
    assert PageClose() + ("\nendobj\n" + rest) == end;
    HeadFollows(s, font, Dec(contents) + end);
    PageObjectRead(s, contents, font, rest);
  }

  lemma HeadFollows(s: string, font: string, rest: string)
    requires s == HeadParts(font) + rest
    ensures Follows(s, 0, "<< /Type /Page /Parent " + (Dec(2) + (" 0 R /MediaBox [0 0 " + (Dec(595) + (" " +
      (Dec(842) + (font + rest)))))))
  {
    Numerals();
    SevenParts("<< /Type /Page /Parent ", "2", " 0 R /MediaBox [0 0 ", "595", " ", "842", font, rest);
    FollowsIs(s, 0, s);
  }

  lemma PageObjectRead(s: string, contents: nat, font: string, rest: string)
    requires NoDigitFirst(font)
    requires Follows(s, 0, "<< /Type /Page /Parent " + (Dec(2) + (" 0 R /MediaBox [0 0 " + (Dec(595) + (" " +
      (Dec(842) + (font + (Dec(contents) + (" 0 R >>\nendobj\n" + rest)))))))))
    ensures ReadPageWith(font, s) == Some(Page(2, 595, 842, contents))
  {
    var end := FourReadBack(s, "<< /Type /Page /Parent ", 2, " 0 R /MediaBox [0 0 ", 595, " ", 842, font, contents,
      " 0 R >>\nendobj\n", rest);
  }

  lemma PageObjectNested(head: string, digits: string, close: string, rest: string)
    ensures (head + (digits + close)) + rest == head + (digits + (close + rest))
  {}

  lemma PageHeadIs()
    ensures PageHead() == HeadParts(FontEntry())
  {
    BoxIs();
    BoxAndFont("<< /Type /Page /Parent 2 0 R /MediaBox [0 0 595 842", "] ",
               "/Resources << /Font << /F1 << /Type /Font /Subtype /Type1 /BaseFont /Helvetica >> >> >> ",
               "/Contents ");
    HeadBox("/Resources << /Font << /F1 << /Type /Font /Subtype /Type1 /BaseFont /Helvetica >> >> >> ", "/Contents ");
  }

  lemma HeadBox(resources: string, contents: string)
    ensures "<< /Type /Page /Parent 2 0 R /MediaBox [0 0 595 842] " + resources + contents ==
      ("<< /Type /Page /Parent 2 0 R /MediaBox [0 0 595 842" + "] ") + resources + contents
  {
    assert "<< /Type /Page /Parent 2 0 R /MediaBox [0 0 595 842] " ==
      "<< /Type /Page /Parent 2 0 R /MediaBox [0 0 595 842" + "] ";
  }

  lemma BoxIs()
    ensures "<< /Type /Page /Parent 2 0 R /MediaBox [0 0 595 842" ==
      "<< /Type /Page /Parent " + ("2" + (" 0 R /MediaBox [0 0 " + ("595" + (" " + "842"))))
  {
    SizeIs();
    SizeBehindBracket();
    ParentIs();
    Join3("<< /Type /Page /Parent ", "2", " 0 R /MediaBox [0 0 ", "595", " ", "842", "595 842",
          " 0 R /MediaBox [0 0 595 842");
  }

  lemma SizeIs()
    ensures "595" + (" " + "842") == "595 842"
  {}

  lemma SizeBehindBracket()
    ensures " 0 R /MediaBox [0 0 " + "595 842" == " 0 R /MediaBox [0 0 595 842"
  {}

  lemma ParentIs()
    ensures "<< /Type /Page /Parent " + ("2" + " 0 R /MediaBox [0 0 595 842") ==
      "<< /Type /Page /Parent 2 0 R /MediaBox [0 0 595 842"
  {
    ReferenceIs();
    ParentReferenceIs();
  }

  lemma ReferenceIs()
    ensures "2" + " 0 R /MediaBox [0 0 595 842" == "2 0 R /MediaBox [0 0 595 842"
  {}

  lemma ParentReferenceIs()
    ensures "<< /Type /Page /Parent " + "2 0 R /MediaBox [0 0 595 842" ==
      "<< /Type /Page /Parent 2 0 R /MediaBox [0 0 595 842"
  {}

  lemma Join3(a: string, b: string, c: string, d: string, e: string, f: string, size: string, box: string)
    requires d + (e + f) == size && c + size == box
    ensures a + (b + (c + (d + (e + f)))) == a + (b + box)
  {}

  lemma BoxAndFont(box: string, bracket: string, resources: string, contents: string)
    requires box == "<< /Type /Page /Parent " + ("2" + (" 0 R /MediaBox [0 0 " + ("595" + (" " + "842"))))
    ensures (box + bracket) + resources + contents == HeadParts(bracket + (resources + contents))
  {}

  lemma SevenParts(a: string, b: string, c: string, d: string, e: string, f: string, g: string, z: string)
    ensures (a + (b + (c + (d + (e + (f + g)))))) + z == a + (b + (c + (d + (e + (f + (g + z))))))
  {}

  lemma ObjectsAt(head: string, pages: seq<seq<string>>, k: nat)
    requires k < |pages|
    ensures |Objects(head, pages)| == 2 + 2 * |pages|
    ensures Objects(head, pages)[2 + 2 * k] == PageObject(head, 4 + 2 * k)
    ensures Objects(head, pages)[3 + 2 * k] == StreamObject(Stream(pages[k]))
  {
    InterleaveAt(pages, PageWith(head), StreamOf, k);
    AfterTwo(Catalog(), PagesObject(|pages|), Interleave(pages, PageWith(head), StreamOf), 2 * k);
  }

  lemma AfterTwo(a: string, b: string, rest: seq<string>, k: nat)
    requires k + 1 < |rest|
    ensures |[a, b] + rest| == 2 + |rest|
    ensures ([a, b] + rest)[2 + k] == rest[k] && ([a, b] + rest)[3 + k] == rest[k + 1]
  {}

  // ---------------------------------------------------------------- the page tree

  /** Reading a list of references `n 0 R` separated by blanks. */
  function ReadRefs(s: string): Option<seq<nat>> {
    if s == "" then Some([])
    else
      var e := DigitsEnd(s, 0);
      if !Stands(s, e, " 0 R") then None
      else if e + 4 == |s| then Some([Parse(s[..e])])
      else if s[e + 4] != ' ' then None
      else
        var more := ReadRefs(s[e + 5..]);
        if more.None? then None else Some([Parse(s[..e])] + more.value)
  }

  function PageNumbers(from: nat, n: nat): seq<nat>
    decreases n
  {
    if n == 0 then [] else [from] + PageNumbers(from + 2, n - 1)
  }

  /** The references from object `from` on, two apart. */
  function Refs(from: nat, n: nat): string
    decreases n
  {
    if n == 0 then "" else if n == 1 then Dec(from) + " 0 R"
    else Dec(from) + " 0 R" + " " + Refs(from + 2, n - 1)
  }

  lemma {:induction false} RefsLast(from: nat, n: nat)
    requires n >= 1
    ensures Refs(from, n + 1) == Refs(from, n) + " " + Dec(from + 2 * n) + " 0 R"
    decreases n
  {
    if n > 1 {
      RefsLast(from + 2, n - 1);
    }
  }

  lemma {:induction false} KidsAreRefs(n: nat)
    ensures Kids(n) == Refs(3, n)
  {
    if n > 1 {
      KidsAreRefs(n - 1);
      RefsLast(3, n - 1);
    }
  }

  lemma {:induction false} RefsReadBack(from: nat, n: nat)
    ensures ReadRefs(Refs(from, n)) == Some(PageNumbers(from, n))
    decreases n
  {
    if n > 0 {
      ParseDec(from);
      if n == 1 {
        LastRef(Dec(from));
        assert PageNumbers(from, 1) == [from] + PageNumbers(from + 2, 0) == [from];
      } else {
        RefsReadBack(from + 2, n - 1);
        FirstRef(Dec(from), Refs(from + 2, n - 1));
      }
    }
  }

  lemma LastRef(digits: string)
    requires AllDigits(digits) && digits != ""
    ensures ReadRefs(digits + " 0 R") == Some([Parse(digits)])
  {
    RefStands(digits, "");
    assert digits + (" 0 R" + "") == digits + " 0 R";
  }

  lemma FirstRef(digits: string, rest: string)
    requires AllDigits(digits) && digits != "" && ReadRefs(rest).Some?
    ensures ReadRefs(digits + " 0 R" + " " + rest) == Some([Parse(digits)] + ReadRefs(rest).value)
  {
    var s := digits + " 0 R" + " " + rest;
    RefStands(digits, " " + rest);
    assert s == digits + (" 0 R" + (" " + rest));
    assert s[|digits| + 4] == ' ';
    SuffixIs(digits + " 0 R" + " ", rest);
  }

  lemma RefStands(digits: string, rest: string)
    requires AllDigits(digits) && digits != ""
    ensures var s := digits + (" 0 R" + rest);
      DigitsEnd(s, 0) == |digits| && Stands(s, |digits|, " 0 R") && s[..|digits|] == digits
  {
    DigitsEndIs("", digits, " 0 R" + rest, 0);
    assert "" + (digits + (" 0 R" + rest)) == digits + (" 0 R" + rest);
    StandsAfter(digits, " 0 R", rest);
  }

  lemma {:induction false} PageNumbersAre(from: nat, n: nat, k: nat)
    requires k < n
    ensures |PageNumbers(from, n)| == n && PageNumbers(from, n)[k] == from + 2 * k
    decreases n
  {
    if n > 1 {
      PageNumbersAre(from + 2, n - 1, if k > 0 then k - 1 else 0);
    }
  }

  /** The first closing bracket at or after `i`. */
  function BracketAt(s: string, i: nat): (j: nat)
    requires i <= |s|
    ensures i <= j <= |s|
    decreases |s| - i
  {
    if i == |s| || s[i] == ']' then i else BracketAt(s, i + 1)
  }

  lemma {:induction false} BracketAtIs(s: string, i: nat, j: nat)
    requires i <= j < |s| && s[j] == ']' && forall k :: i <= k < j ==> s[k] != ']'
    ensures BracketAt(s, i) == j
    decreases j - i
  {
    if i < j {
      BracketAtIs(s, i + 1, j);
    }
  }

  predicate NoBracket(s: string) {
    forall k :: 0 <= k < |s| ==> s[k] != ']'
  }

  lemma {:induction false} RefsHaveNoBracket(from: nat, n: nat)
    ensures NoBracket(Refs(from, n))
    decreases n
  {
    if n > 0 {
      ParseDec(from);
      NoBracketIn(Dec(from), " 0 R", "");
    }
    if n > 1 {
      RefsHaveNoBracket(from + 2, n - 1);
      NoBracketIn(Dec(from), " 0 R" + " ", Refs(from + 2, n - 1));
      Reassociate(Dec(from), " 0 R", " ");
    }
  }

  lemma NoBracketIn(digits: string, b: string, c: string)
    requires AllDigits(digits) && NoBracket(b) && NoBracket(c)
    ensures NoBracket(digits + b) && NoBracket(digits + b + c)
  {}

  datatype PageTree = PageTree(kids: seq<nat>, count: nat)

  /** Reading the page tree: the references in its brackets, and the count behind them. */
  function ReadPageTree(s: string): Option<PageTree> {
    TreeBetween(s, "<< /Type /Pages /Kids [", "] /Count ", " >>\nendobj\n")
  }

  function TreeBetween(s: string, open: string, middle: string, close: string): Option<PageTree> {
    if !Stands(s, 0, open) then None else KidsAndCount(s, |open|, BracketAt(s, |open|), middle, close)
  }

  function KidsAndCount(s: string, from: nat, j: nat, middle: string, close: string): Option<PageTree> {
    if j < from || !Stands(s, j, middle) then None
    else TreeOf(ReadRefs(s[from..j]), ReadNumber(s, j + |middle|, close))
  }

  function TreeOf(kids: Option<seq<nat>>, count: Option<nat>): Option<PageTree> {
    if kids.None? || count.None? then None else Some(PageTree(kids.value, count.value))
  }

  lemma PageTreeReadsBack(n: nat, rest: string)
    ensures ReadPageTree(PagesObject(n) + ("\nendobj\n" + rest)) == Some(PageTree(PageNumbers(3, n), n))
  {
    var s := PagesObject(n) + ("\nendobj\n" + rest);
    TreeFollows(n, rest);
    KidsAreRefs(n);
    RefsReadBack(3, n);
    RefsHaveNoBracket(3, n);
    TreeRead(s, "<< /Type /Pages /Kids [", Kids(n), "] /Count ", n, " >>\nendobj\n", PageNumbers(3, n), rest);
  }

  lemma TreeFollows(n: nat, rest: string)
    ensures Follows(PagesObject(n) + ("\nendobj\n" + rest), 0,
                    "<< /Type /Pages /Kids [" + (Kids(n) + ("] /Count " + (Dec(n) + (" >>\nendobj\n" + rest)))))
  {
    var s, end := PagesObject(n) + ("\nendobj\n" + rest), " >>\nendobj\n" + rest;
    StreamNested(PagesOpen(), Kids(n), PagesMiddle(), Dec(n), PagesClose(), "\nendobj\n" + rest);
    assert PagesClose() + ("\nendobj\n" + rest) == end;
    FollowsIs(s, 0, s);
  }

  lemma TreeRead(s: string, open: string, kids: string, middle: string, n: nat, close: string, numbers: seq<nat>,
                 rest: string)
    requires NoBracket(kids) && ReadRefs(kids) == Some(numbers) && NoDigitFirst(close)
    requires middle != "" && middle[0] == ']'
    requires Follows(s, 0, open + (kids + (middle + (Dec(n) + (close + rest)))))
    ensures TreeBetween(s, open, middle, close) == Some(PageTree(numbers, n))
  {
    FollowsNext(s, 0, open, kids + (middle + (Dec(n) + (close + rest))));
    KidsRead(s, |open|, kids, middle, n, close, numbers, rest);
  }

  lemma KidsRead(s: string, from: nat, kids: string, middle: string, n: nat, close: string, numbers: seq<nat>,
                 rest: string)
    requires NoBracket(kids) && ReadRefs(kids) == Some(numbers) && NoDigitFirst(close)
    requires middle != "" && middle[0] == ']' && Follows(s, from, kids + (middle + (Dec(n) + (close + rest))))
    ensures from <= |s| && KidsAndCount(s, from, BracketAt(s, from), middle, close) == Some(PageTree(numbers, n))
  {
    var j := from + |kids|;
    FollowsNext(s, from, kids, middle + (Dec(n) + (close + rest)));
    CountRead(s, j, middle, n, close, rest);
    KidsAre(s, from, j, kids, middle, n, close, numbers);
  }

  lemma KidsAre(s: string, from: nat, j: nat, kids: string, middle: string, n: nat, close: string, numbers: seq<nat>)
    requires NoBracket(kids) && ReadRefs(kids) == Some(numbers) && middle != "" && middle[0] == ']'
    requires Stands(s, from, kids) && j == from + |kids| && from <= |s| && Stands(s, j, middle) && j + |middle| <= |s|
    requires ReadNumber(s, j + |middle|, close) == Some(n)
    ensures KidsAndCount(s, from, BracketAt(s, from), middle, close) == Some(PageTree(numbers, n))
  {
    BracketIs(s, from, j, kids, middle);
    StandsBetween(s, from, j, kids);
    TreeIs(s, from, j, kids, middle, n, close, numbers);
  }

  lemma TreeIs(s: string, from: nat, j: nat, kids: string, middle: string, n: nat, close: string, numbers: seq<nat>)
    requires from <= j && Stands(s, j, middle) && j + |middle| <= |s| && s[from..j] == kids
    requires ReadRefs(kids) == Some(numbers) && ReadNumber(s, j + |middle|, close) == Some(n)
    ensures KidsAndCount(s, from, j, middle, close) == Some(PageTree(numbers, n))
  {}

  lemma StandsBetween(s: string, from: nat, j: nat, kids: string)
    requires Stands(s, from, kids) && j == from + |kids|
    ensures from <= j <= |s| && s[from..j] == kids
  {}

  lemma CountRead(s: string, j: nat, middle: string, n: nat, close: string, rest: string)
    requires NoDigitFirst(close) && Follows(s, j, middle + (Dec(n) + (close + rest)))
    ensures Stands(s, j, middle) && j + |middle| <= |s| && ReadNumber(s, j + |middle|, close) == Some(n)
  {
    FollowsNext(s, j, middle, Dec(n) + (close + rest));
    FollowsNumber(s, j + |middle|, n, close, rest);
  }

  lemma BracketIs(s: string, i: nat, j: nat, kids: string, middle: string)
    requires Stands(s, i, kids) && j == i + |kids| && NoBracket(kids)
    requires middle != "" && middle[0] == ']' && Stands(s, j, middle)
    ensures BracketAt(s, i) == j
  {
    assert s[j] == s[j..j + |middle|][0];
    assert forall k :: i <= k < j ==> s[k] == s[i..i + |kids|][k - i];
    BracketAtIs(s, i, j);
  }

  // ---------------------------------------------------------------- the whole file

  /** What follows `i g obj`, where the table says that object `i` of generation `g` starts. */
  function ObjectText(data: string, t: XrefTable, i: nat): Option<string> {
    TextAt(data, i, EntryOf(data, t, i))
  }

  function TextAt(data: string, i: nat, entry: Option<Entry>): Option<string> {
    if entry.None? || entry.value.offset > |data| then None
    else
      var r := ReadTwo(data, entry.value.offset, " ", " obj\n");
      if r.None? || r.value.0 != i || r.value.1 != entry.value.generation then None else Some(data[r.value.2..])
  }

  /** How the readers below look an object up. */
  type Lookup = nat -> Option<string>

  function FileLookup(data: string, t: XrefTable): Lookup {
    (i: nat) => ObjectText(data, t, i)
  }

  /** The object and its end. */
  predicate Ended(obj: string, s: string) { obj + "\nendobj\n" <= s }

  /** Object `i` is found, complete and ended. */
  predicate Found(lookup: Lookup, i: nat, obj: string) {
    lookup(i).Some? && Ended(obj, lookup(i).value)
  }

  ghost predicate AllFound(lookup: Lookup, objs: seq<string>) {
    forall j :: 0 <= j < |objs| ==> Found(lookup, j + 1, objs[j])
  }

  lemma FoundOne(lookup: Lookup, objs: seq<string>, i: nat, obj: string)
    requires AllFound(lookup, objs) && 1 <= i <= |objs| && objs[i - 1] == obj
    ensures Found(lookup, i, obj)
  {}

  /** Below ten to the tenth bytes, every object is found. */
  lemma ObjectsAreFound(objs: seq<string>, t: XrefTable)
    requires |Body(objs, |objs|)| < Pow10(10) && ReadFileTable(File(objs)) == Some(t)
    ensures AllFound(FileLookup(File(objs), t), objs)
  {
    forall j | 0 <= j < |objs| ensures Found(FileLookup(File(objs), t), j + 1, objs[j]) {
      XrefPointsAtObjects(objs, j + 1);
      FoundAt(File(objs), t, j + 1, Offset(objs, j + 1), objs[j]);
    }
  }

  lemma FoundAt(data: string, t: XrefTable, i: nat, at: nat, obj: string)
    requires EntryOf(data, t, i) == Some(Entry(at, 0)) && Stands(data, at, Dec(i) + " 0 obj\n" + obj + "\nendobj\n")
    ensures Found(FileLookup(data, t), i, obj)
  {
    var text := ObjectFollows(data, i, at, obj, "\nendobj\n");
    TextIsAt(data, i, at, text);
  }

  lemma ObjectFollows(data: string, i: nat, at: nat, obj: string, end: string) returns (text: string)
    requires Stands(data, at, Dec(i) + " 0 obj\n" + obj + end)
    ensures obj + end <= text && Follows(data, at, Dec(i) + (" " + (Dec(0) + (" obj\n" + text))))
  {
    var whole := Dec(i) + " 0 obj\n" + obj + end;
    var rest := data[at + |whole|..];
    text := (obj + end) + rest;
    assert data[at..] == data[at..at + |whole|] + rest;
    Numerals();
    ObjectNested(Dec(i), obj, end, rest);
    FollowsIs(data, at, whole + rest);
  }

  lemma TextIsAt(data: string, i: nat, at: nat, text: string)
    requires Follows(data, at, Dec(i) + (" " + (Dec(0) + (" obj\n" + text))))
    ensures TextAt(data, i, Some(Entry(at, 0))) == Some(text)
  {
    var from := TwoReadBack(data, at, i, " ", 0, " obj\n", text);
    FollowsIs(data, from, text);
  }

  lemma ObjectNested(digits: string, obj: string, end: string, rest: string)
    ensures (digits + " 0 obj\n" + obj + end) + rest == digits + (" " + ("0" + (" obj\n" + ((obj + end) + rest))))
  {
    assert " 0 obj\n" == " " + ("0" + " obj\n");
  }

  lemma Rest(s: string, obj: string) returns (rest: string)
    requires Ended(obj, s)
    ensures s == obj + ("\nendobj\n" + rest)
  {
    rest := s[|obj| + 8..];
    Reassemble(obj, "\nendobj\n", rest);
  }

  /** A page as it is shown: the sheet and the text on it. */
  datatype Sheet = Sheet(width: nat, height: nat, text: TextObject)

  /** How objects of each kind are read. */
  datatype Readers = Readers(catalog: string -> Option<nat>, tree: string -> Option<PageTree>,
                             page: string -> Option<Page>, text: string -> Option<TextObject>)

  function PdfReaders(): Readers { Readers(ReadCatalog, ReadPageTree, ReadPageObject, ReadText) }

  /** The text that a stream object shows. */
  function ReadText(s: string): Option<TextObject> {
    var stream := ReadStream(s);
    if stream.None? then None else ReadPage(stream.value)
  }

  function Through<T>(lookup: Lookup, i: nat, read: string -> Option<T>): Option<T> {
    var text := lookup(i);
    if text.None? then None else read(text.value)
  }

  /** The page that object `kid` of the page tree in object `tree` describes. */
  function ReadKid(r: Readers, lookup: Lookup, tree: nat, kid: nat): Option<Sheet> {
    var page := Through(lookup, kid, r.page);
    if page.None? || page.value.parent != tree then None
    else
      var shown := Through(lookup, page.value.contents, r.text);
      if shown.None? then None else Some(Sheet(page.value.width, page.value.height, shown.value))
  }

  function KidReader(r: Readers, lookup: Lookup, tree: nat): nat -> Option<Sheet> {
    (kid: nat) => ReadKid(r, lookup, tree, kid)
  }

  /** What is read at each of the references, if all can be read. */
  function ReadEach(read: nat -> Option<Sheet>, kids: seq<nat>): Option<seq<Sheet>> {
    if kids == [] then Some([])
    else
      var before, last := ReadEach(read, kids[..|kids| - 1]), read(kids[|kids| - 1]);
      if before.None? || last.None? then None else Some(before.value + [last.value])
  }

  /** All pages: from the catalog in object `root` to the page tree, and from there to every page. */
  function ReadPages(r: Readers, lookup: Lookup, root: nat): Option<seq<Sheet>> {
    var pages := Through(lookup, root, r.catalog);
    if pages.None? then None
    else
      var tree := Through(lookup, pages.value, r.tree);
      if tree.None? || tree.value.count != |tree.value.kids| then None
      else ReadEach(KidReader(r, lookup, pages.value), tree.value.kids)
  }

  /** The first line names the version, and the second one has four bytes above 127, by which a file is known to be
      binary. */
  predicate HasHeader(data: string) {
    && Stands(data, 0, "%PDF-1.") && Stands(data, 8, "\n%") && Stands(data, 14, "\n")
    && IsDigit(data[7]) && forall i :: 10 <= i < 14 ==> data[i] as int >= 128
  }

  /** The whole file, from its end. */
  function ReadFile(data: string): Option<seq<Sheet>> { ReadFileWith(PdfReaders(), data) }

  function ReadFileWith(r: Readers, data: string): Option<seq<Sheet>> {
    var t := ReadFileTable(data);
    if !HasHeader(data) || t.None? then None else ReadBody(r, FileLookup(data, t.value), ReadRoot(data, t.value))
  }

  function ReadBody(r: Readers, lookup: Lookup, root: Option<nat>): Option<seq<Sheet>> {
    if root.None? then None else ReadPages(r, lookup, root.value)
  }

  /** What the page with these lines shows. */
  function SheetOf(lines: seq<string>): Sheet {
    Sheet(595, 842, TextObject(10, 50, 790, 14, Latin1All(lines)))
  }

  lemma KidReadsBack(r: Readers, lookup: Lookup, kid: nat, lines: seq<string>)
    requires Through(lookup, kid, r.page) == Some(Page(2, 595, 842, kid + 1))
    requires Through(lookup, kid + 1, r.text) == Some(TextObject(10, 50, 790, 14, Latin1All(lines)))
    ensures ReadKid(r, lookup, 2, kid) == Some(SheetOf(lines))
  {}

  /** Whatever follows the object, it is read as this. */
  ghost predicate Reads<T(!new)>(read: string -> Option<T>, obj: string, v: T) {
    forall s :: Ended(obj, s) ==> read(s) == Some(v)
  }

  lemma ThroughReads<T(!new)>(lookup: Lookup, i: nat, read: string -> Option<T>, obj: string, v: T)
    requires Found(lookup, i, obj) && Reads(read, obj, v)
    ensures Through(lookup, i, read) == Some(v)
  {}

  lemma PageReads(contents: nat)
    ensures Reads(ReadPageObject, PageObject(PageHead(), contents), Page(2, 595, 842, contents))
  {
    var obj := PageObject(PageHead(), contents);
    forall s | Ended(obj, s) ensures ReadPageObject(s) == Some(Page(2, 595, 842, contents)) {
      var behind := Rest(s, obj);
      PageObjectReadsBack(contents, behind);
    }
  }

  lemma TextReads(lines: seq<string>)
    requires NoReturns(lines)
    ensures Reads(ReadText, StreamOf(lines), TextObject(10, 50, 790, 14, Latin1All(lines)))
  {
    var obj := StreamOf(lines);
    forall s | Ended(obj, s) ensures ReadText(s) == Some(TextObject(10, 50, 790, 14, Latin1All(lines))) {
      var behind := Rest(s, obj);
      StreamReadsBackFromObject(Stream(lines), behind);
      PageStreamReadsBack(lines);
    }
  }

  lemma CatalogReads()
    ensures Reads(ReadCatalog, Catalog(), 2)
  {
    forall s | Ended(Catalog(), s) ensures ReadCatalog(s) == Some(2) {
      var behind := Rest(s, Catalog());
      CatalogReadsBack(behind);
    }
  }

  lemma TreeReads(n: nat)
    ensures Reads(ReadPageTree, PagesObject(n), PageTree(PageNumbers(3, n), n))
  {
    var obj := PagesObject(n);
    forall s | Ended(obj, s) ensures ReadPageTree(s) == Some(PageTree(PageNumbers(3, n), n)) {
      var behind := Rest(s, obj);
      PageTreeReadsBack(n, behind);
    }
  }

  /** The pages as the file can hold them. */
  function Sheets(pages: seq<seq<string>>): seq<Sheet> {
    if pages == [] then [] else Sheets(pages[..|pages| - 1]) + [SheetOf(pages[|pages| - 1])]
  }

  /** Page `k` is object `3 + 2k`, which names object `4 + 2k`, which holds the lines. */
  ghost predicate PageFound(r: Readers, lookup: Lookup, k: nat, lines: seq<string>) {
    && Through(lookup, 3 + 2 * k, r.page) == Some(Page(2, 595, 842, 4 + 2 * k))
    && Through(lookup, 4 + 2 * k, r.text) == Some(TextObject(10, 50, 790, 14, Latin1All(lines)))
  }

  ghost predicate PagesFound(r: Readers, lookup: Lookup, pages: seq<seq<string>>) {
    forall k :: 0 <= k < |pages| ==> PageFound(r, lookup, k, pages[k])
  }

  /** How these readers read what the writer writes: the catalog, page trees, page objects and streams. */
  ghost predicate ReadAll(r: Readers, head: string) {
    && Reads(r.catalog, Catalog(), 2)
    && (forall n: nat :: Reads(r.tree, PagesObject(n), PageTree(PageNumbers(3, n), n)))
    && (forall contents: nat :: Reads(r.page, PageObject(head, contents), Page(2, 595, 842, contents)))
    && (forall lines :: NoReturns(lines) ==>
          Reads(r.text, StreamOf(lines), TextObject(10, 50, 790, 14, Latin1All(lines))))
  }

  lemma PdfReadersRead()
    ensures ReadAll(PdfReaders(), PageHead())
  {
    CatalogReads();
    AllTreesRead();
    AllPagesRead();
    AllTextsRead();
  }

  lemma AllTreesRead()
    ensures forall n: nat :: Reads(ReadPageTree, PagesObject(n), PageTree(PageNumbers(3, n), n))
  {
    forall n: nat ensures Reads(ReadPageTree, PagesObject(n), PageTree(PageNumbers(3, n), n)) {
      TreeReads(n);
    }
  }

  lemma AllPagesRead()
    ensures forall contents: nat ::
      Reads(ReadPageObject, PageObject(PageHead(), contents), Page(2, 595, 842, contents))
  {
    forall contents: nat ensures Reads(ReadPageObject, PageObject(PageHead(), contents), Page(2, 595, 842, contents)) {
      PageReads(contents);
    }
  }

  lemma AllTextsRead()
    ensures forall lines :: NoReturns(lines) ==>
      Reads(ReadText, StreamOf(lines), TextObject(10, 50, 790, 14, Latin1All(lines)))
  {
    forall lines | NoReturns(lines)
      ensures Reads(ReadText, StreamOf(lines), TextObject(10, 50, 790, 14, Latin1All(lines)))
    {
      TextReads(lines);
    }
  }

  lemma PageAndTextRead(r: Readers, head: string, contents: nat, lines: seq<string>)
    requires ReadAll(r, head) && NoReturns(lines)
    ensures Reads(r.page, PageObject(head, contents), Page(2, 595, 842, contents))
    ensures Reads(r.text, StreamOf(lines), TextObject(10, 50, 790, 14, Latin1All(lines)))
  {}

  /** Page `k` reads back, through the page object that the page tree lists for it. */
  lemma PageReadsBack(r: Readers, head: string, lookup: Lookup, pages: seq<seq<string>>, k: nat)
    requires ReadAll(r, head) && AllFound(lookup, Objects(head, pages)) && k < |pages| && NoReturns(pages[k])
    ensures PageFound(r, lookup, k, pages[k])
    ensures ReadKid(r, lookup, 2, 3 + 2 * k) == Some(SheetOf(pages[k]))
  {
    var number := 3 + 2 * k;
    PageAndTextRead(r, head, number + 1, pages[k]);
    PageParts(r, head, lookup, pages, k);
    KidReadsBack(r, lookup, number, pages[k]);
  }

  lemma PageParts(r: Readers, head: string, lookup: Lookup, pages: seq<seq<string>>, k: nat)
    requires AllFound(lookup, Objects(head, pages)) && k < |pages|
    requires Reads(r.page, PageObject(head, 4 + 2 * k), Page(2, 595, 842, 4 + 2 * k))
    requires Reads(r.text, StreamOf(pages[k]), TextObject(10, 50, 790, 14, Latin1All(pages[k])))
    ensures PageFound(r, lookup, k, pages[k])
  {
    ObjectsAt(head, pages, k);
    FoundOne(lookup, Objects(head, pages), 3 + 2 * k, PageObject(head, 4 + 2 * k));
    FoundOne(lookup, Objects(head, pages), 4 + 2 * k, StreamOf(pages[k]));
    ThroughReads(lookup, 3 + 2 * k, r.page, PageObject(head, 4 + 2 * k), Page(2, 595, 842, 4 + 2 * k));
    ThroughReads(lookup, 4 + 2 * k, r.text, StreamOf(pages[k]), TextObject(10, 50, 790, 14, Latin1All(pages[k])));
  }

  lemma PagesAreFound(r: Readers, head: string, lookup: Lookup, pages: seq<seq<string>>)
    requires ReadAll(r, head) && AllFound(lookup, Objects(head, pages)) && forall p :: p in pages ==> NoReturns(p)
    ensures PagesFound(r, lookup, pages)
  {
    forall k | 0 <= k < |pages| ensures PageFound(r, lookup, k, pages[k]) {
      PageReadsBack(r, head, lookup, pages, k);
    }
  }

  /** Every page reads back. */
  lemma PagesReadBack(r: Readers, lookup: Lookup, pages: seq<seq<string>>)
    requires PagesFound(r, lookup, pages)
    ensures ReadEach(KidReader(r, lookup, 2), PageNumbers(3, |pages|)) == Some(Sheets(pages))
  {
    forall k: nat | k < |pages| ensures ReadsAs(KidReader(r, lookup, 2), k, pages[k]) {
      assert PageFound(r, lookup, k, pages[k]);
      KidReadsBack(r, lookup, 3 + 2 * k, pages[k]);
    }
    AllReadBack(KidReader(r, lookup, 2), pages);
  }

  lemma AllReadBack(read: nat -> Option<Sheet>, pages: seq<seq<string>>)
    requires forall k: nat :: k < |pages| ==> ReadsAs(read, k, pages[k])
    ensures ReadEach(read, PageNumbers(3, |pages|)) == Some(Sheets(pages))
  {
    EachReadsBack(read, pages, |pages|);
    assert pages[..|pages|] == pages;
  }

  /** Page `k` is read as `lines`. */
  predicate ReadsAs(read: nat -> Option<Sheet>, k: nat, lines: seq<string>) {
    read(3 + 2 * k) == Some(SheetOf(lines))
  }

  lemma {:induction false} EachReadsBack(read: nat -> Option<Sheet>, pages: seq<seq<string>>, n: nat)
    requires n <= |pages| && forall k: nat :: k < |pages| ==> ReadsAs(read, k, pages[k])
    ensures ReadEach(read, PageNumbers(3, n)) == Some(Sheets(pages[..n]))
  {
    if n > 0 {
      EachReadsBack(read, pages, n - 1);
      assert ReadsAs(read, n - 1, pages[n - 1]);
      PageNumbersSnoc(3, n - 1);
      var kids := PageNumbers(3, n - 1);
      assert (kids + [3 + 2 * (n - 1)])[..|kids|] == kids;
      assert pages[..n][..n - 1] == pages[..n - 1];
    }
  }

  lemma {:induction false} PageNumbersSnoc(from: nat, n: nat)
    ensures PageNumbers(from, n + 1) == PageNumbers(from, n) + [from + 2 * n]
    decreases n
  {
    if n > 0 {
      PageNumbersSnoc(from + 2, n - 1);
    } else {
      assert PageNumbers(from + 2, 0) == [];
    }
  }

  /** The whole file reads back: for every text that takes less than ten to the tenth bytes, a reader that
      starts at the end of the file finds all pages, sheets of 595 by 842 points, and on them all lines, in order. */
  lemma FileReadsBack(text: string)
    requires var objs := Objects(PageHead(), PagesOf(text)); |Body(objs, |objs|)| < Pow10(10)
    ensures ReadFile(File(Objects(PageHead(), PagesOf(text)))) == Some(Sheets(PagesOf(text)))
    ensures var lines := WrapAll(SplitLines(text));
      LinesOf(Sheets(PagesOf(text))) == Latin1All(if lines == [] then ["Empty"] else lines)
  {
    PdfReadersRead();
    FileReadsBackWith(PdfReaders(), PageHead(), text);
    ShownLines(text);
  }

  lemma FileReadsBackWith(r: Readers, head: string, text: string)
    requires ReadAll(r, head) && var objs := Objects(head, PagesOf(text)); |Body(objs, |objs|)| < Pow10(10)
    ensures ReadFileWith(r, File(Objects(head, PagesOf(text)))) == Some(Sheets(PagesOf(text)))
  {
    var objs := Objects(head, PagesOf(text));
    PageLines(text);
    var t := FileTableReadsBack(objs);
    ObjectsAreFound(objs, t);
    ReadsBack(r, head, FileLookup(File(objs), t), PagesOf(text));
    HeaderReadsBack(objs);
    FileIsRead(r, File(objs), t, Sheets(PagesOf(text)));
  }

  lemma FileIsRead(r: Readers, data: string, t: XrefTable, sheets: seq<Sheet>)
    requires HasHeader(data) && ReadFileTable(data) == Some(t)
    requires ReadBody(r, FileLookup(data, t), ReadRoot(data, t)) == Some(sheets)
    ensures ReadFileWith(r, data) == Some(sheets)
  {}

  lemma {:induction false} BodyStarts(objs: seq<string>, n: nat)
    requires n <= |objs|
    ensures Header() <= Body(objs, n)
  {
    if n > 0 {
      BodyStarts(objs, n - 1);
    }
  }

  lemma HeaderReadsBack(objs: seq<string>)
    ensures HasHeader(File(objs))
  {
    BodyStarts(objs, |objs|);
    StartsWithHeader(File(objs));
  }

  lemma StartsWithHeader(data: string)
    requires Header() <= data
    ensures HasHeader(data)
  {
    var header := Header();
    assert |header| == 15;
    assert data[0..7] == header[0..7] && data[8..10] == header[8..10] && data[14..15] == header[14..15];
    assert forall i :: 0 <= i < 15 ==> data[i] == header[i];
  }

  lemma ReadsBack(r: Readers, head: string, lookup: Lookup, pages: seq<seq<string>>)
    requires ReadAll(r, head) && pages != [] && forall p :: p in pages ==> NoReturns(p)
    requires AllFound(lookup, Objects(head, pages))
    ensures ReadBody(r, lookup, Some(1)) == Some(Sheets(pages))
  {
    var n := |pages|;
    CatalogFound(r, head, lookup, pages);
    TreeFound(r, head, lookup, pages, PageTree(PageNumbers(3, n), n));
    PageNumbersAre(3, n, 0);
    PagesAreFound(r, head, lookup, pages);
    PagesReadBack(r, lookup, pages);
    ReadPagesIs(r, lookup, PageNumbers(3, n), n);
  }

  lemma CatalogFound(r: Readers, head: string, lookup: Lookup, pages: seq<seq<string>>)
    requires AllFound(lookup, Objects(head, pages)) && Reads(r.catalog, Catalog(), 2)
    ensures Through(lookup, 1, r.catalog) == Some(2)
  {
    FirstObjects(head, pages);
    FoundReads(lookup, Objects(head, pages), 1, r.catalog, Catalog(), 2);
  }

  lemma TreeFound(r: Readers, head: string, lookup: Lookup, pages: seq<seq<string>>, tree: PageTree)
    requires AllFound(lookup, Objects(head, pages)) && Reads(r.tree, PagesObject(|pages|), tree)
    ensures Through(lookup, 2, r.tree) == Some(tree)
  {
    var obj := PagesObject(|pages|);
    SecondObject(head, pages, obj);
    TreeThrough(r, lookup, Objects(head, pages), obj, tree);
  }

  lemma SecondObject(head: string, pages: seq<seq<string>>, obj: string)
    requires obj == PagesObject(|pages|)
    ensures |Objects(head, pages)| >= 2 && Objects(head, pages)[1] == obj
  {}

  lemma TreeThrough(r: Readers, lookup: Lookup, objs: seq<string>, obj: string, tree: PageTree)
    requires AllFound(lookup, objs) && |objs| >= 2 && objs[1] == obj && Reads(r.tree, obj, tree)
    ensures Through(lookup, 2, r.tree) == Some(tree)
  {
    FoundReads(lookup, objs, 2, r.tree, obj, tree);
  }

  lemma FoundReads<T(!new)>(lookup: Lookup, objs: seq<string>, i: nat, read: string -> Option<T>, obj: string, v: T)
    requires AllFound(lookup, objs) && 1 <= i <= |objs| && objs[i - 1] == obj && Reads(read, obj, v)
    ensures Through(lookup, i, read) == Some(v)
  {
    FoundOne(lookup, objs, i, obj);
    ThroughReads(lookup, i, read, obj, v);
  }

  lemma FirstObjects(head: string, pages: seq<seq<string>>)
    ensures |Objects(head, pages)| >= 2
    ensures Objects(head, pages)[0] == Catalog() && Objects(head, pages)[1] == PagesObject(|pages|)
  {}

  lemma ReadPagesIs(r: Readers, lookup: Lookup, kids: seq<nat>, n: nat)
    requires Through(lookup, 1, r.catalog) == Some(2) && n == |kids|
    requires Through(lookup, 2, r.tree) == Some(PageTree(kids, n))
    ensures ReadBody(r, lookup, Some(1)) == ReadEach(KidReader(r, lookup, 2), kids)
  {}

  /** Every line stands on its sheet: the first one 790 points up, and none below the lower edge. */
  lemma LinesStayOnSheet(text: string, k: nat, i: nat)
    requires k < |PagesOf(text)| && i < |PagesOf(text)[k]|
    ensures |Sheets(PagesOf(text))| == |PagesOf(text)|
    ensures var sheet := Sheets(PagesOf(text))[k];
      0 < sheet.text.y - sheet.text.leading * i <= sheet.height - sheet.text.size && sheet.text.x < sheet.width
  {
    SheetAt(PagesOf(text), k);
    PagesAreShort(text, k);
  }

  lemma PagesAreShort(text: string, k: nat)
    requires k < |PagesOf(text)|
    ensures |PagesOf(text)[k]| <= 42
  {
    PaginateFacts(WrapAll(SplitLines(text)), 0);
    assert PagesOf(text)[k] in PagesOf(text);
  }

  lemma {:induction false} SheetAt(pages: seq<seq<string>>, k: nat)
    requires k < |pages|
    ensures |Sheets(pages)| == |pages| && Sheets(pages)[k] == SheetOf(pages[k])
  {
    if k < |pages| - 1 {
      SheetAt(pages[..|pages| - 1], k);
    } else if k > 0 {
      SheetAt(pages[..|pages| - 1], 0);
    }
  }

  lemma {:induction false} Latin1AllConcat(a: seq<string>, b: seq<string>)
    ensures Latin1All(a + b) == Latin1All(a) + Latin1All(b)
  {
    if a == [] {
      assert a + b == b;
    } else {
      Latin1AllConcat(a[1..], b);
      assert (a + b)[1..] == a[1..] + b && (a + b)[0] == a[0];
      Reassociate([Latin1(a[0])], Latin1All(a[1..]), Latin1All(b));
    }
  }

  /** The lines on all sheets. */
  function LinesOf(sheets: seq<Sheet>): seq<string> {
    if sheets == [] then [] else LinesOf(sheets[..|sheets| - 1]) + sheets[|sheets| - 1].text.lines
  }

  lemma {:induction false} LinesOfSheets(pages: seq<seq<string>>)
    ensures LinesOf(Sheets(pages)) == Latin1All(Flatten(pages))
  {
    if pages != [] {
      var init, last := pages[..|pages| - 1], pages[|pages| - 1];
      LinesOfSheets(init);
      FlattenSnoc(init, last);
      assert pages == init + [last];
      Latin1AllConcat(Flatten(init), last);
    }
  }

  lemma {:induction false} FlattenSnoc(pages: seq<seq<string>>, last: seq<string>)
    ensures Flatten(pages + [last]) == Flatten(pages) + last
  {
    if pages == [] {
      assert [last][1..] == [] && [] + [last] == [last];
    } else {
      FlattenSnoc(pages[1..], last);
      assert (pages + [last])[1..] == pages[1..] + [last];
      Reassociate(pages[0], Flatten(pages[1..]), last);
    }
  }

  lemma ShownLines(text: string)
    ensures var lines := WrapAll(SplitLines(text));
      LinesOf(Sheets(PagesOf(text))) == Latin1All(if lines == [] then ["Empty"] else lines)
  {
    var lines := WrapAll(SplitLines(text));
    LinesOfSheets(PagesOf(text));
    PaginateFacts(lines, 0);
    if lines == [] {
      FlattenSnoc([], ["Empty"]);
      assert [] + [["Empty"]] == [["Empty"]];
    } else {
      assert lines[0..] == lines;
    }
  }
}
