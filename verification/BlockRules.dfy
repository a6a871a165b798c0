/** Where the production splitter cuts a text, told without its searches: at blank lines if there are any, else at line
    ends. */
module BlockRules {
  import opened Text
  import opened Normalize
  import opened ResumeBlocks

  lemma {:induction false} RunThenOther(s: string, n: nat)
    requires n <= |s| && (forall i :: 0 <= i < n ==> s[i] == '\n') && (n < |s| ==> s[n] != '\n')
    ensures RunLength(s, IsNewline) == n
    decreases n
  {
    if n > 0 {
      RunThenOther(s[1..], n - 1);
    }
  }

  /** A text without a blank line is one paragraph. */
  lemma OneParagraph(a: string)
    requires forall k: nat :: !At(a, "\n\n", k)
    ensures SplitBlankLines(a) == [a]
  {}

  /** A blank line separates the paragraphs before it from those behind it. */
  lemma {:induction false} BlankLineSeparates(a: string, b: string)
    requires (a != "" ==> a[|a| - 1] != '\n') && (b != "" ==> b[0] != '\n')
    ensures SplitBlankLines(a + "\n\n" + b) == SplitBlankLines(a) + SplitBlankLines(b)
    decreases |a|
  {
    var i := Find(a, "\n\n", 0);
    if i < 0 {
      LastSeparates(a, b);
    } else {
      ParagraphBreak(a, i);
      var n := RunLength(a[i..], IsNewline);
      var before, behind := a[..i], a[i + n..];
      SameFirst(a, b, i, n);
      BlankLineSeparates(behind, b);
      NextSeparates(a, a + "\n\n" + b, i, n, before, behind, behind + "\n\n" + b, b);
    }
  }

  lemma LastSeparates(a: string, b: string)
    requires (a != "" ==> a[|a| - 1] != '\n') && (b != "" ==> b[0] != '\n') && Find(a, "\n\n", 0) < 0
    ensures SplitBlankLines(a + "\n\n" + b) == SplitBlankLines(a) + SplitBlankLines(b)
  {
    FirstBlankLine(a, b);
    LastBreak(a, b);
    CutAt(a + "\n\n" + b, |a|, 2, a, b);
  }

  lemma NextSeparates(a: string, s: string, i: nat, n: nat, before: string, behind: string, rest: string, b: string)
    requires i == Find(a, "\n\n", 0) == Find(s, "\n\n", 0) && i + n <= |a| && i + n <= |s| && i < |a| && i < |s|
    requires n == RunLength(a[i..], IsNewline) == RunLength(s[i..], IsNewline)
    requires a[..i] == before == s[..i] && a[i + n..] == behind && s[i + n..] == rest
    requires SplitBlankLines(rest) == SplitBlankLines(behind) + SplitBlankLines(b)
    ensures SplitBlankLines(s) == SplitBlankLines(a) + SplitBlankLines(b)
  {
    CutAt(a, i, n, before, behind);
    CutAt(s, i, n, before, rest);
    Behind([before], SplitBlankLines(behind), SplitBlankLines(b), SplitBlankLines(rest));
  }

  lemma Behind(first: seq<string>, some: seq<string>, others: seq<string>, all: seq<string>)
    requires all == some + others
    ensures first + all == (first + some) + others
  {}

  lemma CutAt(s: string, i: nat, n: nat, before: string, behind: string)
    requires i == Find(s, "\n\n", 0) && i + n <= |s| && i < |s| && n == RunLength(s[i..], IsNewline)
    requires s[..i] == before && s[i + n..] == behind
    ensures SplitBlankLines(s) == [before] + SplitBlankLines(behind)
  {
    SplitFound(s, i, n);
  }

  lemma FirstBlankLine(a: string, b: string)
    requires (a != "" ==> a[|a| - 1] != '\n') && Find(a, "\n\n", 0) < 0
    ensures Find(a + "\n\n" + b, "\n\n", 0) == |a|
  {
    var s := a + "\n\n" + b;
    assert At(s, "\n\n", |a|);
    var k := Find(s, "\n\n", 0);
    assert At(s, "\n\n", k) && s[k + 1] == s[k..k + 2][1];
    if k < |a| {
      EarlierIsInside(a, s, k);
    }
  }

  lemma EarlierIsInside(a: string, s: string, k: nat)
    requires a <= s && At(s, "\n\n", k) && k < |a| && a[|a| - 1] != '\n'
    ensures At(a, "\n\n", k)
  {
    assert s[k] == s[k..k + 2][0] == '\n';
    assert k + 2 <= |a|;
    assert a[k..k + 2] == s[k..k + 2];
  }

  lemma LastBreak(a: string, b: string)
    requires b != "" ==> b[0] != '\n'
    ensures RunLength((a + "\n\n" + b)[|a|..], IsNewline) == 2
  {
    assert (a + "\n\n" + b)[|a|..] == "\n\n" + b;
    RunThenOther("\n\n" + b, 2);
  }

  lemma SameFirst(a: string, b: string, i: nat, n: nat)
    requires i == Find(a, "\n\n", 0) && i < |a| && n == RunLength(a[i..], IsNewline) && a[|a| - 1] != '\n'
    ensures var s := a + "\n\n" + b;
      Find(s, "\n\n", 0) == i && RunLength(s[i..], IsNewline) == n && i + n < |a| && a[i + n..] != ""
      && (a[i + n..])[|a[i + n..]| - 1] != '\n' && s[..i] == a[..i] && s[i + n..] == a[i + n..] + "\n\n" + b
  {
    var s := a + "\n\n" + b;
    RunEndsInside(a, i, n);
    SameFind(a, s, i);
    SameRun(a, s, i, n);
    SameParts(a, b, i, i + n);
  }

  lemma SameFind(a: string, s: string, i: nat)
    requires a <= s && i == Find(a, "\n\n", 0) && i < |a| && a[|a| - 1] != '\n'
    ensures Find(s, "\n\n", 0) == i
  {
    assert s[i..i + 2] == a[i..i + 2];
    assert At(s, "\n\n", i);
    EarlierIsInside(a, s, Find(s, "\n\n", 0));
  }

  lemma SameParts(a: string, b: string, i: nat, j: nat)
    requires i <= j < |a|
    ensures var s := a + "\n\n" + b;
      && s[..i] == a[..i] && s[j..] == a[j..] + "\n\n" + b
      && a[j..] != "" && (a[j..])[|a[j..]| - 1] == a[|a| - 1]
  {}

  /** A run of line feeds ends before the last character if that is none. */
  lemma RunEndsInside(a: string, i: nat, n: nat)
    requires i < |a| && n == RunLength(a[i..], IsNewline) && a[|a| - 1] != '\n'
    ensures i + n < |a|
  {
    RunLengthIs(a[i..], IsNewline);
    assert a[i..][|a| - i - 1] == a[|a| - 1];
  }

  lemma SameRun(a: string, s: string, i: nat, n: nat)
    requires a <= s && i + n < |a| && n == RunLength(a[i..], IsNewline)
    ensures RunLength(s[i..], IsNewline) == n
  {
    RunLengthIs(a[i..], IsNewline);
    assert forall j :: 0 <= j <= n ==> s[i..][j] == a[i..][j];
    RunThenOther(s[i..], n);
  }

  /** A line end other than a carriage return separates a first line from those behind it. */
  lemma LineEndSeparates(a: string, c: char, b: string)
    requires NoBreak(a) && IsBreak(c) && c != '\r'
    ensures SplitLines(a + [c] + b) == [a] + SplitLines(b)
  {
    var s := a + [c] + b;
    FirstEnd(a, c, b);
    assert s[|a|] == c && s[..|a|] == a && s[|a| + 1..] == b;
  }

  lemma {:induction false} FirstEnd(a: string, c: char, b: string)
    requires NoBreak(a) && IsBreak(c)
    ensures LineEnd(a + [c] + b) == |a|
  {
    var s := a + [c] + b;
    if a != "" {
      FirstEnd(a[1..], c, b);
      assert s[1..] == a[1..] + [c] + b && s[0] == a[0];
    } else {
      assert s[0] == c;
    }
  }

  /** A raw block, stripped; nothing if it is blank. */
  function Kept(raw: string): seq<string> { if AllSpace(raw) then [] else [Strip(raw)] }

  lemma KeptFirst(raw: string, rest: seq<string>)
    ensures StripAll([raw] + rest) == Kept(raw) + StripAll(rest)
  {
    StripFacts(raw);
    StripAllCons(raw, rest);
  }

  /** Lines and paragraphs are stripped one by one, and blank ones are dropped. */
  lemma {:induction false} StrippedAre(a: seq<string>, b: seq<string>)
    ensures StripAll([]) == [] && StripAll(a + b) == StripAll(a) + StripAll(b)
  {
    if a == [] {
      assert a + b == b;
    } else {
      StrippedAre(a[1..], b);
      FirstOf(a, b);
      NextStripped(a, a + b, a[0], a[1..], a[1..] + b, b);
    }
  }

  lemma FirstOf(a: seq<string>, b: seq<string>)
    requires a != []
    ensures a == [a[0]] + a[1..] && a + b == [a[0]] + (a[1..] + b)
  {}

  lemma NextStripped(a: seq<string>, whole: seq<string>, raw: string, rest: seq<string>, all: seq<string>,
                     b: seq<string>)
    requires a == [raw] + rest && whole == [raw] + all && StripAll(all) == StripAll(rest) + StripAll(b)
    ensures StripAll(whole) == StripAll(a) + StripAll(b)
  {
    KeptFirst(raw, all);
    KeptFirst(raw, rest);
    Behind(Kept(raw), StripAll(rest), StripAll(b), StripAll(all));
  }

  lemma StrippedIs(raw: string)
    ensures StripAll([raw]) == if AllSpace(raw) then [] else [Strip(raw)]
  {
    assert [raw] == [raw] + [];
    KeptFirst(raw, []);
  }

  /** A normalised text is cut at its blank lines if it has one, and else at its line ends. */
  lemma BlocksAre(text: string)
    requires IsNormal(text)
    ensures Blocks(text) ==
      StripAll(if exists k: nat :: At(text, "\n\n", k) then SplitBlankLines(text) else SplitLines(text))
  {
    var i := Find(text, "\n\n", 0);
    if i < 0 {
      OneParagraph(text);
      StrippedIs(text);
    } else {
      ParagraphBreak(text, i);
      var n := RunLength(text[i..], IsNewline);
      SplitFound(text, i, n);
      InsideText(text, i, n);
      StrippedAre([text[..i]], SplitBlankLines(text[i + n..]));
      StrippedIs(text[..i]);
      SomeParagraph(text[i + n..]);
    }
  }

  lemma InsideText(text: string, i: nat, n: nat)
    requires IsTrimmed(text) && At(text, "\n\n", i) && n == RunLength(text[i..], IsNewline)
    ensures i + n < |text| && !AllSpace(text[..i]) && !AllSpace(text[i + n..])
  {
    assert text[i] == text[i..i + 2][0];
    RunEndsInside(text, i, n);
    assert text[..i][0] == text[0];
    assert text[i + n..][|text| - i - n - 1] == text[|text| - 1];
  }

  lemma SomeParagraph(s: string)
    requires !AllSpace(s)
    ensures StripAll(SplitBlankLines(s)) != []
  {
    assert s[0..] == s;
    var pos := ParagraphsPlaced(s, 0, s);
  }

  /** A row is the block as far as its first 600 characters. */
  lemma RowHolds(block: string, start: nat)
    ensures var row := BlockRow(block, start);
      && row.start == start && row.end == start + |row.text| && row.text <= block
      && (row.text == block || |row.text| == 600)
  {}
}
