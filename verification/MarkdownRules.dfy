/** What the rows of `split_markdown_sections` come to, told without its stack and its labels: which titles stand in
    a path, and which sections have a body. */
module MarkdownRules {
  import opened Text
  import opened Headings
  import opened MarkdownSections

  // ---------------------------------------------------------------- paths

  /** Heading `j` stands under heading `i`, or is it: of the headings after `i` none up to `j` has its rank or a
      higher one. */
  predicate StandsUnder(ms: seq<Mark>, j: nat, i: nat)
    requires j < |ms|
  {
    i <= j && forall l :: i < l <= j ==> ms[l].level > ms[i].level
  }

  /** A path starts with the default title; behind it stand the titles of the headings that the heading stands under,
      in the order of the text and with its own title at the end. */
  lemma PathHolds(text: string, ms: seq<Mark>, defaultTitle: string, j: nat) returns (over: seq<nat>)
    requires Marks(ms, |text|) && j < |ms|
    ensures forall i, k :: 0 <= i < k < |over| ==> over[i] < over[k] <= j
    ensures forall i: nat :: i in over <==> StandsUnder(ms, j, i)
    ensures var path := RowOf(text, ms, defaultTitle, j).path;
      && |path| == |over| + 1 && path[0] == defaultTitle && path[|over|] == ms[j].title
      && forall i :: 0 <= i < |over| ==> over[i] < |ms| && path[i + 1] == ms[over[i]].title
  {
    over := Enclosing(ms, |text|, j, |ms|);
    EnclosingAscends(ms, |text|, j, |ms|);
    forall i: nat ensures i in over <==> StandsUnder(ms, j, i) {
      EnclosingMembers(ms, |text|, j, |ms|, i);
      if i < |ms| {
        ContainsIffOpen(ms, |text|, i, j);
        UnderIffOpen(ms, i, j);
      }
    }
    forall i | 0 <= i < |over| ensures over[i] <= j {
      assert over[i] in over;
    }
    AscendingPairs(over);
    assert StandsUnder(ms, j, j);
    OwnIsLast(over, j);
    TitlesAt(ms, over);
  }

  lemma UnderIffOpen(ms: seq<Mark>, i: nat, j: nat)
    requires i < |ms| && j < |ms|
    ensures StandsUnder(ms, j, i) <==> i <= j < Closer(ms, i, i + 1)
  {
    var k := Closer(ms, i, i + 1);
    if i <= j && k <= j {
      assert ms[k].level <= ms[i].level;
    }
  }

  lemma {:induction false} AscendingPairs(s: seq<nat>)
    requires Ascending(s)
    ensures forall i, k :: 0 <= i < k < |s| ==> s[i] < s[k]
  {
    if |s| > 1 {
      AscendingPairs(s[..|s| - 1]);
    }
  }

  lemma OwnIsLast(over: seq<nat>, j: nat)
    requires j in over && (forall i :: 0 <= i < |over| ==> over[i] <= j)
    requires forall i, k :: 0 <= i < k < |over| ==> over[i] < over[k]
    ensures over[|over| - 1] == j
  {
    var i :| 0 <= i < |over| && over[i] == j;
    if i < |over| - 1 {
      assert over[i] < over[|over| - 1];
    }
  }

  lemma {:induction false} TitlesAt(ms: seq<Mark>, path: seq<nat>)
    requires forall i :: 0 <= i < |path| ==> path[i] < |ms|
    ensures |Titles(ms, path)| == |path| && forall i :: 0 <= i < |path| ==> Titles(ms, path)[i] == ms[path[i]].title
  {
    if path != [] {
      TitlesAt(ms, path[1..]);
    }
  }

  /** What stands before the first heading is kept exactly when it has 80 characters without the white space around
      it. */
  lemma PrefaceExactlyWhen(text: string, found: seq<Mark>, defaultTitle: string, i: nat)
    requires forall m :: m in found ==> 1 <= m.level <= 6 && m.start < |text|
    requires found != [] && i < |text|
    ensures var ms := MarksOf(found);
      && Marks(ms, |text|) && ms != []
      && (i < ms[0].start ==>
            (Held(RowsBefore(text, ms, defaultTitle, HasBody, |ms|), i) <==> |Strip(text[..ms[0].start])| >= 80))
  {
    HeldExactlyWhen(text, found, defaultTitle, i);
  }

  // ---------------------------------------------------------------- bodies

  /** The line is a label of 1 to 30 characters, a colon, and behind it something that is not white space. */
  predicate SaysAfterLabel(line: string) {
    exists c :: 1 <= c <= 30 && c < |line| && EndsLabel(line, c) && exists i :: c < i < |line| && !IsSpace(line[i])
  }

  predicate EndsLabel(line: string, c: nat)
    requires c < |line|
  {
    line[c] in ":\U{FF1A}" && forall i :: 0 <= i < c ==> line[i] !in ":\U{FF1A}"
  }

  /** A section has a body exactly when its first line says something after a label or a further line is not
      blank. */
  lemma BodyExactlyWhen(content: string)
    ensures HasBody(content) <==>
      var lines := SplitLines(content);
      lines != [] && (SaysAfterLabel(lines[0]) || exists line :: line in lines[1..] && !AllSpace(line))
  {
    HasBodyExactlyWhen(content);
    var lines := SplitLines(content);
    if lines != [] {
      InlineBodyExactlyWhen(lines[0]);
    }
  }

  lemma InlineBodyExactlyWhen(line: string)
    ensures InlineBody(line) != "" <==> SaysAfterLabel(line)
  {
    var c := FirstColon(line);
    FirstColonEndsLabel(line);
    if c < |line| {
      assert line[c] in ":\U{FF1A}";
      assert forall d :: 0 <= d < |line| && EndsLabel(line, d) ==> d == c;
      var rest := line[c + 1..];
      StripFacts(rest);
      assert forall i :: c < i < |line| ==> line[i] == rest[i - c - 1];
      assert AllSpace(rest) <==> forall i :: c < i < |line| ==> IsSpace(line[i]);
    }
  }

  lemma {:induction false} FirstColonEndsLabel(line: string)
    ensures var c := FirstColon(line);
      (forall i :: 0 <= i < c ==> line[i] !in ":\U{FF1A}") && (c < |line| ==> EndsLabel(line, c))
  {
    if line != "" && !IsColon(line[0]) {
      FirstColonEndsLabel(line[1..]);
    }
  }

  /** A section on one line: a label of 1 to 30 characters, a colon of either width and a text that is not blank
      behind it are kept. */
  lemma LabelledLineIsKept(title: string, colon: char, text: string)
    requires 1 <= |title| <= 30 && NoBreak(title) && NoBreak(text) && !AllSpace(text)
    requires colon in ":\U{FF1A}" && forall c :: c in title ==> c !in ":\U{FF1A}"
    ensures HasBody(title + [colon] + text)
  {
    var line := title + [colon] + text;
    OneLine(line);
    BodyExactlyWhen(line);
    assert EndsLabel(line, |title|) by {
      assert forall i :: 0 <= i < |title| ==> line[i] == title[i] && title[i] in title;
    }
    var i :| 0 <= i < |text| && !IsSpace(text[i]);
    assert line[|title| + 1 + i] == text[i];
    assert SaysAfterLabel(line);
  }

  /** A heading on a line of its own, without a label in front of a text, is dropped. */
  lemma BareLineIsDropped(line: string)
    requires NoBreak(line) && line != "" && !SaysAfterLabel(line)
    ensures !HasBody(line)
  {
    OneLine(line);
    BodyExactlyWhen(line);
  }

  lemma OneLine(line: string)
    requires NoBreak(line) && line != ""
    ensures SplitLines(line) == [line]
  {
    NoLineEnd(line);
    assert line[..|line|] == line;
  }

  lemma {:induction false} NoLineEnd(line: string)
    requires NoBreak(line)
    ensures LineEnd(line) == |line|
  {
    if line != "" {
      NoLineEnd(line[1..]);
    }
  }
}
