/** What normalisation does to white space, as rules that rewrite a text without changing its normal form. A text to
    which none of them applies is normal, and a normal text is its own normal form, so the rules say which normal text
    a text has. */
module NormalizeRules {
  import opened Text
  import opened Normalize

  // ---------------------------------------------------------------- one collapsing pass

  /** A pass: runs of at least `min` characters of class `p` become `sub`. */
  datatype Pass = Pass(p: char -> bool, min: nat, sub: string)

  function Run(f: Pass, s: string): string { Collapse(s, f.p, f.min, f.sub) }

  predicate AllOf(f: Pass, u: string) { forall i :: 0 <= i < |u| ==> f.p(u[i]) }

  /** What becomes of a run on its own. */
  function Whole(f: Pass, u: string): string { if u != "" && |u| >= f.min then f.sub else u }

  lemma {:induction false} RunIs(f: Pass, u: string, z: string)
    requires AllOf(f, u) && (z != "" ==> !f.p(z[0]))
    ensures RunLength(u + z, f.p) == |u|
  {
    if u == "" {
      assert u + z == z;
    } else {
      RunIs(f, u[1..], z);
      assert (u + z)[1..] == u[1..] + z;
    }
  }

  /** A run and the rest behind it are replaced one after the other. */
  lemma RunThen(f: Pass, u: string, z: string)
    requires AllOf(f, u) && (z != "" ==> !f.p(z[0]))
    ensures Run(f, u + z) == Whole(f, u) + Run(f, z)
  {
    if u == "" {
      assert u + z == z;
    } else {
      RunIs(f, u, z);
      assert (u + z)[..|u|] == u && (u + z)[|u|..] == z && (u + z)[0] == u[0];
    }
  }

  /** A text is a run and a rest that does not begin with its class. */
  lemma RunAndRest(f: Pass, s: string) returns (u: string, z: string)
    ensures s == u + z && AllOf(f, u) && (z != "" ==> !f.p(z[0]))
  {
    RunLengthIs(s, f.p);
    u, z := s[..RunLength(s, f.p)], s[RunLength(s, f.p)..];
  }

  /** A pass works on both sides of any other character. */
  lemma {:induction false} RunAround(f: Pass, a: string, c: char, b: string)
    requires !f.p(c)
    ensures Run(f, a + [c] + b) == Run(f, a) + [c] + Run(f, b)
    decreases |a|
  {
    var u, z := RunAndRest(f, a);
    if z == "" {
      RunThen(f, u, [c] + b);
      RunThen(f, u, "");
      assert a + [c] + b == u + ([c] + b) && a == u + "";
      assert ([c] + b)[1..] == b;
      Joins(Whole(f, u), [c], Run(f, b));
    } else {
      var d, rest := z[0], z[1..];
      RunAround(f, rest, c, b);
      RunThen(f, u, z + [c] + b);
      RunThen(f, u, z);
      assert a + [c] + b == u + (z + [c] + b);
      assert (z + [c] + b)[1..] == rest + [c] + b && (z + [c] + b)[0] == d;
      JoinsMore(Whole(f, u), [d], Run(f, rest), [c], Run(f, b));
    }
  }

  lemma Joins(a: string, c: string, b: string)
    ensures a + (c + b) == (a + "") + c + b
  {}

  lemma JoinsMore(a: string, d: string, r: string, c: string, b: string)
    ensures a + (d + (r + c + b)) == (a + (d + r)) + c + b
  {}

  /** The pass makes the same of `s` and `t`, whatever run of its class stands before them. */
  ghost predicate Alike(f: Pass, s: string, t: string) {
    forall u :: AllOf(f, u) ==> Run(f, u + s) == Run(f, u + t)
  }

  /** And then whatever text does. */
  lemma {:induction false} AlikeBehind(f: Pass, a: string, s: string, t: string)
    requires Alike(f, s, t)
    ensures Alike(f, a + s, a + t)
  {
    if a == "" {
      assert a + s == s && a + t == t;
    } else {
      var n := |a| - 1;
      AlikeStep(f, a[n], s, t);
      AlikeBehind(f, a[..n], [a[n]] + s, [a[n]] + t);
      assert a[..n] + ([a[n]] + s) == a + s && a[..n] + ([a[n]] + t) == a + t;
    }
  }

  lemma AlikeStep(f: Pass, c: char, s: string, t: string)
    requires Alike(f, s, t)
    ensures Alike(f, [c] + s, [c] + t)
  {
    forall u | AllOf(f, u) ensures Run(f, u + ([c] + s)) == Run(f, u + ([c] + t)) {
      assert u + ([c] + s) == u + [c] + s && u + ([c] + t) == u + [c] + t;
      if f.p(c) {
        assert AllOf(f, u + [c]);
      } else {
        RunAround(f, u, c, s);
        RunAround(f, u, c, t);
        NothingBefore(f, s, t);
      }
    }
  }

  lemma NothingBefore(f: Pass, s: string, t: string)
    requires Alike(f, s, t)
    ensures Run(f, s) == Run(f, t)
  {
    assert AllOf(f, "") && "" + s == s && "" + t == t;
  }

  /** The only run of its length. */
  ghost predicate OnlyRun(f: Pass, y: string) {
    AllOf(f, y) && forall u :: AllOf(f, u) && |u| == |y| ==> u == y
  }

  /** A run that is long enough may stand for the replacement. */
  lemma LongRunsAlike(f: Pass, x: string, b: string)
    requires AllOf(f, x) && |x| >= f.min > 0 && f.sub != "" && |f.sub| + 1 >= f.min && OnlyRun(f, f.sub)
    ensures Alike(f, x + b, f.sub + b)
  {
    var r, z := RunAndRest(f, b);
    forall u | AllOf(f, u) ensures Run(f, u + (x + b)) == Run(f, u + (f.sub + b)) {
      RunThen(f, u + x + r, z);
      RunThen(f, u + f.sub + r, z);
      FourParts(u, x, r, z);
      FourParts(u, f.sub, r, z);
      SameWhole(f, u + x + r, u + f.sub + r);
    }
  }

  lemma FourParts(a: string, b: string, c: string, d: string)
    ensures a + (b + (c + d)) == a + b + c + d
  {}

  lemma SameWhole(f: Pass, u: string, v: string)
    requires |u| >= f.min > 0 && AllOf(f, v) && |v| >= |f.sub| && |f.sub| + 1 >= f.min && OnlyRun(f, f.sub)
    ensures Whole(f, u) == Whole(f, v)
  {
    if |v| == |f.sub| {
      assert v == f.sub;
    }
  }

  // ---------------------------------------------------------------- the three passes

  function Tabs(): Pass { Pass(IsTab, 1, " ") }

  function Blanks(): Pass { Pass(IsBlank, 2, " ") }

  function Newlines(): Pass { Pass(IsNewline, 3, "\n\n") }

  function Lines(text: string): string { ReplaceCr(ReplaceCrLf(text)) }

  function Spaced(lines: string): string { Run(Blanks(), Run(Tabs(), lines)) }

  lemma NormalizeIs(text: string)
    ensures NormalizeText(text) == Strip(Run(Newlines(), Spaced(Lines(text))))
  {}

  lemma TwoBlanks(b: string)
    ensures Alike(Blanks(), "  " + b, " " + b)
  {
    assert OnlyRun(Blanks(), " ") by {
      assert forall u: string :: AllOf(Blanks(), u) && |u| == 1 ==> u == [u[0]];
    }
    LongRunsAlike(Blanks(), "  ", b);
  }

  /** Every tab and every no-break space as a blank. */
  function Untabbed(s: string): string {
    if s == "" then "" else [if IsTab(s[0]) then ' ' else s[0]] + Untabbed(s[1..])
  }

  lemma {:induction false} UntabbedConcat(a: string, b: string)
    ensures Untabbed(a + b) == Untabbed(a) + Untabbed(b)
  {
    if a == "" {
      assert a + b == b;
    } else {
      UntabbedConcat(a[1..], b);
      assert (a + b)[1..] == a[1..] + b;
    }
  }

  /** Replacing runs of tabs comes to replacing single ones, once runs of blanks are replaced. */
  lemma {:induction false} TabsAreBlanks(s: string)
    ensures Alike(Blanks(), Run(Tabs(), s), Untabbed(s))
  {
    if s != "" {
      var rest := s[1..];
      TabsAreBlanks(rest);
      var c := if IsTab(s[0]) then ' ' else s[0];
      AlikeStep(Blanks(), c, Run(Tabs(), rest), Untabbed(rest));
      OneTab(s);
      Through(Blanks(), Run(Tabs(), s), [c] + Run(Tabs(), rest), Untabbed(s));
    }
  }

  lemma Through(f: Pass, s: string, t: string, v: string)
    requires Alike(f, s, t) && Alike(f, t, v)
    ensures Alike(f, s, v)
  {}

  lemma OneTab(s: string)
    requires s != ""
    ensures Alike(Blanks(), Run(Tabs(), s), [if IsTab(s[0]) then ' ' else s[0]] + Run(Tabs(), s[1..]))
  {
    if IsTab(s[0]) {
      var u, z := RunAndRest(Tabs(), s[1..]);
      TabRun(s, u, z);
      var behind := Run(Tabs(), z);
      if u != "" {
        TwoBlanks(behind);
        Swap(Blanks(), "  " + behind, " " + behind);
        assert " " + (" " + behind) == "  " + behind;
      }
    }
  }

  lemma TabRun(s: string, u: string, z: string)
    requires s != "" && IsTab(s[0]) && s[1..] == u + z && AllOf(Tabs(), u) && (z != "" ==> !IsTab(z[0]))
    ensures Run(Tabs(), s) == " " + Run(Tabs(), z)
    ensures Run(Tabs(), s[1..]) == (if u != "" then " " else "") + Run(Tabs(), z)
  {
    RunThen(Tabs(), u, z);
    RunThen(Tabs(), [s[0]] + u, z);
    assert s == [s[0]] + u + z;
  }

  lemma Swap(f: Pass, s: string, t: string)
    requires Alike(f, s, t)
    ensures Alike(f, t, s)
  {}

  lemma SpacedIs(lines: string)
    ensures Spaced(lines) == Run(Blanks(), Untabbed(lines))
  {
    TabsAreBlanks(lines);
    NothingBefore(Blanks(), Run(Tabs(), lines), Untabbed(lines));
  }

  // ---------------------------------------------------------------- line ends

  /** Texts may be cut anywhere but between a carriage return and a line feed. */
  predicate CutsWell(a: string, b: string) {
    a == "" || b == "" || a[|a| - 1] != '\r' || b[0] != '\n'
  }

  lemma {:induction false} CrLfConcat(a: string, b: string)
    requires CutsWell(a, b)
    ensures ReplaceCrLf(a + b) == ReplaceCrLf(a) + ReplaceCrLf(b)
    decreases |a|
  {
    if a == "" {
      assert a + b == b;
    } else if |a| > 1 && a[0] == '\r' && a[1] == '\n' {
      CrLfConcat(a[2..], b);
      assert (a + b)[2..] == a[2..] + b;
      Reassociate("\n", ReplaceCrLf(a[2..]), ReplaceCrLf(b));
    } else {
      CrLfConcat(a[1..], b);
      assert (a + b)[1..] == a[1..] + b && (a + b)[0] == a[0];
      assert |a + b| > 1 && (a + b)[0] == '\r' ==> (a + b)[1] != '\n';
      Reassociate([a[0]], ReplaceCrLf(a[1..]), ReplaceCrLf(b));
    }
  }

  lemma {:induction false} CrConcat(a: string, b: string)
    ensures ReplaceCr(a + b) == ReplaceCr(a) + ReplaceCr(b)
  {
    if a == "" {
      assert a + b == b;
    } else {
      CrConcat(a[1..], b);
      assert (a + b)[1..] == a[1..] + b;
    }
  }

  lemma LinesConcat(a: string, b: string)
    requires CutsWell(a, b)
    ensures Lines(a + b) == Lines(a) + Lines(b)
  {
    CrLfConcat(a, b);
    CrConcat(ReplaceCrLf(a), ReplaceCrLf(b));
  }

  lemma LinesOfOne(c: char)
    ensures Lines([c]) == if c == '\r' then "\n" else [c]
  {
    assert [c][1..] == "";
    assert ReplaceCrLf([c]) == [c] + "" && [c] + "" == [c];
    var d := if c == '\r' then '\n' else c;
    assert ReplaceCr([c]) == [d] + "" && [d] + "" == [d];
  }

  lemma LinesAround(a: string, c: char, b: string)
    requires c != '\r' && (c == '\n' ==> a == "" || a[|a| - 1] != '\r')
    ensures Lines(a + [c] + b) == Lines(a) + [c] + Lines(b)
  {
    LinesConcat(a, [c]);
    LinesConcat(a + [c], b);
    LinesOfOne(c);
  }

  // ---------------------------------------------------------------- the rules

  /** A line end of two characters counts as one line feed, unless a further carriage return stands before it. */
  lemma CrLfIsLineFeed(a: string, b: string)
    requires a == "" || a[|a| - 1] != '\r'
    ensures NormalizeText(a + "\r\n" + b) == NormalizeText(a + "\n" + b)
  {
    LinesConcat(a, "\r\n");
    LinesConcat(a + "\r\n", b);
    assert "\r\n"[2..] == "" && ReplaceCrLf("\r\n") == "\n" + "";
    LinesOfOne('\n');
    assert Lines("\r\n") == "\n";
    LinesAround(a, '\n', b);
  }

  /** And so does a carriage return without a line feed. */
  lemma CrIsLineFeed(a: string, b: string)
    requires (a == "" || a[|a| - 1] != '\r') && (b == "" || b[0] != '\n')
    ensures NormalizeText(a + "\r" + b) == NormalizeText(a + "\n" + b)
  {
    LinesConcat(a, "\r");
    LinesConcat(a + "\r", b);
    LinesOfOne('\r');
    LinesAround(a, '\n', b);
  }

  /** A tab or a no-break space counts as a blank. */
  lemma TabIsBlank(a: string, c: char, b: string)
    requires c == '\t' || c == '\U{A0}'
    ensures NormalizeText(a + [c] + b) == NormalizeText(a + " " + b)
  {
    LinesAround(a, c, b);
    LinesAround(a, ' ', b);
    SpacedIs(Lines(a) + [c] + Lines(b));
    SpacedIs(Lines(a) + " " + Lines(b));
    UntabbedAround(Lines(a), c, Lines(b));
    UntabbedAround(Lines(a), ' ', Lines(b));
    NormalizeIs(a + [c] + b);
    NormalizeIs(a + " " + b);
  }

  lemma UntabbedAround(a: string, c: char, b: string)
    ensures Untabbed(a + [c] + b) == Untabbed(a) + [if IsTab(c) then ' ' else c] + Untabbed(b)
  {
    UntabbedConcat(a, [c]);
    UntabbedConcat(a + [c], b);
    assert [c][1..] == "";
  }

  /** Two blanks count as one. */
  lemma TwoBlanksAreOne(a: string, b: string)
    ensures NormalizeText(a + "  " + b) == NormalizeText(a + " " + b)
  {
    LinesAround(a, ' ', " " + b);
    LinesAround("", ' ', b);
    LinesAround(a, ' ', b);
    assert a + "  " + b == a + " " + (" " + b) && "" + " " + b == " " + b;
    var x, y := Lines(a), Lines(b);
    assert Lines(a + "  " + b) == x + "  " + y;
    SpacedIs(x + "  " + y);
    SpacedIs(x + " " + y);
    UntabbedAround(x, ' ', y);
    UntabbedAround(x, ' ', " " + y);
    UntabbedAround("", ' ', y);
    assert x + "  " + y == x + " " + (" " + y) && "" + " " + y == " " + y;
    OneBlankLess(Untabbed(x), Untabbed(y));
    NormalizeIs(a + "  " + b);
    NormalizeIs(a + " " + b);
  }

  lemma OneBlankLess(x: string, y: string)
    ensures Run(Blanks(), x + " " + ("" + " " + y)) == Run(Blanks(), x + " " + y)
  {
    TwoBlanks(y);
    AlikeBehind(Blanks(), x, "  " + y, " " + y);
    NothingBefore(Blanks(), x + ("  " + y), x + (" " + y));
    assert x + " " + ("" + " " + y) == x + ("  " + y) && x + " " + y == x + (" " + y);
  }

  /** Three line feeds count as two. */
  lemma ThreeLineFeedsAreTwo(a: string, b: string)
    ensures NormalizeText(a + "\n\n\n" + b) == NormalizeText(a + "\n\n" + b)
  {
    var x, y := FirstLineFeed(a), Lines(b);
    LineFeeds(a, b);
    LinesSpaced(x, y);
    OneLineLess(Spaced(x), Spaced(y));
    NormalizeIs(a + "\n\n\n" + b);
    NormalizeIs(a + "\n\n" + b);
  }

  lemma LineFeeds(a: string, b: string)
    ensures Lines(a + "\n\n" + b) == FirstLineFeed(a) + ("\n\n" + Lines(b))
    ensures Lines(a + "\n\n\n" + b) == FirstLineFeed(a) + ("\n\n\n" + Lines(b))
  {
    var x, y := FirstLineFeed(a), Lines(b);
    OneLineFeed(b);
    OneLineFeed("\n" + b);
    LinesBehind(a, x, "\n" + b);
    LinesBehind(a, x, "\n" + ("\n" + b));
    Nested(x, y);
    Nested(a, b);
    Left(a, "\n\n", b);
    Left(a, "\n\n\n", b);
  }

  lemma Left(a: string, b: string, c: string)
    ensures a + b + c == a + (b + c)
  {}

  lemma OneLineFeed(b: string)
    ensures Lines("\n" + b) == "\n" + Lines(b)
  {
    LinesConcat("\n", b);
    LinesOfOne('\n');
  }

  lemma Nested(x: string, y: string)
    ensures x + "\n" + ("\n" + y) == x + ("\n\n" + y)
    ensures x + "\n" + ("\n" + ("\n" + y)) == x + ("\n\n\n" + y)
  {}

  /** What stands before the line feed that ends `a`. */
  function FirstLineFeed(a: string): string {
    Lines(if a != "" && a[|a| - 1] == '\r' then a[..|a| - 1] else a)
  }

  lemma LinesBehind(a: string, x: string, b: string)
    requires x == FirstLineFeed(a)
    ensures Lines(a + "\n" + b) == x + "\n" + Lines(b)
  {
    if a != "" && a[|a| - 1] == '\r' {
      var before := a[..|a| - 1];
      LinesConcat(before, "\r\n");
      LinesConcat(before + "\r\n", b);
      assert "\r\n"[2..] == "" && ReplaceCrLf("\r\n") == "\n" + "";
      LinesOfOne('\n');
      assert a + "\n" + b == before + "\r\n" + b;
    } else {
      LinesAround(a, '\n', b);
    }
  }

  lemma SpacedAround(x: string, y: string)
    ensures Spaced(x + "\n" + y) == Spaced(x) + "\n" + Spaced(y)
  {
    RunAround(Tabs(), x, '\n', y);
    RunAround(Blanks(), Run(Tabs(), x), '\n', Run(Tabs(), y));
  }

  lemma LinesSpaced(x: string, y: string)
    ensures Spaced(x + ("\n\n" + y)) == Spaced(x) + ("\n\n" + Spaced(y))
    ensures Spaced(x + ("\n\n\n" + y)) == Spaced(x) + ("\n\n\n" + Spaced(y))
  {
    Nested(x, y);
    Nested(Spaced(x), Spaced(y));
    OneSpaced(y);
    OneSpaced("\n" + y);
    SpacedAround(x, "\n" + y);
    SpacedAround(x, "\n" + ("\n" + y));
  }

  lemma OneSpaced(y: string)
    ensures Spaced("\n" + y) == "\n" + Spaced(y)
  {
    SpacedAround("", y);
    assert "" + "\n" + y == "\n" + y && Spaced("") == "";
    assert "" + "\n" + Spaced(y) == "\n" + Spaced(y);
  }

  lemma OneLineLess(x: string, y: string)
    ensures Run(Newlines(), x + ("\n\n\n" + y)) == Run(Newlines(), x + ("\n\n" + y))
  {
    assert OnlyRun(Newlines(), "\n\n") by {
      assert forall u: string :: AllOf(Newlines(), u) && |u| == 2 ==> u == [u[0], u[1]];
    }
    LongRunsAlike(Newlines(), "\n\n\n", y);
    AlikeBehind(Newlines(), x, "\n\n\n" + y, "\n\n" + y);
    NothingBefore(Newlines(), x + ("\n\n\n" + y), x + ("\n\n" + y));
  }

  // ---------------------------------------------------------------- the ends

  /** All passes work on both sides of a character that is not white space. */
  lemma AroundInk(a: string, c: char, b: string)
    requires !IsSpace(c)
    ensures Run(Newlines(), Spaced(Lines(a + [c] + b))) ==
      Run(Newlines(), Spaced(Lines(a))) + [c] + Run(Newlines(), Spaced(Lines(b)))
  {
    LinesAround(a, c, b);
    RunAround(Tabs(), Lines(a), c, Lines(b));
    RunAround(Blanks(), Run(Tabs(), Lines(a)), c, Run(Tabs(), Lines(b)));
    RunAround(Newlines(), Spaced(Lines(a)), c, Spaced(Lines(b)));
  }

  lemma {:induction false} InkIsEmptyExactlyWhen(s: string)
    ensures Ink(s) == "" <==> AllSpace(s)
  {
    if s != "" {
      InkIsEmptyExactlyWhen(s[1..]);
    }
  }

  lemma SpaceStays(w: string)
    requires AllSpace(w)
    ensures AllSpace(Run(Newlines(), Spaced(Lines(w))))
  {
    InkOfSpace(w);
    InkOfCrLf(w);
    InkOfCr(ReplaceCrLf(w));
    InkOfCollapse(Lines(w), IsTab, 1, " ");
    InkOfCollapse(Run(Tabs(), Lines(w)), IsBlank, 2, " ");
    InkOfCollapse(Spaced(Lines(w)), IsNewline, 3, "\n\n");
    InkIsEmptyExactlyWhen(Run(Newlines(), Spaced(Lines(w))));
  }

  /** A text before it is stripped. */
  function Collapsed(s: string): string { Run(Newlines(), Spaced(Lines(s))) }

  lemma BlankIsNothing(s: string)
    requires AllSpace(s)
    ensures NormalizeText(s) == ""
  {
    NormalizeIs(s);
    SpaceStays(s);
    StripFacts(Collapsed(s));
  }

  /** White space in front of a text does not count. */
  lemma LeadDoesNotCount(w: string, s: string)
    requires AllSpace(w)
    ensures NormalizeText(w + s) == NormalizeText(s)
  {
    if AllSpace(s) {
      BlankIsNothing(w + s);
      BlankIsNothing(s);
    } else {
      var a, c, b := LeadAndInk(s);
      assert w + s == (w + a) + [c] + b;
      FirstInk(w + a, c, b);
      FirstInk(a, c, b);
    }
  }

  lemma LeadAndInk(s: string) returns (a: string, c: char, b: string)
    requires !AllSpace(s)
    ensures s == a + [c] + b && !IsSpace(c) && AllSpace(a)
  {
    StripFacts(s);
    LeadSpaceIs(s, LeadSpace(s));
    var n := LeadSpace(s);
    a, c, b := s[..n], s[n], s[n + 1..];
  }

  lemma FirstInk(w: string, c: char, b: string)
    requires AllSpace(w) && !IsSpace(c)
    ensures NormalizeText(w + [c] + b) == RStrip([c] + Collapsed(b))
  {
    NormalizeIs(w + [c] + b);
    AroundInk(w, c, b);
    SpaceStays(w);
    StripIndented(Collapsed(w), [c] + Collapsed(b));
    assert Collapsed(w) + [c] + Collapsed(b) == Collapsed(w) + ([c] + Collapsed(b));
  }

  lemma InkAndTail(s: string) returns (a: string, c: char, b: string)
    requires !AllSpace(s)
    ensures s == a + [c] + b && !IsSpace(c) && AllSpace(b)
  {
    StripFacts(s);
    TrimEndIs(s, TrimEnd(s));
    var n := TrimEnd(s);
    a, c, b := s[..n - 1], s[n - 1], s[n..];
  }

  /** Nor does white space behind it. */
  lemma TailDoesNotCount(s: string, v: string)
    requires AllSpace(v)
    ensures NormalizeText(s + v) == NormalizeText(s)
  {
    if AllSpace(s) {
      BlankIsNothing(s + v);
      BlankIsNothing(s);
    } else {
      var a, c, b := InkAndTail(s);
      assert s + v == a + [c] + (b + v);
      LastInk(a, c, b + v);
      LastInk(a, c, b);
    }
  }

  lemma LastInk(a: string, c: char, v: string)
    requires AllSpace(v) && !IsSpace(c)
    ensures NormalizeText(a + [c] + v) == Strip(Collapsed(a) + [c])
  {
    NormalizeIs(a + [c] + v);
    AroundInk(a, c, v);
    SpaceStays(v);
    StripTail(Collapsed(a) + [c], Collapsed(v));
  }

  // ---------------------------------------------------------------- when no rule applies

  /** `n` characters of class `p` in a row, from `i` on. */
  predicate RunAt(s: string, p: char -> bool, n: nat, i: nat) {
    i + n <= |s| && forall k :: i <= k < i + n ==> p(s[k])
  }

  lemma {:induction false} LongRunExactlyWhen(s: string, p: char -> bool, n: nat)
    requires n > 0
    ensures NoLongRun(s, p, n) <==> forall i: nat :: !RunAt(s, p, n, i)
  {
    if s != "" {
      LongRunExactlyWhen(s[1..], p, n);
      RunLengthIs(s, p);
      forall i: nat ensures RunAt(s, p, n, i + 1) <==> RunAt(s[1..], p, n, i) {
        ShiftedRun(s, p, n, i);
      }
      RunAtStart(s, p, n);
      if NoLongRun(s, p, n) {
        forall i: nat ensures !RunAt(s, p, n, i) {
          assert i > 0 ==> (RunAt(s, p, n, i - 1 + 1) <==> RunAt(s[1..], p, n, i - 1));
        }
      }
    }
  }

  lemma ShiftedRun(s: string, p: char -> bool, n: nat, i: nat)
    requires s != ""
    ensures RunAt(s, p, n, i + 1) <==> RunAt(s[1..], p, n, i)
  {
    var t := s[1..];
    assert forall k :: 0 <= k < |t| ==> t[k] == s[k + 1];
    if RunAt(t, p, n, i) {
      forall k | i + 1 <= k < i + 1 + n ensures p(s[k]) {
        assert p(t[k - 1]);
      }
    }
    if RunAt(s, p, n, i + 1) {
      forall k | i <= k < i + n ensures p(t[k]) {
        assert p(s[k + 1]);
      }
    }
  }

  lemma RunAtStart(s: string, p: char -> bool, n: nat)
    ensures RunLength(s, p) >= n <==> RunAt(s, p, n, 0)
  {
    RunLengthIs(s, p);
  }

  /** A text is normal exactly when no rule applies to it: it has no carriage return, no tab and no no-break space,
      nowhere two blanks or three line feeds in a row, and no white space at its ends. */
  lemma NormalExactlyWhen(s: string)
    ensures IsNormal(s) <==>
      && '\r' !in s && '\t' !in s && '\U{A0}' !in s
      && (forall i: nat :: !At(s, "  ", i) && !At(s, "\n\n\n", i))
      && (s != "" ==> !IsSpace(s[0]) && !IsSpace(s[|s| - 1]))
  {
    LongRunExactlyWhen(s, IsBlank, 2);
    LongRunExactlyWhen(s, IsNewline, 3);
    forall i: nat ensures RunAt(s, IsBlank, 2, i) <==> At(s, "  ", i) {
      BlanksAt(s, i);
    }
    forall i: nat ensures RunAt(s, IsNewline, 3, i) <==> At(s, "\n\n\n", i) {
      LineFeedsAt(s, i);
    }
    NoneExactlyWhen(s);
  }

  lemma NoneExactlyWhen(s: string)
    ensures NoneOf(s, IsReturn) <==> '\r' !in s
    ensures NoneOf(s, IsTab) <==> '\t' !in s && '\U{A0}' !in s
  {}

  lemma BlanksAt(s: string, i: nat)
    ensures RunAt(s, IsBlank, 2, i) <==> At(s, "  ", i)
  {
    if i < |s| - 1 {
      assert s[i..i + 2] == [s[i], s[i + 1]];
    }
  }

  lemma LineFeedsAt(s: string, i: nat)
    ensures RunAt(s, IsNewline, 3, i) <==> At(s, "\n\n\n", i)
  {
    if i < |s| - 2 {
      assert s[i..i + 3] == [s[i], s[i + 1], s[i + 2]];
    }
  }
}
