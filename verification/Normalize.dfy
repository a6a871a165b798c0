/** `normalize_text`: line ends, blanks and blank lines are brought to one form before any offset is
    taken. */
module Normalize {
  import opened Text

  predicate IsTab(c: char) { c == '\t' || c == '\U{A0}' }

  predicate IsBlank(c: char) { c == ' ' }

  predicate IsNewline(c: char) { c == '\n' }

  /** `s.replace("\r\n", "\n")` */
  function ReplaceCrLf(s: string): string {
    if s == "" then ""
    else if |s| > 1 && s[0] == '\r' && s[1] == '\n' then "\n" + ReplaceCrLf(s[2..])
    else [s[0]] + ReplaceCrLf(s[1..])
  }

  /** `s.replace("\r", "\n")` */
  function ReplaceCr(s: string): string {
    if s == "" then "" else [if s[0] == '\r' then '\n' else s[0]] + ReplaceCr(s[1..])
  }

  /** Length of the leading run of characters of class `p`. */
  function RunLength(s: string, p: char -> bool): (n: nat)
    ensures n <= |s|
  {
    if s == "" || !p(s[0]) then 0 else 1 + RunLength(s[1..], p)
  }

  /** `re.sub("[p]{min,}", sub, s)` */
  function Collapse(s: string, p: char -> bool, min: nat, sub: string): string
    decreases |s|
  {
    if s == "" then ""
    else if !p(s[0]) then [s[0]] + Collapse(s[1..], p, min, sub)
    else
      var n := RunLength(s, p);
      (if n >= min then sub else s[..n]) + Collapse(s[n..], p, min, sub)
  }

  function NormalizeText(text: string): string {
    var lines := ReplaceCr(ReplaceCrLf(text));
    var spaced := Collapse(Collapse(lines, IsTab, 1, " "), IsBlank, 2, " ");
    Strip(Collapse(spaced, IsNewline, 3, "\n\n"))
  }

  // ---------------------------------------------------------------- normal form

  /** No run of `p` is `min` or longer. */
  predicate NoLongRun(s: string, p: char -> bool, min: nat) {
    s != "" ==> RunLength(s, p) < min && NoLongRun(s[1..], p, min)
  }

  predicate NoneOf(s: string, p: char -> bool) {
    forall i :: 0 <= i < |s| ==> !p(s[i])
  }

  predicate IsReturn(c: char) { c == '\r' }

  /** The texts that normalisation leaves alone. */
  predicate IsNormal(s: string) {
    && NoneOf(s, IsReturn) && NoneOf(s, IsTab)
    && NoLongRun(s, IsBlank, 2) && NoLongRun(s, IsNewline, 3)
    && IsTrimmed(s)
  }

  // ---- what one collapsing pass does

  lemma {:induction false} RunLengthIs(s: string, p: char -> bool)
    ensures forall i :: 0 <= i < RunLength(s, p) ==> p(s[i])
    ensures RunLength(s, p) < |s| ==> !p(s[RunLength(s, p)])
  {
    if s != "" && p(s[0]) {
      RunLengthIs(s[1..], p);
    }
  }

  lemma {:induction false} CollapseIdentity(s: string, p: char -> bool, min: nat, sub: string)
    requires NoLongRun(s, p, min)
    ensures Collapse(s, p, min, sub) == s
    decreases |s|
  {
    if s != "" {
      var n := RunLength(s, p);
      if !p(s[0]) {
        CollapseIdentity(s[1..], p, min, sub);
      } else {
        DropRun(s, p, min, n);
        CollapseIdentity(s[n..], p, min, sub);
        assert s[..n] + s[n..] == s;
      }
    }
  }

  lemma {:induction false} DropRun(s: string, p: char -> bool, min: nat, n: nat)
    requires NoLongRun(s, p, min) && n <= |s|
    ensures NoLongRun(s[n..], p, min)
  {
    if n == 0 {
      assert s[0..] == s;
    } else {
      DropRun(s[1..], p, min, n - 1);
      assert s[1..][n - 1..] == s[n..];
    }
  }

  /** A pass invents no characters other than those of its replacement. */
  lemma {:induction false} CollapseNoneOf(s: string, p: char -> bool, min: nat, sub: string, q: char -> bool)
    requires NoneOf(s, q) && NoneOf(sub, q)
    ensures NoneOf(Collapse(s, p, min, sub), q)
    decreases |s|
  {
    if s != "" {
      var n := if p(s[0]) then RunLength(s, p) else 1;
      CollapseNoneOf(s[n..], p, min, sub, q);
    }
  }

  /** Replacing every run, even of length one, by something else leaves none of the class. */
  lemma {:induction false} CollapseAll(s: string, p: char -> bool, sub: string)
    requires NoneOf(sub, p)
    ensures NoneOf(Collapse(s, p, 1, sub), p)
    decreases |s|
  {
    if s != "" {
      CollapseAll(s[if p(s[0]) then RunLength(s, p) else 1..], p, sub);
    }
  }

  /** The first character survives unless it starts a run that is replaced. */
  lemma CollapseHead(s: string, p: char -> bool, min: nat, sub: string)
    requires s != "" && !p(s[0])
    ensures Collapse(s, p, min, sub) != "" && Collapse(s, p, min, sub)[0] == s[0]
  {}

  lemma {:induction false} RunThenRest(a: string, t: string, p: char -> bool, min: nat)
    requires (forall i :: 0 <= i < |a| ==> p(a[i])) && |a| < min
    requires NoLongRun(t, p, min) && (t != "" ==> !p(t[0]))
    ensures NoLongRun(a + t, p, min)
    ensures RunLength(a + t, p) == |a|
  {
    if a == "" {
      assert a + t == t;
    } else {
      assert (a + t)[1..] == a[1..] + t;
      RunThenRest(a[1..], t, p, min);
    }
  }

  /** After a pass no long run is left, since the replacement is shorter than the limit. */
  lemma {:induction false} CollapseLeavesNoLongRun(s: string, p: char -> bool, min: nat, sub: string)
    requires (forall i :: 0 <= i < |sub| ==> p(sub[i])) && |sub| < min
    ensures NoLongRun(Collapse(s, p, min, sub), p, min)
    decreases |s|
  {
    if s != "" {
      if !p(s[0]) {
        CollapseLeavesNoLongRun(s[1..], p, min, sub);
        var rest := Collapse(s[1..], p, min, sub);
        assert ([s[0]] + rest)[1..] == rest;
      } else {
        var n := RunLength(s, p);
        RunLengthIs(s, p);
        CollapseLeavesNoLongRun(s[n..], p, min, sub);
        if n < |s| {
          CollapseHead(s[n..], p, min, sub);
        }
        RunThenRest(if n >= min then sub else s[..n], Collapse(s[n..], p, min, sub), p, min);
      }
    }
  }

  /** A pass over one class does not lengthen the runs of another. */
  lemma {:induction false} CollapseKeepsRuns(s: string, p: char -> bool, min: nat, sub: string,
                                              q: char -> bool, m: nat)
    requires NoLongRun(s, q, m) && m > 0 && (forall c :: p(c) ==> !q(c)) && NoneOf(sub, q) && sub != ""
    ensures NoLongRun(Collapse(s, p, min, sub), q, m)
    ensures RunLength(Collapse(s, p, min, sub), q) == RunLength(s, q)
    decreases |s|
  {
    if s != "" {
      if !p(s[0]) {
        CollapseKeepsRuns(s[1..], p, min, sub, q, m);
        var rest := Collapse(s[1..], p, min, sub);
        assert ([s[0]] + rest)[1..] == rest;
      } else {
        var n := RunLength(s, p);
        RunLengthIs(s, p);
        DropRun(s, q, m, n);
        CollapseKeepsRuns(s[n..], p, min, sub, q, m);
        OtherThenRest(if n >= min then sub else s[..n], Collapse(s[n..], p, min, sub), q, m);
      }
    }
  }

  lemma {:induction false} OtherThenRest(a: string, t: string, q: char -> bool, m: nat)
    requires NoneOf(a, q) && NoLongRun(t, q, m) && m > 0
    ensures NoLongRun(a + t, q, m)
    ensures a != "" ==> RunLength(a + t, q) == 0
  {
    if a == "" {
      assert a + t == t;
    } else {
      assert (a + t)[1..] == a[1..] + t;
      OtherThenRest(a[1..], t, q, m);
    }
  }

  // ---- line ends

  lemma {:induction false} ReplaceCrNone(s: string)
    ensures NoneOf(ReplaceCr(s), IsReturn)
  {
    if s != "" {
      ReplaceCrNone(s[1..]);
    }
  }

  lemma {:induction false} NoReturns(s: string)
    requires NoneOf(s, IsReturn)
    ensures ReplaceCrLf(s) == s && ReplaceCr(s) == s
  {
    if s != "" {
      NoReturns(s[1..]);
    }
  }

  // ---- stripping a normal text

  lemma {:induction false} TakeRun(s: string, p: char -> bool, min: nat, n: nat)
    requires NoLongRun(s, p, min) && n <= |s|
    ensures NoLongRun(s[..n], p, min)
    ensures RunLength(s[..n], p) <= RunLength(s, p)
  {
    if n > 0 {
      TakeRun(s[1..], p, min, n - 1);
      assert s[..n][1..] == s[1..][..n - 1];
    }
  }

  lemma SliceRun(s: string, p: char -> bool, min: nat, a: nat, b: nat)
    requires NoLongRun(s, p, min) && a <= b <= |s|
    ensures NoLongRun(s[a..b], p, min)
  {
    TakeRun(s, p, min, b);
    DropRun(s[..b], p, min, a);
  }

  lemma StripKeeps(s: string)
    requires NoneOf(s, IsReturn) && NoneOf(s, IsTab)
    requires NoLongRun(s, IsBlank, 2) && NoLongRun(s, IsNewline, 3)
    ensures IsNormal(Strip(s))
  {
    StripFacts(s);
    if Strip(s) != "" {
      SliceRun(s, IsBlank, 2, LeadSpace(s), TrimEnd(s));
      SliceRun(s, IsNewline, 3, LeadSpace(s), TrimEnd(s));
    }
  }

  // ---------------------------------------------------------------- main results

  /** The two passes over blanks. */
  lemma SpacingFacts(lines: string)
    requires NoneOf(lines, IsReturn)
    ensures var spaced := Collapse(Collapse(lines, IsTab, 1, " "), IsBlank, 2, " ");
      NoneOf(spaced, IsReturn) && NoneOf(spaced, IsTab) && NoLongRun(spaced, IsBlank, 2)
  {
    var tabless := Collapse(lines, IsTab, 1, " ");
    CollapseNoneOf(lines, IsTab, 1, " ", IsReturn);
    CollapseAll(lines, IsTab, " ");
    CollapseNoneOf(tabless, IsBlank, 2, " ", IsReturn);
    CollapseNoneOf(tabless, IsBlank, 2, " ", IsTab);
    CollapseLeavesNoLongRun(tabless, IsBlank, 2, " ");
  }

  /** Normalisation reaches its normal form. */
  lemma NormalizeIsNormal(text: string)
    ensures IsNormal(NormalizeText(text))
  {
    var lines := ReplaceCr(ReplaceCrLf(text));
    ReplaceCrNone(ReplaceCrLf(text));
    SpacingFacts(lines);
    var spaced := Collapse(Collapse(lines, IsTab, 1, " "), IsBlank, 2, " ");
    CollapseNoneOf(spaced, IsNewline, 3, "\n\n", IsReturn);
    CollapseNoneOf(spaced, IsNewline, 3, "\n\n", IsTab);
    CollapseKeepsRuns(spaced, IsNewline, 3, "\n\n", IsBlank, 2);
    CollapseLeavesNoLongRun(spaced, IsNewline, 3, "\n\n");
    StripKeeps(Collapse(spaced, IsNewline, 3, "\n\n"));
  }

  lemma {:induction false} NoneMeansNoRun(s: string, p: char -> bool)
    requires NoneOf(s, p)
    ensures NoLongRun(s, p, 1)
  {
    if s != "" {
      NoneMeansNoRun(s[1..], p);
    }
  }

  /** The fixed points of normalisation are exactly the normal texts, so offsets into a normalised
      text stay valid when it is normalised again. */
  lemma NormalizeFixedPoints(text: string)
    ensures NormalizeText(text) == text <==> IsNormal(text)
    ensures NormalizeText(NormalizeText(text)) == NormalizeText(text)
  {
    NormalizeIsNormal(text);
    if IsNormal(text) {
      NormalIsFixed(text);
    }
    NormalIsFixed(NormalizeText(text));
  }

  lemma NormalIsFixed(s: string)
    requires IsNormal(s)
    ensures NormalizeText(s) == s
  {
    NoReturns(s);
    NoneMeansNoRun(s, IsTab);
    CollapseIdentity(s, IsTab, 1, " ");
    CollapseIdentity(s, IsBlank, 2, " ");
    CollapseIdentity(s, IsNewline, 3, "\n\n");
    StripOfTrimmed(s);
  }

  // ---------------------------------------------------------------- content

  /** The characters that are not white space, in order. */
  function Ink(s: string): string {
    if s == "" then "" else (if IsSpace(s[0]) then "" else [s[0]]) + Ink(s[1..])
  }

  lemma {:induction false} InkConcat(a: string, b: string)
    ensures Ink(a + b) == Ink(a) + Ink(b)
  {
    if a == "" {
      assert a + b == b;
    } else {
      assert (a + b)[1..] == a[1..] + b;
      InkConcat(a[1..], b);
    }
  }

  lemma {:induction false} InkOfSpace(s: string)
    requires AllSpace(s)
    ensures Ink(s) == ""
  {
    if s != "" {
      InkOfSpace(s[1..]);
    }
  }

  lemma {:induction false} InkOfCollapse(s: string, p: char -> bool, min: nat, sub: string)
    requires (forall c :: p(c) ==> IsSpace(c)) && AllSpace(sub)
    ensures Ink(Collapse(s, p, min, sub)) == Ink(s)
    decreases |s|
  {
    if s != "" {
      if !p(s[0]) {
        InkOfCollapse(s[1..], p, min, sub);
        InkConcat([s[0]], Collapse(s[1..], p, min, sub));
        assert s == [s[0]] + s[1..];
        InkConcat([s[0]], s[1..]);
      } else {
        var n := RunLength(s, p);
        RunLengthIs(s, p);
        InkOfCollapse(s[n..], p, min, sub);
        var head := if n >= min then sub else s[..n];
        InkConcat(head, Collapse(s[n..], p, min, sub));
        InkOfSpace(head);
        assert s == s[..n] + s[n..];
        InkConcat(s[..n], s[n..]);
        InkOfSpace(s[..n]);
      }
    }
  }

  lemma {:induction false} InkOfCrLf(s: string)
    ensures Ink(ReplaceCrLf(s)) == Ink(s)
    decreases |s|
  {
    if s != "" {
      if |s| > 1 && s[0] == '\r' && s[1] == '\n' {
        InkOfCrLf(s[2..]);
        InkConcat("\n", ReplaceCrLf(s[2..]));
        assert s == s[..2] + s[2..];
        InkConcat(s[..2], s[2..]);
        InkOfSpace(s[..2]);
        InkOfSpace("\n");
      } else {
        InkOfCrLf(s[1..]);
        InkConcat([s[0]], ReplaceCrLf(s[1..]));
        assert s == [s[0]] + s[1..];
        InkConcat([s[0]], s[1..]);
      }
    }
  }

  lemma {:induction false} InkOfCr(s: string)
    ensures Ink(ReplaceCr(s)) == Ink(s)
  {
    if s != "" {
      InkOfCr(s[1..]);
      assert ReplaceCr(s)[1..] == ReplaceCr(s[1..]);
    }
  }

  lemma InkOfStrip(s: string)
    ensures Ink(Strip(s)) == Ink(s)
  {
    StripFacts(s);
    if Strip(s) == "" {
      InkOfSpace(s);
    } else {
      var a, b := LeadSpace(s), TrimEnd(s);
      LeadSpaceIs(s, a);
      TrimEndIs(s, b);
      InkOfParts(s, a, b);
    }
  }

  lemma InkOfParts(s: string, a: nat, b: nat)
    requires a <= b <= |s| && AllSpace(s[..a]) && AllSpace(s[b..])
    ensures Ink(s[a..b]) == Ink(s)
  {
    assert s == s[..a] + (s[a..b] + s[b..]);
    InkConcat(s[..a], s[a..b] + s[b..]);
    InkConcat(s[a..b], s[b..]);
    InkOfSpace(s[..a]);
    InkOfSpace(s[b..]);
    Padded(Ink(s[a..b]));
  }

  lemma Padded(s: string)
    ensures "" + (s + "") == s
  {}

  /** Normalisation changes white space only: the other characters survive, in order. */
  lemma NormalizeKeepsContent(text: string)
    ensures Ink(NormalizeText(text)) == Ink(text)
  {
    var crlf := ReplaceCrLf(text);
    InkOfCrLf(text);
    InkOfCr(crlf);
    var lines := ReplaceCr(crlf);
    var tabless := Collapse(lines, IsTab, 1, " ");
    InkOfCollapse(lines, IsTab, 1, " ");
    var spaced := Collapse(tabless, IsBlank, 2, " ");
    InkOfCollapse(tabless, IsBlank, 2, " ");
    InkOfCollapse(spaced, IsNewline, 3, "\n\n");
    InkOfStrip(Collapse(spaced, IsNewline, 3, "\n\n"));
  }
}
