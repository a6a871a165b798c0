/** The Python string primitives that the chunkers and parsers rely on: `str.isspace`, `strip`,
    `find`, `rfind` and `splitlines`. Text is a sequence of Unicode characters. */
module Text {

  /** `c.isspace()`: the characters that `str.strip()` removes. */
  predicate IsSpace(c: char) {
    var n := c as int;
    || 0x09 <= n <= 0x0D || 0x1C <= n <= 0x20 || n == 0x85 || n == 0xA0 || n == 0x1680
    || 0x2000 <= n <= 0x200A || n == 0x2028 || n == 0x2029 || n == 0x202F || n == 0x205F || n == 0x3000
  }

  /** The characters at which `str.splitlines()` ends a line. */
  predicate IsBreak(c: char) {
    var n := c as int;
    0x0A <= n <= 0x0D || 0x1C <= n <= 0x1E || n == 0x85 || n == 0x2028 || n == 0x2029
  }

  predicate AllSpace(s: string) {
    forall i :: 0 <= i < |s| ==> IsSpace(s[i])
  }

  predicate NoBreak(s: string) {
    forall i :: 0 <= i < |s| ==> !IsBreak(s[i])
  }

  /** `len(s) - len(s.lstrip())` */
  function LeadSpace(s: string): (n: nat)
    ensures n <= |s|
  {
    if s == "" || !IsSpace(s[0]) then 0 else 1 + LeadSpace(s[1..])
  }

  /** `len(s.rstrip())` */
  function TrimEnd(s: string): (n: nat)
    ensures n <= |s|
  {
    if s == "" || !IsSpace(s[|s| - 1]) then |s| else TrimEnd(s[..|s| - 1])
  }

  function RStrip(s: string): string {
    s[..TrimEnd(s)]
  }

  /** `s.strip()` */
  function Strip(s: string): string {
    if LeadSpace(s) < TrimEnd(s) then s[LeadSpace(s)..TrimEnd(s)] else ""
  }

  /** Starts and ends with a non-space character, or is empty. */
  predicate IsTrimmed(s: string) {
    s != "" ==> !IsSpace(s[0]) && !IsSpace(s[|s| - 1])
  }

  /** `n` leading characters are white space and the next one, if any, is not. */
  ghost predicate IsLead(s: string, n: int) {
    0 <= n <= |s| && (forall i :: 0 <= i < n ==> IsSpace(s[i])) && (n < |s| ==> !IsSpace(s[n]))
  }

  /** From `n` on there is only white space, and right before `n` there is none. */
  ghost predicate IsTail(s: string, n: int) {
    0 <= n <= |s| && (forall i :: n <= i < |s| ==> IsSpace(s[i])) && (n > 0 ==> !IsSpace(s[n - 1]))
  }

  lemma {:induction false} LeadSpaceIs(s: string, n: nat)
    ensures IsLead(s, n) <==> n == LeadSpace(s)
  {
    if s != "" && IsSpace(s[0]) && n > 0 {
      var t := s[1..];
      assert forall i :: 0 <= i < |t| ==> t[i] == s[i + 1];
      LeadSpaceIs(t, n - 1);
      if IsLead(t, n - 1) {
        forall i | 0 <= i < n ensures IsSpace(s[i]) {
          assert i > 0 ==> s[i] == t[i - 1];
        }
      }
    }
  }

  lemma {:induction false} TrimEndIs(s: string, n: nat)
    ensures IsTail(s, n) <==> n == TrimEnd(s)
  {
    if s != "" && IsSpace(s[|s| - 1]) {
      var t := s[..|s| - 1];
      assert forall i :: 0 <= i < |t| ==> t[i] == s[i];
      TrimEndIs(t, n);
      if IsTail(t, n) {
        forall i | n <= i < |s| ensures IsSpace(s[i]) {
          assert i < |s| - 1 ==> s[i] == t[i];
        }
      }
    }
  }

  /** Everything outside the stripped range is white space. */
  lemma StripBounds(s: string)
    ensures forall i :: 0 <= i < |s| && !IsSpace(s[i]) ==> LeadSpace(s) <= i < TrimEnd(s)
    ensures AllSpace(s) <==> TrimEnd(s) <= LeadSpace(s)
  {
    LeadSpaceIs(s, LeadSpace(s));
    TrimEndIs(s, TrimEnd(s));
    if AllSpace(s) {
      TrimEndIs(s, 0);
    }
  }

  /** `strip` yields nothing for a blank string, and otherwise the trimmed core of it. */
  lemma StripFacts(s: string)
    ensures IsTrimmed(Strip(s))
    ensures Strip(s) == "" <==> AllSpace(s)
    ensures Strip(s) != "" ==> LeadSpace(s) < TrimEnd(s) && Strip(s) == s[LeadSpace(s)..TrimEnd(s)]
  {
    StripBounds(s);
    if LeadSpace(s) < TrimEnd(s) {
      LeadSpaceIs(s, LeadSpace(s));
      TrimEndIs(s, TrimEnd(s));
      assert Strip(s)[0] == s[LeadSpace(s)] && Strip(s)[|Strip(s)| - 1] == s[TrimEnd(s) - 1];
    }
  }

  lemma StripOfTrimmed(s: string)
    ensures Strip(s) == s <==> IsTrimmed(s)
  {
    StripFacts(s);
    if IsTrimmed(s) && s != "" {
      LeadSpaceIs(s, 0);
      TrimEndIs(s, |s|);
    }
  }

  lemma StripIsRStrip(s: string)
    requires s != "" && !IsSpace(s[0])
    ensures Strip(s) == RStrip(s) != ""
  {
    LeadSpaceIs(s, 0);
    TrimEndIs(s, TrimEnd(s));
  }

  lemma StripSurrounded(a: string, s: string, b: string)
    requires AllSpace(a) && AllSpace(b) && s != "" && IsTrimmed(s)
    ensures Strip(a + s + b) == s
  {
    var whole := a + s + b;
    assert whole[|a|] == s[0] && whole[|a| + |s| - 1] == s[|s| - 1];
    LeadSpaceIs(whole, |a|);
    TrimEndIs(whole, |a| + |s|);
    assert whole[|a|..|a| + |s|] == s;
  }

  lemma StripIndented(a: string, s: string)
    requires AllSpace(a) && s != "" && !IsSpace(s[0])
    ensures Strip(a + s) == RStrip(s)
  {
    StripIsRStrip(s);
    var kept, tail := RStrip(s), s[TrimEnd(s)..];
    TailIsSpace(s);
    StripFacts(s);
    StripSurrounded(a, kept, tail);
    assert s == kept + tail;
    Reassociate(a, kept, tail);
  }

  lemma TailIsSpace(s: string)
    ensures AllSpace(s[TrimEnd(s)..])
  {
    TrimEndIs(s, TrimEnd(s));
  }

  lemma StripTail(s: string, tail: string)
    requires s != "" && !IsSpace(s[|s| - 1]) && AllSpace(tail)
    ensures Strip(s + tail) == Strip(s)
  {
    var whole := s + tail;
    LeadSpaceIs(s, LeadSpace(s));
    TrimEndIs(s, |s|);
    assert whole[|s| - 1] == s[|s| - 1];
    StripBounds(s);
    LeadSpaceIs(whole, LeadSpace(s));
    TrimEndIs(whole, |s|);
    assert whole[LeadSpace(s)..|s|] == s[LeadSpace(s)..|s|];
  }

  /** `pattern` occurs in `text` at `i`. */
  predicate At(text: string, pattern: string, i: int) {
    0 <= i <= |text| - |pattern| && text[i..i + |pattern|] == pattern
  }

  /** `text.find(pattern, from)` */
  function Find(text: string, pattern: string, from: nat): (r: int)
    requires from <= |text|
    ensures r == -1 || (from <= r && At(text, pattern, r))
    ensures forall i :: from <= i && At(text, pattern, i) ==> 0 <= r <= i
    decreases |text| - from
  {
    if At(text, pattern, from) then from
    else if from == |text| then -1
    else Find(text, pattern, from + 1)
  }

  /** `text.rfind(pattern, lo, hi)` */
  function RFind(text: string, pattern: string, lo: nat, hi: nat): (r: int)
    requires hi <= |text|
    ensures r == -1 || (lo <= r && r + |pattern| <= hi && At(text, pattern, r))
    ensures forall i :: lo <= i && i + |pattern| <= hi && At(text, pattern, i) ==> i <= r
    decreases hi
  {
    if lo + |pattern| > hi then -1
    else if At(text, pattern, hi - |pattern|) then hi - |pattern|
    else if hi == 0 then -1
    else RFind(text, pattern, lo, hi - 1)
  }

  /** Index of the first line break, or the length. */
  function LineEnd(s: string): (n: nat)
    ensures n <= |s| && (n < |s| ==> IsBreak(s[n]))
  {
    if s == "" || IsBreak(s[0]) then 0 else 1 + LineEnd(s[1..])
  }

  lemma {:induction false} LineEndIsFirst(s: string, i: nat)
    requires i < LineEnd(s)
    ensures !IsBreak(s[i])
  {
    if i > 0 {
      LineEndIsFirst(s[1..], i - 1);
    }
  }

  /** A carriage return followed by a line feed is one line break. */
  function BreakLength(s: string, e: nat): (n: nat)
    requires e < |s|
    ensures 1 <= n <= 2 && e + n <= |s|
  {
    if e + 1 < |s| && s[e] == '\r' && s[e + 1] == '\n' then 2 else 1
  }

  /** `s.splitlines()` */
  function SplitLines(s: string): seq<string>
    decreases |s|
  {
    if s == "" then []
    else
      var e := LineEnd(s);
      if e == |s| then [s] else [s[..e]] + SplitLines(s[e + BreakLength(s, e)..])
  }

  /** Lines contain no line break. */
  lemma {:induction false} LinesHaveNoBreak(s: string)
    ensures forall line :: line in SplitLines(s) ==> NoBreak(line)
    decreases |s|
  {
    if s != "" {
      var e := LineEnd(s);
      assert NoBreak(s[..e]) by {
        forall i | 0 <= i < e ensures !IsBreak(s[..e][i]) {
          LineEndIsFirst(s, i);
        }
      }
      if e == |s| {
        assert s[..e] == s;
      } else {
        LinesHaveNoBreak(s[e + BreakLength(s, e)..]);
      }
    }
  }

  /** `sep.join(parts)` */
  function Join(sep: string, parts: seq<string>): string {
    if parts == [] then ""
    else if |parts| == 1 then parts[0]
    else parts[0] + sep + Join(sep, parts[1..])
  }

  lemma Reassociate<T>(a: seq<T>, b: seq<T>, c: seq<T>)
    ensures a + (b + c) == (a + b) + c
  {}

  lemma SliceOfSlice<T>(s: seq<T>, a: nat, b: nat, c: nat, d: nat)
    requires a <= b <= |s| && c <= d <= b - a
    ensures s[a..b][c..d] == s[a + c..a + d]
  {
    var x, y := s[a..b][c..d], s[a + c..a + d];
    assert |x| == |y| && forall i :: 0 <= i < |x| ==> x[i] == y[i];
  }
}
