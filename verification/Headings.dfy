/** Heading structure, computed twice: `heading_sections` gives every heading the interval up to the
    next heading of the same or a higher rank, and `split_markdown_sections` keeps a stack of titles
    keyed by level. Both see the same marks. */
module Headings {

  /** A heading: its offset, its level (1 is the highest rank) and its title. */
  datatype Mark = Mark(start: nat, level: nat, title: string)

  /** Marks as the scanner delivers them: one per offset, in text order, levels from one up, all
      inside a text of length `n`. */
  ghost predicate Marks(ms: seq<Mark>, n: nat) {
    && (forall i :: 0 <= i < |ms| ==> ms[i].level >= 1 && ms[i].start < n)
    && (forall i, j :: 0 <= i < j < |ms| ==> ms[i].start < ms[j].start)
  }

  // ---------------------------------------------------------------- intervals

  datatype Section = Section(title: string, level: nat, start: nat, end: nat)

  /** The first heading after `i`, from `j` on, that closes heading `i`; `|ms|` if none does. */
  function Closer(ms: seq<Mark>, i: nat, j: nat): (k: nat)
    requires i < j <= |ms|
    ensures j <= k <= |ms|
    ensures forall m :: j <= m < k ==> ms[m].level > ms[i].level
    ensures k < |ms| ==> ms[k].level <= ms[i].level
    decreases |ms| - j
  {
    if j == |ms| || ms[j].level <= ms[i].level then j else Closer(ms, i, j + 1)
  }

  function EndOf(ms: seq<Mark>, n: nat, i: nat): nat
    requires i < |ms|
  {
    var k := Closer(ms, i, i + 1);
    if k < |ms| then ms[k].start else n
  }

  /** A section ends at the first later heading of its rank or a higher one, or with the text if there is none. */
  lemma EndsAtFirst(ms: seq<Mark>, n: nat, i: nat, k: nat)
    requires i < k <= |ms| && (forall j :: i < j < k ==> ms[j].level > ms[i].level)
    requires k < |ms| ==> ms[k].level <= ms[i].level
    ensures EndOf(ms, n, i) == if k < |ms| then ms[k].start else n
  {
    var c := Closer(ms, i, i + 1);
    if c < k {
      assert false;
    }
  }

  function SectionOf(ms: seq<Mark>, n: nat, i: nat): Section
    requires i < |ms|
  {
    Section(ms[i].title, ms[i].level, ms[i].start, EndOf(ms, n, i))
  }

  /** `heading_sections`: for every heading, scan the later ones for its end. */
  method HeadingSections(ms: seq<Mark>, n: nat) returns (sections: seq<Section>)
    ensures |sections| == |ms|
    ensures forall i :: 0 <= i < |ms| ==> sections[i] == SectionOf(ms, n, i)
  {
    sections := [];
    for i := 0 to |ms|
      invariant |sections| == i
      invariant forall k :: 0 <= k < i ==> sections[k] == SectionOf(ms, n, k)
    {
      var end := n;
      var j := i + 1;
      while j < |ms|
        invariant i < j <= |ms|
        invariant Closer(ms, i, j) == Closer(ms, i, i + 1)
        invariant end == n
      {
        if ms[j].level <= ms[i].level {
          end := ms[j].start;
          break;
        }
        j := j + 1;
      }
      sections := sections + [Section(ms[i].title, ms[i].level, ms[i].start, end)];
    }
  }

  /** Heading `j` lies in the interval of heading `i`. */
  ghost predicate Contains(ms: seq<Mark>, n: nat, i: nat, j: nat)
    requires i < |ms| && j < |ms|
  {
    ms[i].start <= ms[j].start < EndOf(ms, n, i)
  }

  /** Later headings are contained exactly as long as nothing closes the interval. */
  lemma ContainsIffOpen(ms: seq<Mark>, n: nat, i: nat, j: nat)
    requires Marks(ms, n) && i < |ms| && j < |ms|
    ensures Contains(ms, n, i, j) <==> i <= j < Closer(ms, i, i + 1)
  {
    var k := Closer(ms, i, i + 1);
    if j < i {
      assert ms[j].start < ms[i].start;
    } else if k < |ms| {
      assert j < k ==> ms[j].start < ms[k].start;
      assert k < j ==> ms[k].start < ms[j].start;
    }
  }

  /** The intervals are laminar: of two headings the later one's interval lies inside the earlier
      one's or after it, and inside means a strictly lower rank. */
  lemma SectionsAreLaminar(ms: seq<Mark>, n: nat, i: nat, j: nat)
    requires Marks(ms, n) && i < j < |ms|
    ensures ms[j].start < EndOf(ms, n, j) <= n
    ensures if Contains(ms, n, i, j) then EndOf(ms, n, j) <= EndOf(ms, n, i) && ms[i].level < ms[j].level
            else EndOf(ms, n, i) <= ms[j].start
  {
    ContainsIffOpen(ms, n, i, j);
    var k, l := Closer(ms, i, i + 1), Closer(ms, j, j + 1);
    if k < |ms| {
      if j < k {
        assert l <= k;
        assert l < k ==> ms[l].start < ms[k].start;
      } else {
        assert k < j ==> ms[k].start < ms[j].start;
      }
    }
    assert l < |ms| ==> ms[j].start < ms[l].start;
  }

  // ---------------------------------------------------------------- the title stack

  /** `{k: v for k, v in stack.items() if k < level}` with `level: i` added. The model's stack holds
      the index of the heading at each level. */
  function Push(stack: map<nat, nat>, level: nat, i: nat): map<nat, nat> {
    (map k | k in stack && k < level :: stack[k])[level := i]
  }

  /** The stack after the headings before `m` have been seen. */
  function Stack(ms: seq<Mark>, m: nat): map<nat, nat>
    requires m <= |ms|
  {
    if m == 0 then map[] else Push(Stack(ms, m - 1), ms[m - 1].level, m - 1)
  }

  /** Heading `i` is still open after the headings before `m` have been seen. */
  predicate Open(ms: seq<Mark>, i: nat, m: nat)
    requires m <= |ms|
  {
    i < m && Closer(ms, i, i + 1) >= m
  }

  lemma OpenStep(ms: seq<Mark>, i: nat, m: nat)
    requires m < |ms|
    ensures Open(ms, i, m + 1) <==> i == m || (Open(ms, i, m) && ms[i].level < ms[m].level)
  {}

  /** The stack holds exactly the open headings, each at its own level. */
  lemma {:induction false} StackHoldsOpenHeadings(ms: seq<Mark>, m: nat, level: nat, i: nat)
    requires m <= |ms|
    ensures level in Stack(ms, m) && Stack(ms, m)[level] == i <==> Open(ms, i, m) && ms[i].level == level
  {
    if m > 0 {
      StackHoldsOpenHeadings(ms, m - 1, level, i);
      OpenStep(ms, i, m - 1);
    }
  }

  /** `sorted(stack)` for keys below `bound`, as the values stored under them. */
  function Path(stack: map<nat, nat>, bound: nat): seq<nat> {
    if bound == 0 then []
    else Path(stack, bound - 1) + (if bound - 1 in stack then [stack[bound - 1]] else [])
  }

  /** The headings before `m` whose intervals contain heading `j`, in text order. */
  function Enclosing(ms: seq<Mark>, n: nat, j: nat, m: nat): seq<nat>
    requires m <= |ms| && j < |ms|
  {
    if m == 0 then []
    else Enclosing(ms, n, j, m - 1) +
         (if ms[m - 1].start <= ms[j].start < EndOf(ms, n, m - 1) then [m - 1] else [])
  }

  ghost predicate Ascending(s: seq<nat>) {
    |s| > 1 ==> Ascending(s[..|s| - 1]) && s[|s| - 2] < s[|s| - 1]
  }

  lemma {:induction false} AscendingLast(s: seq<nat>, x: nat)
    requires Ascending(s) && x in s
    ensures x <= s[|s| - 1]
  {
    if x != s[|s| - 1] {
      AscendingLast(s[..|s| - 1], x);
    }
  }

  lemma AscendingSnoc(s: seq<nat>, x: nat)
    requires Ascending(s) && (s != [] ==> s[|s| - 1] < x)
    ensures Ascending(s + [x]) && Ascending(s + [])
  {
    var t := s + [x];
    assert t[..|t| - 1] == s && t[|t| - 1] == x;
    assert s + [] == s;
    assert |t| > 1 ==> t[|t| - 2] == s[|s| - 1];
  }

  lemma {:induction false} EnclosingMembers(ms: seq<Mark>, n: nat, j: nat, m: nat, i: nat)
    requires m <= |ms| && j < |ms|
    ensures i in Enclosing(ms, n, j, m) <==> i < m && Contains(ms, n, i, j)
  {
    if m > 0 {
      EnclosingMembers(ms, n, j, m - 1, i);
    }
  }

  lemma {:induction false} EnclosingAscends(ms: seq<Mark>, n: nat, j: nat, m: nat)
    requires m <= |ms| && j < |ms|
    ensures Ascending(Enclosing(ms, n, j, m))
  {
    if m > 0 {
      EnclosingAscends(ms, n, j, m - 1);
      EnclosingEnds(ms, n, j, m - 1);
      AscendingSnoc(Enclosing(ms, n, j, m - 1), m - 1);
    }
  }

  lemma EnclosingEnds(ms: seq<Mark>, n: nat, j: nat, m: nat)
    requires m <= |ms| && j < |ms|
    ensures var s := Enclosing(ms, n, j, m); s != [] ==> s[|s| - 1] < m
  {
    var s := Enclosing(ms, n, j, m);
    if s != [] {
      EnclosingMembers(ms, n, j, m, s[|s| - 1]);
    }
  }

  lemma {:induction false} PathMembers(ms: seq<Mark>, m: nat, bound: nat, i: nat)
    requires m <= |ms|
    ensures i in Path(Stack(ms, m), bound) <==> Open(ms, i, m) && ms[i].level < bound
  {
    if bound > 0 {
      PathMembers(ms, m, bound - 1, i);
      StackHoldsOpenHeadings(ms, m, bound - 1, i);
    }
  }

  /** Listing a stack of open headings by level lists them in text order. */
  lemma {:induction false} PathAscends(ms: seq<Mark>, m: nat, bound: nat)
    requires m <= |ms|
    ensures Ascending(Path(Stack(ms, m), bound))
  {
    var stack := Stack(ms, m);
    if bound > 0 {
      PathAscends(ms, m, bound - 1);
      var init := Path(stack, bound - 1);
      if bound - 1 in stack {
        StackHoldsOpenHeadings(ms, m, bound - 1, stack[bound - 1]);
        if init != [] {
          PathMembers(ms, m, bound - 1, init[|init| - 1]);
          OpenIsOrdered(ms, init[|init| - 1], stack[bound - 1], m);
        }
        AscendingSnoc(init, stack[bound - 1]);
      } else {
        assert init + [] == init;
      }
    }
  }

  /** Of two open headings the one of higher rank comes first: otherwise it would have closed the
      other. */
  lemma OpenIsOrdered(ms: seq<Mark>, i: nat, j: nat, m: nat)
    requires m <= |ms| && Open(ms, i, m) && Open(ms, j, m) && ms[i].level < ms[j].level
    ensures i < j
  {}

  /** Ascending lists with the same members are the same list. */
  lemma {:induction false} AscendingUnique(a: seq<nat>, b: seq<nat>)
    requires Ascending(a) && Ascending(b) && forall x: nat :: x in a <==> x in b
    ensures a == b
  {
    SameEmptiness(a, b);
    if a != [] && b != [] {
      var p, q := a[|a| - 1], b[|b| - 1];
      assert p in a && q in b;
      AscendingLast(b, p);
      AscendingLast(a, q);
      assert p == q;
      InitMembers(a);
      InitMembers(b);
      var c, d := a[..|a| - 1], b[..|b| - 1];
      forall x: nat ensures x in c <==> x in d {
        assert x in c <==> x in a && x != p;
        assert x in d <==> x in b && x != q;
      }
      AscendingUnique(c, d);
    }
  }

  lemma SameEmptiness(a: seq<nat>, b: seq<nat>)
    requires forall x: nat :: x in a <==> x in b
    ensures a == [] <==> b == []
  {
    if a != [] {
      assert a[0] in a;
    }
    if b != [] {
      assert b[0] in b;
    }
  }

  lemma InitMembers(a: seq<nat>)
    requires Ascending(a) && a != []
    ensures forall x: nat :: x in a[..|a| - 1] <==> x in a && x != a[|a| - 1]
  {
    if a[|a| - 1] in a[..|a| - 1] {
      AscendingLast(a[..|a| - 1], a[|a| - 1]);
    }
  }

  /** The two heading algorithms agree: the title path recorded for a heading lists exactly the
      headings whose intervals contain it, outermost first and itself last. */
  lemma PathIsEnclosingSections(ms: seq<Mark>, n: nat, j: nat, bound: nat)
    requires Marks(ms, n) && j < |ms|
    requires forall i :: 0 <= i < |ms| ==> ms[i].level < bound
    ensures Path(Stack(ms, j + 1), bound) == Enclosing(ms, n, j, |ms|)
  {
    PathAscends(ms, j + 1, bound);
    EnclosingAscends(ms, n, j, |ms|);
    forall i: nat ensures i in Path(Stack(ms, j + 1), bound) <==> i in Enclosing(ms, n, j, |ms|) {
      PathMembers(ms, j + 1, bound, i);
      EnclosingMembers(ms, n, j, |ms|, i);
      if i < |ms| {
        ContainsIffOpen(ms, n, i, j);
      }
    }
    AscendingUnique(Path(Stack(ms, j + 1), bound), Enclosing(ms, n, j, |ms|));
  }
}
