/** What merging means: reading a merged file is reading the old file and overriding it with the new
    values, exactly when the new values are ones that a line can carry. */
module EnvMerge {
  import opened Text
  import Sorting
  import opened EnvFile

  /** What a value reads back as. */
  function Read(v: string): string {
    Unquote(Strip(v))
  }

  function ReadAll(u: map<string, string>): map<string, string> {
    map k | k in u :: Read(u[k])
  }

  /** The update read back, restricted to some keys. */
  function ReadSome(u: map<string, string>, keys: set<string>): map<string, string> {
    map k | k in u && k in keys :: Read(u[k])
  }

  predicate ValidKeys(w: WordClass, u: map<string, string>) {
    forall k :: k in u ==> ValidKey(w, k)
  }

  /** A value that its line carries unchanged: trimmed, not quoted, without a line break. */
  predicate Faithful(v: string) {
    IsTrimmed(v) && !Quoted(v) && NoBreak(v)
  }

  lemma ReadIsFaithful(v: string)
    ensures Read(v) == v <==> IsTrimmed(v) && !Quoted(v)
  {
    StripOfTrimmed(v);
    StripFacts(v);
    if !Quoted(Strip(v)) {
      assert Read(v) == Strip(v);
    } else {
      assert |Read(v)| == |Strip(v)| - 2 && |Strip(v)| <= |v|;
      if IsTrimmed(v) {
        assert Strip(v) == v;
      }
    }
  }

  // ---------------------------------------------------------------- one line

  lemma EqConcat(k: string, rest: string)
    requires forall i :: 0 <= i < |k| ==> k[i] != '='
    ensures Eq(k + "=" + rest) == |k|
  {
    assert k + "=" + rest == k + ("=" + rest);
    EqAfter(k, "=" + rest);
  }

  lemma {:induction false} EqAfter(k: string, rest: string)
    requires (forall i :: 0 <= i < |k| ==> k[i] != '=') && rest != "" && rest[0] == '='
    ensures Eq(k + rest) == |k|
  {
    if k == "" {
      assert k + rest == rest;
    } else {
      EqAfter(k[1..], rest);
      assert (k + rest)[1..] == k[1..] + rest;
    }
  }

  /** A valid key is trimmed, and contains no equals sign, hash or line break. */
  lemma KeyShape(w: WordClass, k: string)
    requires ValidKey(w, k)
    ensures k != "" && IsTrimmed(k) && Strip(k) == k && k[0] != '#'
    ensures forall i :: 0 <= i < |k| ==> !IsSpace(k[i]) && k[i] != '='
  {
    forall i | 0 <= i < |k| ensures !IsSpace(k[i]) && k[i] != '=' && k[i] != '#' {
      assert k[i] == '_' || w(k[i]);
    }
    StripOfTrimmed(k);
  }

  /** The stripped form of the line that the merger writes. */
  lemma StripAssign(k: string, v: string)
    requires k != "" && !IsSpace(k[0])
    ensures Strip(Assign(k, v)) == k + "=" + RStrip(v)
  {
    var s := Assign(k, v);
    assert s[0] == k[0];
    StripIsRStrip(s);
    RStripConcat(k + "=", v);
    if TrimEnd(v) == 0 {
      assert RStrip(k + "=") == k + "=" by {
        RStripConcat(k, "=");
      }
      assert k + "=" + RStrip(v) == k + "=";
    }
  }

  lemma SplitAt(k: string, rest: string)
    ensures (k + "=" + rest)[..|k|] == k && (k + "=" + rest)[|k| + 1..] == rest
    ensures |k + "=" + rest| == |k| + 1 + |rest|
  {}

  /** The line `key=value` sets the key, for the parser and for the merger. */
  lemma AssignReadsBack(w: WordClass, k: string, v: string)
    requires ValidKey(w, k)
    ensures ParseLine(w, Assign(k, v)) == Setting(k, Read(v))
    ensures MergeKey(Assign(k, v)) == k
  {
    KeyShape(w, k);
    StripAssign(k, v);
    EqConcat(k, RStrip(v));
    SplitAt(k, RStrip(v));
    StripOfRStrip(v);
    assert (k + "=" + RStrip(v))[0] == k[0];
  }

  /** Parser and merger agree on which valid key a line sets. */
  lemma SameKey(w: WordClass, raw: string)
    ensures ParseLine(w, raw).Setting? <==> ValidKey(w, MergeKey(raw))
    ensures ParseLine(w, raw).Setting? ==> ParseLine(w, raw).key == MergeKey(raw)
  {
    var line := Strip(raw);
    if Eq(line) == |line| {
      assert !ValidKey(w, "");
    } else {
      StripFacts(raw);
      if line[0] == '#' {
        HashKey(line[..Eq(line)], w);
      }
    }
  }

  lemma HashKey(s: string, w: WordClass)
    requires s != "" && s[0] == '#'
    ensures !ValidKey(w, Strip(s))
  {
    StripIsRStrip(s);
    HashIsNoKey(Strip(s), w);
  }

  lemma HashIsNoKey(key: string, w: WordClass)
    requires key != "" && key[0] == '#'
    ensures !ValidKey(w, key)
  {
    assert !w('#');
    assert !(key[0] == '_' || w(key[0]));
  }

  // ---------------------------------------------------------------- the merged lines

  lemma ParseSnoc(w: WordClass, lines: seq<string>, last: string)
    ensures ParseLines(w, lines + [last]) == Apply(ParseLines(w, lines), ParseLine(w, last))
  {
    assert (lines + [last])[..|lines|] == lines;
  }

  /** A line whose key is not updated is kept. */
  lemma KeptLine(w: WordClass, kept: seq<string>, base: map<string, string>, some: map<string, string>, raw: string)
    requires ParseLines(w, kept) == base + some
    requires ParseLine(w, raw).Setting? ==> ParseLine(w, raw).key !in some
    ensures ParseLines(w, kept + [raw]) == Apply(base, ParseLine(w, raw)) + some
  {
    ParseSnoc(w, kept, raw);
    ApplyOutside(base, some, ParseLine(w, raw));
  }

  lemma ApplyOutside(base: map<string, string>, some: map<string, string>, s: Setting)
    requires s.Setting? ==> s.key !in some
    ensures Apply(base + some, s) == Apply(base, s) + some
  {}

  /** The first line of an updated key is replaced. */
  lemma ReplacedLine(w: WordClass, kept: seq<string>, base: map<string, string>, u: map<string, string>,
                     keys: set<string>, s: Setting)
    requires ParseLines(w, kept) == base + ReadSome(u, keys)
    requires s.Setting? && s.key in u && ValidKey(w, s.key)
    ensures ParseLines(w, kept + [Assign(s.key, u[s.key])]) == Apply(base, s) + ReadSome(u, keys + {s.key})
  {
    ParseSnoc(w, kept, Assign(s.key, u[s.key]));
    AssignReadsBack(w, s.key, u[s.key]);
    Overridden(base, u, keys, s);
  }

  lemma Overridden(base: map<string, string>, u: map<string, string>, keys: set<string>, s: Setting)
    requires s.Setting? && s.key in u
    ensures Apply(base, s) + ReadSome(u, keys + {s.key}) == (base + ReadSome(u, keys))[s.key := Read(u[s.key])]
  {}

  /** Its later lines are dropped. */
  lemma DroppedLine(base: map<string, string>, u: map<string, string>, keys: set<string>, s: Setting)
    requires s.Setting? && s.key in u && s.key in keys
    ensures Apply(base, s) + ReadSome(u, keys + {s.key}) == base + ReadSome(u, keys)
  {}

  lemma NoKeysAdded(u: map<string, string>, keys: set<string>)
    ensures keys + {} == keys
  {}

  lemma {:induction false} RenderedMeans(w: WordClass, lines: seq<string>, u: map<string, string>)
    requires ValidKeys(w, u)
    ensures ParseLines(w, Rendered(lines, u)) == ParseLines(w, lines) + ReadSome(u, Written(lines, u))
  {
    if lines == [] {
      assert ReadSome(u, {}) == map[];
    } else {
      var init, last := lines[..|lines| - 1], lines[|lines| - 1];
      RenderedMeans(w, init, u);
      var k, base, keys := MergeKey(last), ParseLines(w, init), Written(init, u);
      SameKey(w, last);
      if k !in u {
        KeptLine(w, Rendered(init, u), base, ReadSome(u, keys), last);
        NoKeysAdded(u, keys);
      } else if k in keys {
        DroppedLine(base, u, keys, ParseLine(w, last));
      } else {
        ReplacedLine(w, Rendered(init, u), base, u, keys, ParseLine(w, last));
      }
    }
  }

  /** The keys that the second loop writes. */
  function Rest(order: seq<string>, written: set<string>): set<string> {
    if order == [] then {}
    else
      var k := order[|order| - 1];
      Rest(order[..|order| - 1], written) + (if k in written then {} else {k})
  }

  lemma {:induction false} RestIs(order: seq<string>, written: set<string>, k: string)
    ensures k in Rest(order, written) <==> k in order && k !in written
  {
    if order != [] {
      RestIs(order[..|order| - 1], written, k);
      assert order == order[..|order| - 1] + [order[|order| - 1]];
    }
  }

  lemma {:induction false} AppendedMeans(w: WordClass, first: seq<string>, order: seq<string>, written: set<string>,
                                         u: map<string, string>)
    requires ValidKeys(w, u) && forall k :: k in order ==> k in u
    ensures ParseLines(w, first + Appended(order, written, u)) == ParseLines(w, first) +
      ReadSome(u, Rest(order, written))
  {
    if order == [] {
      assert first + [] == first && ReadSome(u, {}) == map[];
    } else {
      var init, k := order[..|order| - 1], order[|order| - 1];
      assert forall x :: x in init ==> x in order;
      AppendedMeans(w, first, init, written, u);
      var rest := Rest(init, written);
      if k in written {
        NoKeysAdded(u, rest);
      } else {
        var so := Appended(init, written, u);
        AppendLine(first, so, Assign(k, u[k]));
        ParseSnoc(w, first + so, Assign(k, u[k]));
        AssignReadsBack(w, k, u[k]);
        AddKey(ParseLines(w, first), u, rest, k);
      }
    }
  }

  lemma AppendLine(a: seq<string>, b: seq<string>, c: string)
    ensures a + (b + [c]) == (a + b) + [c]
  {}

  lemma AddKey(base: map<string, string>, u: map<string, string>, keys: set<string>, k: string)
    requires k in u
    ensures base + ReadSome(u, keys + {k}) == (base + ReadSome(u, keys))[k := Read(u[k])]
  {}

  lemma Complete(base: map<string, string>, u: map<string, string>, a: set<string>, b: set<string>)
    requires forall k :: k in u ==> k in a || k in b
    ensures base + ReadSome(u, a) + ReadSome(u, b) == base + ReadAll(u)
  {}

  /** The merged lines, read as a file, are the old file overridden by the values read back. */
  lemma MergedLinesMean(w: WordClass, content: string, order: seq<string>, u: map<string, string>)
    requires ValidKeys(w, u) && Lists(order, u)
    ensures ParseLines(w, MergedLines(content, order, u)) == Env(w, content) + ReadAll(u)
  {
    var lines := SplitLines(content);
    var written := Written(lines, u);
    RenderedMeans(w, lines, u);
    AppendedMeans(w, Rendered(lines, u), order, written, u);
    forall k | k in u ensures k in written || k in Rest(order, written) {
      RestIs(order, written, k);
    }
    Complete(Env(w, content), u, written, Rest(order, written));
  }

  // ---------------------------------------------------------------- the merged file

  predicate NoBreakValues(u: map<string, string>) {
    forall k :: k in u ==> NoBreak(u[k])
  }

  lemma AssignNoBreak(w: WordClass, k: string, v: string)
    requires ValidKey(w, k) && NoBreak(v)
    ensures NoBreak(Assign(k, v))
  {
    KeyShape(w, k);
    forall i | 0 <= i < |k| ensures !IsBreak(k[i]) {
      assert !IsSpace(k[i]);
    }
  }

  lemma {:induction false} RenderedNoBreak(w: WordClass, lines: seq<string>, u: map<string, string>)
    requires ValidKeys(w, u) && NoBreakValues(u) && AllNoBreak(lines)
    ensures AllNoBreak(Rendered(lines, u))
  {
    if lines != [] {
      var init, last := lines[..|lines| - 1], lines[|lines| - 1];
      RenderedNoBreak(w, init, u);
      assert last in lines;
      if MergeKey(last) in u {
        AssignNoBreak(w, MergeKey(last), u[MergeKey(last)]);
      }
    }
  }

  lemma {:induction false} AppendedNoBreak(w: WordClass, order: seq<string>, written: set<string>,
                                           u: map<string, string>)
    requires ValidKeys(w, u) && NoBreakValues(u)
    ensures AllNoBreak(Appended(order, written, u))
  {
    if order != [] {
      var init, k := order[..|order| - 1], order[|order| - 1];
      AppendedNoBreak(w, init, written, u);
      if k in u {
        AssignNoBreak(w, k, u[k]);
      }
    }
  }

  lemma MergedNoBreak(w: WordClass, content: string, order: seq<string>, u: map<string, string>)
    requires ValidKeys(w, u) && NoBreakValues(u)
    ensures AllNoBreak(MergedLines(content, order, u))
  {
    LinesHaveNoBreak(content);
    RenderedNoBreak(w, SplitLines(content), u);
    AppendedNoBreak(w, order, Written(SplitLines(content), u), u);
  }

  /** A line means the same without its trailing space. */
  lemma TrimmedLine(w: WordClass, raw: string)
    ensures ParseLine(w, RStrip(raw)) == ParseLine(w, raw)
    ensures MergeKey(RStrip(raw)) == MergeKey(raw)
  {
    StripOfRStrip(raw);
  }

  lemma BlankLine(w: WordClass, raw: string)
    requires TrimEnd(raw) == 0
    ensures ParseLine(w, raw) == NoSetting && MergeKey(raw) == ""
  {
    StripOfRStrip(raw);
  }

  lemma {:induction false} TrimTailMeans(w: WordClass, lines: seq<string>)
    ensures ParseLines(w, TrimTail(lines)) == ParseLines(w, lines)
  {
    if lines != [] {
      var init, last := lines[..|lines| - 1], lines[|lines| - 1];
      TrimTailMeans(w, init);
      if TrimEnd(last) == 0 {
        BlankLine(w, last);
      } else {
        TrimmedLine(w, last);
        ParseSnoc(w, init, RStrip(last));
      }
    }
  }

  lemma ReadWritten(w: WordClass, lines: seq<string>)
    requires AllNoBreak(lines)
    ensures Env(w, RStrip(Join("\n", lines)) + "\n") == ParseLines(w, lines)
  {
    WrittenLines(lines);
    TrimTailMeans(w, lines);
    if TrimTail(lines) == [] {
      ParseSnoc(w, [], "");
      assert [] + [""] == [""];
    }
  }

  /** For values without line breaks, the merged file means the old one overridden by the values as a
      line carries them. */
  lemma MergedMeans(w: WordClass, content: string, order: seq<string>, u: map<string, string>)
    requires ValidKeys(w, u) && Lists(order, u) && NoBreakValues(u)
    ensures Env(w, Merged(content, order, u)) == Env(w, content) + ReadAll(u)
  {
    MergedNoBreak(w, content, order, u);
    ReadWritten(w, MergedLines(content, order, u));
    MergedLinesMean(w, content, order, u);
  }

  lemma ParsedValueNoBreak(w: WordClass, raw: string)
    requires NoBreak(raw) && ParseLine(w, raw).Setting?
    ensures NoBreak(ParseLine(w, raw).value)
  {
    StripNoBreak(raw);
    var line := Strip(raw);
    var value := line[Eq(line) + 1..];
    StripNoBreak(value);
    UnquoteNoBreak(Strip(value));
  }

  lemma UnquoteNoBreak(s: string)
    requires NoBreak(s)
    ensures NoBreak(Unquote(s))
  {}

  lemma StripNoBreak(s: string)
    requires NoBreak(s)
    ensures NoBreak(Strip(s))
  {}

  lemma {:induction false} ParsedValuesNoBreak(w: WordClass, lines: seq<string>)
    requires AllNoBreak(lines)
    ensures NoBreakValues(ParseLines(w, lines))
  {
    if lines != [] {
      var init, last := lines[..|lines| - 1], lines[|lines| - 1];
      ParsedValuesNoBreak(w, init);
      assert last in lines;
      if ParseLine(w, last).Setting? {
        ParsedValueNoBreak(w, last);
      }
    }
  }

  /** Parsing a merged file gives the old file overridden by the updates exactly when every new value is
      trimmed, unquoted and free of line breaks. */
  lemma MergeOverridesExactlyWhen(w: WordClass, content: string, order: seq<string>, u: map<string, string>)
    requires ValidKeys(w, u) && Lists(order, u)
    ensures Env(w, Merged(content, order, u)) == Env(w, content) + u <==> forall k :: k in u ==> Faithful(u[k])
  {
    var merged := Env(w, Merged(content, order, u));
    if forall k :: k in u ==> Faithful(u[k]) {
      MergedMeans(w, content, order, u);
      FaithfulReadsBack(u);
    }
    if merged == Env(w, content) + u {
      LinesHaveNoBreak(Merged(content, order, u));
      ParsedValuesNoBreak(w, SplitLines(Merged(content, order, u)));
      forall k | k in u ensures NoBreak(u[k]) {
        assert merged[k] == u[k];
      }
      MergedMeans(w, content, order, u);
      forall k | k in u ensures Faithful(u[k]) {
        assert merged[k] == Read(u[k]);
        ReadIsFaithful(u[k]);
      }
    }
  }

  lemma FaithfulReadsBack(u: map<string, string>)
    requires forall k :: k in u ==> Faithful(u[k])
    ensures ReadAll(u) == u
  {
    forall k | k in u ensures ReadAll(u)[k] == u[k] {
      ReadIsFaithful(u[k]);
    }
  }

  // ---------------------------------------------------------------- the shape of the merged file

  /** The lines whose key is not updated, in order. */
  function Others(lines: seq<string>, u: map<string, string>): seq<string> {
    if lines == [] then []
    else
      var last := lines[|lines| - 1];
      Others(lines[..|lines| - 1], u) + (if MergeKey(last) in u then [] else [last])
  }

  /** How many lines set a key. */
  function Mentions(lines: seq<string>, k: string): nat {
    if lines == [] then 0
    else Mentions(lines[..|lines| - 1], k) + (if MergeKey(lines[|lines| - 1]) == k then 1 else 0)
  }

  /** Every line of an updated key is the assignment of its new value, and the only one for its key. */
  predicate Settled(lines: seq<string>, u: map<string, string>) {
    lines == [] ||
    (var init, last := lines[..|lines| - 1], lines[|lines| - 1];
     var k := MergeKey(last);
     Settled(init, u) && (k in u ==> last == Assign(k, u[k]) && k !in Written(init, u)))
  }

  lemma Snoc(lines: seq<string>, last: string)
    ensures (lines + [last])[..|lines + [last]| - 1] == lines && (lines + [last])[|lines + [last]| - 1] == last
    ensures lines + [last] != []
  {}

  lemma WrittenSnoc(lines: seq<string>, last: string, u: map<string, string>)
    ensures Written(lines + [last], u) == Written(lines, u) + (if MergeKey(last) in u then {MergeKey(last)} else {})
    ensures Others(lines + [last], u) == Others(lines, u) + (if MergeKey(last) in u then [] else [last])
    ensures Settled(lines + [last], u) <==>
      Settled(lines, u)
        && (MergeKey(last) in u ==>
          last == Assign(MergeKey(last), u[MergeKey(last)]) && MergeKey(last) !in Written(lines, u))
  {
    Snoc(lines, last);
  }

  lemma {:induction false} RenderedShape(w: WordClass, lines: seq<string>, u: map<string, string>)
    requires ValidKeys(w, u)
    ensures Settled(Rendered(lines, u), u)
    ensures Written(Rendered(lines, u), u) == Written(lines, u)
    ensures Others(Rendered(lines, u), u) == Others(lines, u)
  {
    if lines != [] {
      var init, last := lines[..|lines| - 1], lines[|lines| - 1];
      RenderedShape(w, init, u);
      var k := MergeKey(last);
      if k !in u {
        WrittenSnoc(Rendered(init, u), last, u);
      } else if k !in Written(init, u) {
        AssignReadsBack(w, k, u[k]);
        WrittenSnoc(Rendered(init, u), Assign(k, u[k]), u);
      }
    }
  }

  /** Appending the assignment of a key that the lines do not mention yet. */
  lemma AppendShape(w: WordClass, lines: seq<string>, k: string, u: map<string, string>)
    requires k in u && ValidKey(w, k) && Settled(lines, u) && k !in Written(lines, u)
    ensures Settled(lines + [Assign(k, u[k])], u)
    ensures Written(lines + [Assign(k, u[k])], u) == Written(lines, u) + {k}
    ensures Others(lines + [Assign(k, u[k])], u) == Others(lines, u)
  {
    AssignReadsBack(w, k, u[k]);
    WrittenSnoc(lines, Assign(k, u[k]), u);
  }

  lemma {:induction false} AppendedShape(w: WordClass, first: seq<string>, order: seq<string>, written: set<string>,
                                         u: map<string, string>)
    requires ValidKeys(w, u) && (forall k :: k in order ==> k in u) && Sorting.Distinct(order)
    requires Settled(first, u) && written == Written(first, u)
    ensures Settled(first + Appended(order, written, u), u)
    ensures Written(first + Appended(order, written, u), u) == written + Rest(order, written)
    ensures Others(first + Appended(order, written, u), u) == Others(first, u)
  {
    if order == [] {
      assert first + [] == first;
    } else {
      var init, k := order[..|order| - 1], order[|order| - 1];
      assert forall x :: x in init ==> x in order;
      AppendedShape(w, first, init, written, u);
      if k in written {
        NoKeysAdded(u, Rest(init, written));
      } else {
        RestIs(init, written, k);
        AppendLine(first, Appended(init, written, u), Assign(k, u[k]));
        AppendShape(w, first + Appended(init, written, u), k, u);
        UnionAssoc(written, Rest(init, written), k);
      }
    }
  }

  lemma UnionAssoc(a: set<string>, b: set<string>, k: string)
    ensures a + b + {k} == a + (b + {k})
  {}

  lemma {:induction false} MentionsOnce(lines: seq<string>, u: map<string, string>, k: string)
    requires Settled(lines, u) && k in u
    ensures Mentions(lines, k) == if k in Written(lines, u) then 1 else 0
    ensures k in Written(lines, u) ==> Assign(k, u[k]) in lines
  {
    if lines != [] {
      MentionsOnce(lines[..|lines| - 1], u, k);
    }
  }

  /** The merged lines hold every updated key on exactly one line, which assigns its new value, and all
      other lines of the old file, unchanged and in order. */
  lemma MergedLinesShape(w: WordClass, content: string, order: seq<string>, u: map<string, string>)
    requires ValidKeys(w, u) && Lists(order, u)
    ensures var merged := MergedLines(content, order, u);
      && Settled(merged, u)
      && Others(merged, u) == Others(SplitLines(content), u)
      && forall k :: k in u ==> k in Written(merged, u) && Mentions(merged, k) == 1 && Assign(k, u[k]) in merged
  {
    var lines := SplitLines(content);
    var written := Written(lines, u);
    RenderedShape(w, lines, u);
    AppendedShape(w, Rendered(lines, u), order, written, u);
    forall k | k in u
      ensures var merged := MergedLines(content, order, u);
        k in Written(merged, u) && Mentions(merged, k) == 1 && Assign(k, u[k]) in merged
    {
      RestIs(order, written, k);
      MentionsOnce(MergedLines(content, order, u), u, k);
    }
  }

  /** The lines of the merged file are the merged lines, up to blank space at the very end. */
  lemma MergedFileLines(w: WordClass, content: string, order: seq<string>, u: map<string, string>)
    requires ValidKeys(w, u) && Lists(order, u) && NoBreakValues(u)
    ensures var merged := MergedLines(content, order, u);
      SplitLines(Merged(content, order, u)) == if TrimTail(merged) == [] then [""] else TrimTail(merged)
  {
    MergedNoBreak(w, content, order, u);
    WrittenLines(MergedLines(content, order, u));
  }

  // ---------------------------------------------------------------- merging twice

  lemma {:induction false} RenderedSettled(lines: seq<string>, u: map<string, string>)
    requires Settled(lines, u)
    ensures Rendered(lines, u) == lines
  {
    if lines != [] {
      var init, last := lines[..|lines| - 1], lines[|lines| - 1];
      RenderedSettled(init, u);
      assert Rendered(lines, u) == init + [last];
    }
  }

  lemma RenderedSnoc(lines: seq<string>, last: string, u: map<string, string>)
    ensures var k := MergeKey(last);
      Rendered(lines + [last], u) == Rendered(lines, u) +
        if k !in u then [last] else if k in Written(lines, u) then [] else [Assign(k, u[k])]
  {
    Snoc(lines, last);
  }

  lemma TrimTailSnoc(lines: seq<string>, last: string)
    ensures TrimTail(lines + [last]) == if TrimEnd(last) == 0 then TrimTail(lines) else lines + [RStrip(last)]
  {
    Snoc(lines, last);
  }

  lemma RStripTwice(s: string)
    ensures RStrip(RStrip(s)) == RStrip(s)
  {
    TrimEndIs(s, TrimEnd(s));
    TrimEndIs(RStrip(s), |RStrip(s)|);
  }

  /** Rendering the trimmed lines only puts back trailing space. */
  lemma {:induction false} RenderedTrim(lines: seq<string>, u: map<string, string>)
    requires Settled(lines, u) && "" !in u
    ensures TrimTail(Rendered(TrimTail(lines), u)) == TrimTail(lines)
    ensures Written(TrimTail(lines), u) == Written(lines, u)
  {
    if lines != [] {
      var init, last := lines[..|lines| - 1], lines[|lines| - 1];
      StripOfRStrip(last);
      if TrimEnd(last) == 0 {
        RenderedTrim(init, u);
      } else {
        RenderedSettled(init, u);
        RenderedSnoc(init, RStrip(last), u);
        WrittenSnoc(init, RStrip(last), u);
        RStripTwice(last);
        TrimTailSnoc(init, last);
        TrimTailSnoc(init, RStrip(last));
      }
    }
  }

  lemma {:induction false} NothingAppended(order: seq<string>, written: set<string>, u: map<string, string>)
    requires forall k :: k in order ==> k in written
    ensures Appended(order, written, u) == []
  {
    if order != [] {
      NothingAppended(order[..|order| - 1], written, u);
    }
  }

  /** Merging the same updates again changes nothing, when their values have no line break. */
  lemma MergeIsIdempotent(w: WordClass, content: string, order: seq<string>, u: map<string, string>)
    requires ValidKeys(w, u) && Lists(order, u) && NoBreakValues(u)
    ensures Merged(Merged(content, order, u), order, u) == Merged(content, order, u)
  {
    var merged := MergedLines(content, order, u);
    MergedLinesShape(w, content, order, u);
    MergedFileLines(w, content, order, u);
    assert !ValidKey(w, "");
    RStripJoin(merged);
    AgainRendered(merged, u);
    var again := SplitLines(Merged(content, order, u));
    NothingAppended(order, Written(again, u), u);
    NothingMore(Rendered(again, u));
    RStripJoin(Rendered(again, u));
  }

  lemma NothingMore(lines: seq<string>)
    ensures lines + [] == lines
  {}

  lemma AgainRendered(merged: seq<string>, u: map<string, string>)
    requires Settled(merged, u) && "" !in u
    ensures var again := if TrimTail(merged) == [] then [""] else TrimTail(merged);
      Written(again, u) == Written(merged, u) && TrimTail(Rendered(again, u)) == TrimTail(merged)
  {
    RenderedTrim(merged, u);
    if TrimTail(merged) == [] {
      NothingMore([""]);
      WrittenSnoc([], "", u);
      RenderedSnoc([], "", u);
      BlankKey();
      assert [] + [""] == [""];
    }
  }

  lemma BlankKey()
    ensures MergeKey("") == "" && TrimTail([""]) == [] && Join("\n", [""]) == ""
  {}
}
