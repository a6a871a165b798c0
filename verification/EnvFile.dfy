/** The `.env` parser and merger of the deployment script: what a file means, how selected keys are
    replaced in it, and why reading a merged file gives the old meaning overridden by the new values. */
module EnvFile {
  import opened Text

  // ---------------------------------------------------------------- keys and lines

  /** `str.isalnum()` on one character. Which characters beyond ASCII are letters is left open; none of
      them is white space, an equals sign or a hash. */
  type WordClass = w: char -> bool | forall c :: w(c) ==> !IsSpace(c) && c != '=' && c != '#'
    witness (c: char) => '0' <= c <= '9' || 'A' <= c <= 'Z' || 'a' <= c <= 'z'

  /** `key.replace("_", "").isalnum()`: letters, digits and underscores, not only underscores. */
  predicate ValidKey(w: WordClass, key: string) {
    && (forall i :: 0 <= i < |key| ==> key[i] == '_' || w(key[i]))
    && (exists i :: 0 <= i < |key| && key[i] != '_')
  }

  /** The position of the first equals sign, or the length. */
  function Eq(s: string): (n: nat)
    ensures n <= |s| && (n < |s| ==> s[n] == '=')
  {
    if s == "" || s[0] == '=' then 0 else 1 + Eq(s[1..])
  }

  predicate Quoted(v: string) {
    |v| >= 2 && v[0] == v[|v| - 1] && (v[0] == '\'' || v[0] == '"')
  }

  function Unquote(v: string): string {
    if Quoted(v) then v[1..|v| - 1] else v
  }

  datatype Setting = NoSetting | Setting(key: string, value: string)

  /** What one line says. */
  function ParseLine(w: WordClass, raw: string): Setting {
    ParseStripped(w, Strip(raw))
  }

  function ParseStripped(w: WordClass, line: string): Setting {
    if line == "" || line[0] == '#' || Eq(line) == |line| then NoSetting
    else
      var key := Strip(line[..Eq(line)]);
      if !ValidKey(w, key) then NoSetting else Setting(key, Unquote(Strip(line[Eq(line) + 1..])))
  }

  function Apply(m: map<string, string>, s: Setting): map<string, string> {
    if s.NoSetting? then m else m[s.key := s.value]
  }

  /** Later lines win. */
  function ParseLines(w: WordClass, lines: seq<string>): map<string, string> {
    if lines == [] then map[]
    else Apply(ParseLines(w, lines[..|lines| - 1]), ParseLine(w, lines[|lines| - 1]))
  }

  lemma ParseStep(w: WordClass, lines: seq<string>, i: nat)
    requires i < |lines|
    ensures ParseLines(w, lines[..i + 1]) == Apply(ParseLines(w, lines[..i]), ParseLine(w, lines[i]))
  {
    assert lines[..i + 1][..i] == lines[..i];
  }

  /** The meaning of a file. */
  function Env(w: WordClass, content: string): map<string, string> {
    ParseLines(w, SplitLines(content))
  }

  /** `parse_env_text` */
  method ParseEnvText(w: WordClass, content: string) returns (values: map<string, string>)
    ensures values == Env(w, content)
  {
    var lines := SplitLines(content);
    values := map[];
    for i := 0 to |lines|
      invariant values == ParseLines(w, lines[..i])
    {
      ParseStep(w, lines, i);
      var setting := ParseLine(w, lines[i]);
      if setting.Setting? {
        values := values[setting.key := setting.value];
      }
    }
    assert lines[..|lines|] == lines;
  }

  // ---------------------------------------------------------------- merging

  /** The key by which the merger recognises a line; "" when the line has no equals sign. */
  function MergeKey(raw: string): string {
    KeyOf(Strip(raw))
  }

  function KeyOf(s: string): string {
    if Eq(s) < |s| then Strip(s[..Eq(s)]) else ""
  }

  function Assign(key: string, value: string): string {
    key + "=" + value
  }

  /** The updated keys that the lines mention. */
  function Written(lines: seq<string>, u: map<string, string>): set<string> {
    if lines == [] then {}
    else
      var k := MergeKey(lines[|lines| - 1]);
      Written(lines[..|lines| - 1], u) + (if k in u then {k} else {})
  }

  /** The lines after the first loop: the first line of an updated key is replaced, its later lines
      are dropped, all others stay. */
  function Rendered(lines: seq<string>, u: map<string, string>): seq<string> {
    if lines == [] then []
    else
      var init, last := lines[..|lines| - 1], lines[|lines| - 1];
      var k := MergeKey(last);
      if k !in u then Rendered(init, u) + [last]
      else if k in Written(init, u) then Rendered(init, u)
      else Rendered(init, u) + [Assign(k, u[k])]
  }

  /** The lines appended by the second loop, in the order of the dictionary. */
  function Appended(order: seq<string>, written: set<string>, u: map<string, string>): seq<string> {
    if order == [] then []
    else
      var init, k := order[..|order| - 1], order[|order| - 1];
      if k in written || k !in u then Appended(init, written, u)
      else Appended(init, written, u) + [Assign(k, u[k])]
  }

  /** `order` lists the keys of the dictionary, each once. */
  ghost predicate Lists(order: seq<string>, u: map<string, string>) {
    && (forall k :: k in order <==> k in u)
    && (forall i, j :: 0 <= i < j < |order| ==> order[i] != order[j])
  }

  function MergedLines(content: string, order: seq<string>, u: map<string, string>): seq<string> {
    var lines := SplitLines(content);
    Rendered(lines, u) + Appended(order, Written(lines, u), u)
  }

  function Merged(content: string, order: seq<string>, u: map<string, string>): string {
    RStrip(Join("\n", MergedLines(content, order, u))) + "\n"
  }

  lemma MergeStep(lines: seq<string>, i: nat, u: map<string, string>)
    requires i < |lines|
    ensures var k, before := MergeKey(lines[i]), Rendered(lines[..i], u);
      && Rendered(lines[..i + 1], u) == (if k !in u then before + [lines[i]]
           else if k in Written(lines[..i], u) then before else before + [Assign(k, u[k])])
      && Written(lines[..i + 1], u) == Written(lines[..i], u) + (if k in u then {k} else {})
  {
    assert lines[..i + 1][..i] == lines[..i];
  }

  lemma AppendStep(first: seq<string>, order: seq<string>, i: nat, written: set<string>, u: map<string, string>)
    requires i < |order| && order[i] in u
    ensures first + Appended(order[..i + 1], written, u) ==
      if order[i] in written then first + Appended(order[..i], written, u)
      else first + Appended(order[..i], written, u) + [Assign(order[i], u[order[i]])]
  {
    assert order[..i + 1][..i] == order[..i];
  }

  /** `merge_env_text`; the update dictionary is a map together with its insertion order. */
  method MergeEnvText(content: string, order: seq<string>, u: map<string, string>) returns (text: string)
    requires Lists(order, u)
    ensures text == Merged(content, order, u)
  {
    var lines := SplitLines(content);
    var rendered, written := [], {};
    for i := 0 to |lines|
      invariant rendered == Rendered(lines[..i], u) && written == Written(lines[..i], u)
    {
      rendered, written := MergeLine(lines, i, u, rendered, written);
    }
    assert lines[..|lines|] == lines;
    rendered := AppendMissing(rendered, order, written, u);
    text := RStrip(Join("\n", rendered)) + "\n";
  }

  /** One round of the first loop. */
  method MergeLine(lines: seq<string>, i: nat, u: map<string, string>, rendered: seq<string>, written: set<string>)
    returns (more: seq<string>, keys: set<string>)
    requires i < |lines| && rendered == Rendered(lines[..i], u) && written == Written(lines[..i], u)
    ensures more == Rendered(lines[..i + 1], u) && keys == Written(lines[..i + 1], u)
  {
    MergeStep(lines, i, u);
    more, keys := rendered, written;
    var key := MergeKey(lines[i]);
    if key in u {
      if key !in written {
        more := rendered + [Assign(key, u[key])];
        keys := written + {key};
      }
    } else {
      more := rendered + [lines[i]];
    }
  }

  /** The second loop. */
  method AppendMissing(first: seq<string>, order: seq<string>, written: set<string>, u: map<string, string>)
    returns (rendered: seq<string>)
    requires forall k :: k in order ==> k in u
    ensures rendered == first + Appended(order, written, u)
  {
    rendered := first;
    for i := 0 to |order|
      invariant rendered == first + Appended(order[..i], written, u)
    {
      AppendStep(first, order, i, written, u);
      if order[i] !in written {
        rendered := rendered + [Assign(order[i], u[order[i]])];
      }
    }
    assert order[..|order|] == order;
  }

  // ---------------------------------------------------------------- trailing space and line breaks

  lemma {:induction false} RStripConcat(a: string, b: string)
    ensures RStrip(a + b) == if TrimEnd(b) == 0 then RStrip(a) else a + RStrip(b)
  {
    if b == "" {
      assert a + b == a;
    } else if IsSpace(b[|b| - 1]) {
      var c := b[..|b| - 1];
      RStripConcat(a, c);
      assert (a + b)[..|a + b| - 1] == a + c;
      RStripInit(a + b);
      RStripInit(b);
    } else {
      assert (a + b)[|a + b| - 1] == b[|b| - 1];
      assert RStrip(b) == b && RStrip(a + b) == a + b;
    }
  }

  lemma RStripInit(s: string)
    requires s != "" && IsSpace(s[|s| - 1])
    ensures RStrip(s) == RStrip(s[..|s| - 1])
  {}

  lemma StripOfRStrip(s: string)
    ensures Strip(RStrip(s)) == Strip(s)
    ensures RStrip(s) == "" ==> Strip(s) == ""
  {
    var r := RStrip(s);
    StripBounds(s);
    TrimEndIs(s, TrimEnd(s));
    if TrimEnd(s) > LeadSpace(s) {
      LeadSpaceIs(s, LeadSpace(s));
      LeadSpaceIs(r, LeadSpace(s));
      TrimEndIs(r, |r|);
      assert r[LeadSpace(s)..|r|] == s[LeadSpace(s)..TrimEnd(s)];
    } else {
      TrimEndIs(s, 0);
      assert r == "";
    }
  }

  /** The lines without trailing blank lines and without trailing space on the last one. */
  function TrimTail(lines: seq<string>): seq<string> {
    if lines == [] then []
    else
      var init, last := lines[..|lines| - 1], lines[|lines| - 1];
      if TrimEnd(last) == 0 then TrimTail(init) else init + [RStrip(last)]
  }

  lemma {:induction false} JoinSnoc(lines: seq<string>, last: string)
    requires lines != []
    ensures Join("\n", lines + [last]) == Join("\n", lines) + ("\n" + last)
  {
    if |lines| == 1 {
      assert (lines + [last])[1..] == [last];
      Reassociate(lines[0], "\n", last);
    } else {
      JoinSnoc(lines[1..], last);
      assert (lines + [last])[1..] == lines[1..] + [last];
      Reassociate(lines[0] + "\n", Join("\n", lines[1..]), "\n" + last);
    }
  }

  /** Stripping the end of a joined text trims its lines. */
  lemma {:induction false} RStripJoin(lines: seq<string>)
    ensures RStrip(Join("\n", lines)) == Join("\n", TrimTail(lines))
  {
    if lines != [] {
      var init, last := lines[..|lines| - 1], lines[|lines| - 1];
      assert lines == init + [last];
      RStripJoin(init);
      BreakThen(last);
      if init == [] {
        LoneLine(last);
      } else {
        JoinSnoc(init, last);
        RStripConcat(Join("\n", init), "\n" + last);
        if TrimEnd(last) != 0 {
          JoinSnoc(init, RStrip(last));
        }
      }
    }
  }

  lemma LoneLine(last: string)
    ensures RStrip(Join("\n", [last])) == Join("\n", if TrimEnd(last) == 0 then [] else [RStrip(last)])
  {}

  lemma BreakThen(last: string)
    ensures TrimEnd("\n" + last) == 0 <==> TrimEnd(last) == 0
    ensures TrimEnd(last) != 0 ==> RStrip("\n" + last) == "\n" + RStrip(last)
  {
    RStripConcat("\n", last);
  }

  predicate AllNoBreak(lines: seq<string>) {
    forall line :: line in lines ==> NoBreak(line)
  }

  lemma SplitFirst(a: string, rest: string)
    requires NoBreak(a)
    ensures SplitLines(a + "\n" + rest) == [a] + SplitLines(rest)
  {
    var s := a + "\n" + rest;
    LineEndAt(a, "\n" + rest);
    assert s == a + ("\n" + rest);
    assert s[|a|] == '\n';
    assert s[..|a|] == a && s[|a| + 1..] == rest;
  }

  lemma {:induction false} LineEndAt(a: string, rest: string)
    requires NoBreak(a) && rest != "" && IsBreak(rest[0])
    ensures LineEnd(a + rest) == |a|
  {
    if a == "" {
      assert a + rest == rest;
    } else {
      LineEndAt(a[1..], rest);
      assert (a + rest)[1..] == a[1..] + rest;
    }
  }

  /** Splitting inverts joining, for lines without line breaks. */
  lemma {:induction false} SplitJoined(lines: seq<string>)
    requires lines != [] && AllNoBreak(lines)
    ensures SplitLines(Join("\n", lines) + "\n") == lines
  {
    assert lines[0] in lines;
    if |lines| == 1 {
      assert lines[0] + "\n" + "" == lines[0] + "\n";
      SplitFirst(lines[0], "");
    } else {
      SplitJoined(lines[1..]);
      SplitFirst(lines[0], Join("\n", lines[1..]) + "\n");
      Reassociate(lines[0] + "\n", Join("\n", lines[1..]), "\n");
    }
  }

  lemma BlankFile()
    ensures SplitLines("\n") == [""]
  {
    assert "" + "\n" + "" == "\n";
    SplitFirst("", "");
  }

  lemma {:induction false} TrimTailNoBreak(lines: seq<string>)
    requires AllNoBreak(lines)
    ensures AllNoBreak(TrimTail(lines))
  {
    if lines != [] {
      var init, last := lines[..|lines| - 1], lines[|lines| - 1];
      TrimTailNoBreak(init);
      assert last in lines && NoBreak(RStrip(last));
    }
  }

  /** The lines of a file that was written from lines without breaks. */
  lemma WrittenLines(lines: seq<string>)
    requires AllNoBreak(lines)
    ensures SplitLines(RStrip(Join("\n", lines)) + "\n") == if TrimTail(lines) == [] then [""] else TrimTail(lines)
  {
    RStripJoin(lines);
    TrimTailNoBreak(lines);
    if TrimTail(lines) == [] {
      BlankFile();
    } else {
      SplitJoined(TrimTail(lines));
    }
  }
}
