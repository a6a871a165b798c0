/** `clamp_config`: a proposed configuration is folded into a copy of the base, at the mutable settings only
    and within their bounds. Which settings are mutable is a table of paths. */
module ClampConfig {
  import opened Optional
  import opened Reals

  datatype Json = Null | Bool(b: bool) | Int(i: int) | Num(r: real) | Str(s: string) | List(items: seq<Json>)
    | Obj(fields: map<string, Json>)

  type Path = seq<string>

  function Get(fields: map<string, Json>, key: string): Json {
    if key in fields then fields[key] else Null
  }

  /** `read_nested` */
  function Read(node: Json, path: Path): Json
    decreases |path|
  {
    if path == [] then node
    else if node.Obj? then Read(Get(node.fields, path[0]), path[1..])
    else Null
  }

  /** The value that `setdefault(key, {})` yields. */
  function Child(node: Json, key: string): Json
    requires node.Obj?
  {
    if key in node.fields then node.fields[key] else Obj(map[])
  }

  /** `write_nested`, which raises when something on the way is no object. */
  function Write(node: Json, path: Path, v: Json): Option<Json>
    decreases |path|
  {
    if path == [] || !node.Obj? then None
    else if |path| == 1 then Some(Obj(node.fields[path[0] := v]))
    else
      var child := Write(Child(node, path[0]), path[1..], v);
      if child.None? then None else Some(Obj(node.fields[path[0] := child.value]))
  }

  /** Something on the way to a setting is there and is no object. */
  predicate Blocked(node: Json, path: Path)
    requires path != []
    decreases |path|
  {
    !node.Obj? || (|path| > 1 && Blocked(Child(node, path[0]), path[1..]))
  }

  lemma {:induction false} WriteFailsExactlyWhen(node: Json, path: Path, v: Json)
    requires path != []
    ensures Write(node, path, v).None? <==> Blocked(node, path)
    decreases |path|
  {
    if node.Obj? && |path| > 1 {
      WriteFailsExactlyWhen(Child(node, path[0]), path[1..], v);
    }
  }

  predicate Unrelated(p: Path, q: Path) { !(p <= q) && !(q <= p) }

  /** A write is read back, and nothing else changes: neither what other paths read nor what blocks them. */
  lemma {:induction false} WriteFacts(node: Json, p: Path, v: Json, q: Path)
    requires Write(node, p, v).Some?
    ensures Write(node, p, v).value.Obj? && Read(Write(node, p, v).value, p) == v
    ensures Unrelated(p, q) ==> q != [] && Read(Write(node, p, v).value, q) == Read(node, q)
    ensures Unrelated(p, q) ==> (Blocked(Write(node, p, v).value, q) <==> Blocked(node, q))
    decreases |p|
  {
    var n := Write(node, p, v).value;
    if |p| == 1 {
      assert Read(n, p) == Read(v, p[1..]);
      if q != [] && q[0] == p[0] {
        assert p == [q[0]] <= q;
      }
    } else {
      WriteFacts(Child(node, p[0]), p[1..], v, if q == [] then [] else q[1..]);
      if Unrelated(p, q) && q[0] == p[0] {
        TailsUnrelated(p, q);
        ReadChild(node, q);
      }
    }
  }

  lemma TailsUnrelated(p: Path, q: Path)
    requires p != [] && q != [] && p[0] == q[0] && Unrelated(p, q)
    ensures Unrelated(p[1..], q[1..]) && |q| > 1
  {
    assert p == [p[0]] + p[1..] && q == [q[0]] + q[1..];
  }

  lemma ReadChild(node: Json, q: Path)
    requires node.Obj? && |q| > 1
    ensures Read(node, q) == Read(Child(node, q[0]), q[1..])
  {}

  /** Writing what is there changes nothing. */
  lemma {:induction false} WriteSame(node: Json, p: Path, v: Json)
    requires p != [] && v != Null && Read(node, p) == v
    ensures Write(node, p, v) == Some(node)
    decreases |p|
  {
    assert node.Obj?;
    if |p| == 1 {
      assert Read(node, p) == Read(Get(node.fields, p[0]), p[1..]) == Get(node.fields, p[0]);
      assert node.fields[p[0] := v] == node.fields;
    } else {
      NullHasNothing(p[1..]);
      assert p[0] in node.fields;
      WriteSame(node.fields[p[0]], p[1..], v);
      assert node.fields[p[0] := node.fields[p[0]]] == node.fields;
    }
  }

  lemma NullHasNothing(p: Path)
    ensures Read(Null, p) == Null
  {}

  // ---------------------------------------------------------------- settings

  datatype Setting = WholeNumber(path: Path, low: int, high: int)
    | Fraction(path: Path, lowest: real, highest: real)
    | Flag(path: Path)

  /** `isinstance(value, (int, float))`, which booleans are too. */
  predicate IsNumber(v: Json) { v.Bool? || v.Int? || v.Num? }

  function ValueOf(v: Json): real
    requires IsNumber(v)
  {
    match v
    case Bool(b) => if b then 1.0 else 0.0
    case Int(i) => i as real
    case Num(r) => r
  }

  /** `max(low, min(high, value))` */
  function Clamp(low: real, high: real, value: real): real {
    var upper := if value < high then value else high;
    if upper > low then upper else low
  }

  /** `int(x)` drops the fraction. */
  function Truncate(x: real): int {
    if x >= 0.0 then x.Floor else -((-x).Floor)
  }

  /** What a proposed value puts into a setting, if anything. */
  function Accepted(round4: real -> real, s: Setting, v: Json): Option<Json> {
    match s
    case WholeNumber(_, low, high) =>
      if IsNumber(v) then Some(Int(Truncate(Clamp(low as real, high as real, ValueOf(v))))) else None
    case Fraction(_, lowest, highest) =>
      if IsNumber(v) then Some(Num(round4(Clamp(lowest, highest, ValueOf(v))))) else None
    case Flag(_) => if v.Bool? then Some(v) else None
  }

  /** Paths are not empty and unrelated, bounds are in order, and the bounds of fractions are rounded. */
  ghost predicate IsTable(round4: Rounding, settings: seq<Setting>) {
    && (forall x: real :: round4(round4(x)) == round4(x))
    && (forall i :: 0 <= i < |settings| ==> IsSetting(round4, settings[i]))
    && (forall i, j :: 0 <= i < j < |settings| ==> Unrelated(settings[i].path, settings[j].path))
  }

  predicate IsSetting(round4: Rounding, s: Setting) {
    && s.path != []
    && (s.WholeNumber? ==> s.low <= s.high)
    && (s.Fraction? ==> s.lowest <= s.highest && round4(s.lowest) == s.lowest && round4(s.highest) == s.highest)
  }

  predicate InBounds(s: Setting, v: Json) {
    match s
    case WholeNumber(_, low, high) => v.Int? && low <= v.i <= high
    case Fraction(_, lowest, highest) => v.Num? && lowest <= v.r <= highest
    case Flag(_) => v.Bool?
  }

  lemma TruncateBetween(low: int, high: int, x: real)
    requires low as real <= x <= high as real
    ensures low <= Truncate(x) <= high
  {}

  lemma WholeFacts(low: int, high: int, value: real)
    requires low <= high
    ensures var n := Truncate(Clamp(low as real, high as real, value));
      low <= n <= high && Truncate(Clamp(low as real, high as real, n as real)) == n
  {
    TruncateBetween(low, high, Clamp(low as real, high as real, value));
  }

  lemma FractionFacts(round4: Rounding, lowest: real, highest: real, value: real)
    requires lowest <= highest && round4(lowest) == lowest && round4(highest) == highest
    requires forall x: real :: round4(round4(x)) == round4(x)
    ensures var x := round4(Clamp(lowest, highest, value));
      lowest <= x <= highest && round4(Clamp(lowest, highest, x)) == x
  {
    var x := Clamp(lowest, highest, value);
    assert round4(lowest) <= round4(x) <= round4(highest);
    assert Clamp(lowest, highest, round4(x)) == round4(x);
  }

  /** Whatever is accepted lies within the bounds, and is accepted unchanged. */
  lemma AcceptedFacts(round4: Rounding, s: Setting, v: Json)
    requires IsSetting(round4, s) && (forall x: real :: round4(round4(x)) == round4(x)) && Accepted(round4, s, v).Some?
    ensures InBounds(s, Accepted(round4, s, v).value)
    ensures Accepted(round4, s, Accepted(round4, s, v).value) == Accepted(round4, s, v)
  {
    match s
    case WholeNumber(_, low, high) => WholeFacts(low, high, ValueOf(v));
    case Fraction(_, lowest, highest) => FractionFacts(round4, lowest, highest, ValueOf(v));
    case Flag(_) =>
  }

  /** `n` is `x` without its fraction: between zero and `x`, and less than one away. */
  predicate IsWholePart(n: int, x: real) {
    if x >= 0.0 then 0 <= n && n as real <= x < n as real + 1.0 else n <= 0 && n as real - 1.0 < x <= n as real
  }

  lemma TruncateIs(x: real, n: int)
    ensures IsWholePart(Truncate(x), x) && Truncate(n as real) == n
  {}

  /** Which values are accepted: truth values everywhere, and numbers where a number is set; there true counts as one
      and false as zero. */
  lemma AcceptedExactlyWhen(round4: real -> real, s: Setting, v: Json)
    ensures Accepted(round4, s, v).Some? <==> v.Bool? || (!s.Flag? && (v.Int? || v.Num?))
    ensures s.Flag? && v.Bool? ==> Accepted(round4, s, v) == Some(v)
    ensures !s.Flag? && v.Bool? ==> Accepted(round4, s, v) == Accepted(round4, s, Int(if v.b then 1 else 0))
    ensures !s.Flag? && v.Int? ==> Accepted(round4, s, v) == Accepted(round4, s, Num(v.i as real))
  {}

  /** A whole number keeps a value within its bounds, without its fraction, and takes the nearer bound for any
      other. */
  lemma WholeNumberTakes(round4: real -> real, s: Setting, x: real)
    requires s.WholeNumber? && s.low <= s.high
    ensures x <= s.low as real ==> Accepted(round4, s, Num(x)) == Some(Int(s.low))
    ensures s.high as real <= x ==> Accepted(round4, s, Num(x)) == Some(Int(s.high))
    ensures s.low as real <= x <= s.high as real ==>
      exists n :: IsWholePart(n, x) && Accepted(round4, s, Num(x)) == Some(Int(n))
  {
    TruncateIs(x, s.low);
    TruncateIs(x, s.high);
    assert IsWholePart(Truncate(x), x);
  }

  /** A fraction does the same, rounded. */
  lemma FractionTakes(round4: real -> real, s: Setting, x: real)
    requires s.Fraction? && s.lowest <= s.highest
    ensures Accepted(round4, s, Num(x)) ==
      Some(Num(round4(if x <= s.lowest then s.lowest else if x <= s.highest then x else s.highest)))
  {}

  // ---------------------------------------------------------------- the fold

  function Step(round4: Rounding, config: Json, merged: Json, s: Setting): Option<Json> {
    var accepted := Accepted(round4, s, Read(config, s.path));
    if accepted.None? then Some(merged) else Write(merged, s.path, accepted.value)
  }

  function Stepper(round4: Rounding, config: Json): (Json, Setting) -> Option<Json> {
    (merged: Json, s: Setting) => Step(round4, config, merged, s)
  }

  /** A loop over the first `n` items that stops at a failure. */
  function Fold(items: seq<Setting>, step: (Json, Setting) -> Option<Json>, start: Json, n: nat): Option<Json>
    requires n <= |items|
  {
    if n == 0 then Some(start)
    else
      var before := Fold(items, step, start, n - 1);
      if before.None? then None else step(before.value, items[n - 1])
  }

  /** The base after the first `n` settings. */
  function Merged(round4: Rounding, settings: seq<Setting>, config: Json, base: Json, n: nat): Option<Json>
    requires n <= |settings|
  {
    Fold(settings, Stepper(round4, config), base, n)
  }

  /** One loop over a table. */
  method ClampTable(step: (Json, Setting) -> Option<Json>, table: seq<Setting>, base: Json) returns (r: Option<Json>)
    ensures r == Fold(table, step, base, |table|)
  {
    var merged := base;
    for n := 0 to |table|
      invariant Fold(table, step, base, n) == Some(merged)
    {
      var next := step(merged, table[n]);
      if next.None? {
        NeverAgain(table, step, base, n + 1, |table|);
        return None;
      }
      merged := next.value;
    }
    r := Some(merged);
  }

  /** `clamp_config`: one loop for numbers at the top, one for nested numbers and one for flags, all into the
      same copy of the base. */
  method ClampSettings(round4: Rounding, numbers: seq<Setting>, nested: seq<Setting>, flags: seq<Setting>, config: Json,
                       base: Json)
    returns (r: Option<Json>)
    ensures var settings := numbers + nested + flags; r == Merged(round4, settings, config, base, |settings|)
  {
    r := ClampTables(Stepper(round4, config), numbers, nested, flags, base);
  }

  method ClampTables(step: (Json, Setting) -> Option<Json>, numbers: seq<Setting>, nested: seq<Setting>,
                     flags: seq<Setting>, base: Json)
    returns (r: Option<Json>)
    ensures r == Fold(numbers + nested + flags, step, base, |numbers + nested + flags|)
  {
    ThreeFolds(numbers, nested, flags, step, base);
    r := ClampTable(step, numbers, base);
    if r.Some? {
      r := ClampTable(step, nested, r.value);
    }
    if r.Some? {
      r := ClampTable(step, flags, r.value);
    }
  }

  lemma ThreeFolds(a: seq<Setting>, b: seq<Setting>, c: seq<Setting>, step: (Json, Setting) -> Option<Json>,
                   start: Json)
    ensures var one := Fold(a, step, start, |a|);
      var two := if one.None? then None else Fold(b, step, one.value, |b|);
      Fold(a + b + c, step, start, |a + b + c|) == if two.None? then None else Fold(c, step, two.value, |c|)
  {
    FoldConcat(a, b, step, start, |b|);
    FoldConcat(a + b, c, step, start, |c|);
  }

  /** Looping over two tables is looping over the second from the result of the first. */
  lemma {:induction false} FoldConcat(a: seq<Setting>, b: seq<Setting>, step: (Json, Setting) -> Option<Json>,
                                      start: Json, n: nat)
    requires n <= |b|
    ensures var first := Fold(a, step, start, |a|);
      Fold(a + b, step, start, |a| + n) == if first.None? then None else Fold(b, step, first.value, n)
  {
    if n > 0 {
      FoldConcat(a, b, step, start, n - 1);
      assert (a + b)[|a| + n - 1] == b[n - 1];
    } else {
      FoldPrefix(a, a + b, step, start, |a|);
    }
  }

  lemma {:induction false} FoldPrefix(a: seq<Setting>, b: seq<Setting>, step: (Json, Setting) -> Option<Json>,
                                      start: Json, n: nat)
    requires n <= |a| <= |b| && a <= b
    ensures Fold(a, step, start, n) == Fold(b, step, start, n)
  {
    if n > 0 {
      FoldPrefix(a, b, step, start, n - 1);
      assert a[n - 1] == b[n - 1];
    }
  }

  lemma {:induction false} NeverAgain(items: seq<Setting>, step: (Json, Setting) -> Option<Json>, start: Json, n: nat,
                                      m: nat)
    requires n <= m <= |items| && Fold(items, step, start, n).None?
    ensures Fold(items, step, start, m).None?
    decreases m
  {
    if n < m {
      NeverAgain(items, step, start, n, m - 1);
    }
  }

  /** What a path reads after the first `n` settings. */
  lemma {:induction false} MergedReads(round4: Rounding, settings: seq<Setting>, config: Json, base: Json, n: nat,
                                       q: Path)
    requires IsTable(round4, settings) && n <= |settings| && Merged(round4, settings, config, base, n).Some?
    ensures var m := Merged(round4, settings, config, base, n).value;
      && ((forall i :: 0 <= i < n ==> Unrelated(settings[i].path, q)) ==>
            Read(m, q) == Read(base, q) && (q != [] ==> (Blocked(m, q) <==> Blocked(base, q))))
  {
    if n > 0 {
      MergedReads(round4, settings, config, base, n - 1, q);
      var s := settings[n - 1];
      var accepted := Accepted(round4, s, Read(config, s.path));
      if accepted.Some? {
        WriteFacts(Merged(round4, settings, config, base, n - 1).value, s.path, accepted.value, q);
      }
    }
  }

  /** A setting still reads what the base has when its turn comes. */
  lemma NotYetWritten(round4: Rounding, settings: seq<Setting>, config: Json, base: Json, n: nat)
    requires IsTable(round4, settings) && n < |settings| && Merged(round4, settings, config, base, n).Some?
    ensures var before, path := Merged(round4, settings, config, base, n).value, settings[n].path;
      path != [] && Read(before, path) == Read(base, path) && (Blocked(before, path) <==> Blocked(base, path))
  {
    forall i | 0 <= i < n ensures Unrelated(settings[i].path, settings[n].path) {
      assert Unrelated(settings[i].path, settings[n].path);
    }
    MergedReads(round4, settings, config, base, n, settings[n].path);
  }

  /** What a setting holds in the end: the accepted value, or what the base has. */
  function Outcome(round4: Rounding, s: Setting, config: Json, base: Json): Json {
    var accepted := Accepted(round4, s, Read(config, s.path));
    if accepted.Some? then accepted.value else Read(base, s.path)
  }

  lemma {:induction false} SettingReads(round4: Rounding, settings: seq<Setting>, config: Json, base: Json, n: nat,
                                        k: nat)
    requires IsTable(round4, settings) && k < n <= |settings| && Merged(round4, settings, config, base, n).Some?
    ensures Read(Merged(round4, settings, config, base, n).value, settings[k].path) ==
      Outcome(round4, settings[k], config, base)
  {
    var before := Merged(round4, settings, config, base, n - 1).value;
    if k < n - 1 {
      SettingReads(round4, settings, config, base, n - 1, k);
      UnrelatedBack(settings[k].path, settings[n - 1].path);
      StepReads(round4, config, before, settings[n - 1], settings[k].path);
    } else {
      NotYetWritten(round4, settings, config, base, n - 1);
      StepReads(round4, config, before, settings[k], settings[k].path);
    }
  }

  /** What a step makes of its own setting and of an unrelated path. */
  lemma StepReads(round4: Rounding, config: Json, merged: Json, s: Setting, q: Path)
    requires s.path != [] && Step(round4, config, merged, s).Some?
    ensures var after := Step(round4, config, merged, s).value;
      && Read(after, s.path) == Outcome(round4, s, config, merged)
      && (Unrelated(s.path, q) ==> Read(after, q) == Read(merged, q))
  {
    var accepted := Accepted(round4, s, Read(config, s.path));
    if accepted.Some? {
      WriteFacts(merged, s.path, accepted.value, q);
    }
  }

  lemma UnrelatedBack(p: Path, q: Path)
    ensures Unrelated(p, q) <==> Unrelated(q, p)
  {}

  // ---------------------------------------------------------------- main results

  /** Every mutable setting holds the clamped proposal or else the base value, and no other path reads
      anything else than in the base. */
  lemma OnlySettingsChange(round4: Rounding, settings: seq<Setting>, config: Json, base: Json, k: nat, q: Path)
    requires IsTable(round4, settings) && Merged(round4, settings, config, base, |settings|).Some?
    ensures var m := Merged(round4, settings, config, base, |settings|).value;
      && (k < |settings| ==> Read(m, settings[k].path) == Outcome(round4, settings[k], config, base))
      && ((forall i :: 0 <= i < |settings| ==> Unrelated(settings[i].path, q)) ==> Read(m, q) == Read(base, q))
  {
    if k < |settings| {
      SettingReads(round4, settings, config, base, |settings|, k);
    }
    MergedReads(round4, settings, config, base, |settings|, q);
  }

  /** A mutable setting is in bounds in the end exactly when a value is accepted for it or the base value
      is in bounds. */
  lemma InBoundsExactlyWhen(round4: Rounding, settings: seq<Setting>, config: Json, base: Json, k: nat)
    requires IsTable(round4, settings) && k < |settings| && Merged(round4, settings, config, base, |settings|).Some?
    ensures InBounds(settings[k], Read(Merged(round4, settings, config, base, |settings|).value, settings[k].path)) <==>
      Accepted(round4, settings[k], Read(config, settings[k].path)).Some?
        || InBounds(settings[k], Read(base, settings[k].path))
  {
    SettingReads(round4, settings, config, base, |settings|, k);
    if Accepted(round4, settings[k], Read(config, settings[k].path)).Some? {
      AcceptedFacts(round4, settings[k], Read(config, settings[k].path));
    }
  }

  /** A value is accepted for the setting, and the base has something in its way. */
  predicate Raises(round4: Rounding, s: Setting, config: Json, base: Json) {
    s.path != [] && Accepted(round4, s, Read(config, s.path)).Some? && Blocked(base, s.path)
  }

  lemma StepRaises(round4: Rounding, config: Json, merged: Json, base: Json, s: Setting)
    requires s.path != [] && (Blocked(merged, s.path) <==> Blocked(base, s.path))
    ensures Step(round4, config, merged, s).None? <==> Raises(round4, s, config, base)
  {
    if Accepted(round4, s, Read(config, s.path)).Some? {
      WriteFailsExactlyWhen(merged, s.path, Accepted(round4, s, Read(config, s.path)).value);
    }
  }

  function Raiser(round4: Rounding, config: Json, base: Json): Setting -> bool {
    (s: Setting) => Raises(round4, s, config, base)
  }

  /** One of the first `n` items has the property. */
  predicate SomeOf<T>(items: seq<T>, p: T -> bool, n: nat)
    requires n <= |items|
  {
    n > 0 && (SomeOf(items, p, n - 1) || p(items[n - 1]))
  }

  lemma {:induction false} SomeOfIs<T>(items: seq<T>, p: T -> bool, n: nat)
    requires n <= |items|
    ensures SomeOf(items, p, n) <==> exists k :: 0 <= k < n && p(items[k])
  {
    if n > 0 {
      SomeOfIs(items, p, n - 1);
    }
  }

  lemma {:induction false} MergedFails(round4: Rounding, settings: seq<Setting>, config: Json, base: Json, n: nat)
    requires IsTable(round4, settings) && n <= |settings|
    ensures Merged(round4, settings, config, base, n).None? <==> SomeOf(settings, Raiser(round4, config, base), n)
  {
    if n > 0 {
      MergedFails(round4, settings, config, base, n - 1);
      var before := Merged(round4, settings, config, base, n - 1);
      if before.Some? {
        NotYetWritten(round4, settings, config, base, n - 1);
        StepRaises(round4, config, before.value, base, settings[n - 1]);
      }
    }
  }

  /** It raises exactly when a value is accepted for a setting that something in the base blocks. */
  lemma FailsExactlyWhen(round4: Rounding, settings: seq<Setting>, config: Json, base: Json)
    requires IsTable(round4, settings)
    ensures Merged(round4, settings, config, base, |settings|).None? <==>
      exists k :: 0 <= k < |settings| && Raises(round4, settings[k], config, base)
  {
    var raises := Raiser(round4, config, base);
    MergedFails(round4, settings, config, base, |settings|);
    SomeOfIs(settings, raises, |settings|);
    assert forall s :: raises(s) <==> Raises(round4, s, config, base);
  }

  /** The base value of a setting that the proposal leaves alone is one that would be accepted unchanged,
      or none that could be accepted. */
  predicate Settled(round4: Rounding, s: Setting, config: Json, base: Json) {
    var v := Read(base, s.path);
    Accepted(round4, s, Read(config, s.path)).Some? || Accepted(round4, s, v).None? || Accepted(round4, s, v) == Some(v)
  }

  /** Clamping the result again changes nothing exactly when every setting that the proposal leaves alone is
      settled in the base: within its bounds and rounded, or of another type. */
  lemma IdempotentExactlyWhen(round4: Rounding, settings: seq<Setting>, config: Json, base: Json)
    requires IsTable(round4, settings) && Merged(round4, settings, config, base, |settings|).Some?
    ensures var m := Merged(round4, settings, config, base, |settings|);
      Merged(round4, settings, m.value, base, |settings|) == m <==>
        forall k :: 0 <= k < |settings| ==> Settled(round4, settings[k], config, base)
  {
    var m := Merged(round4, settings, config, base, |settings|).value;
    if forall k :: 0 <= k < |settings| ==> Settled(round4, settings[k], config, base) {
      SameMerge(round4, settings, config, base, m, |settings|);
    }
    if Merged(round4, settings, m, base, |settings|) == Some(m) {
      forall k | 0 <= k < |settings| ensures Settled(round4, settings[k], config, base) {
        SettingReads(round4, settings, config, base, |settings|, k);
        SettingReads(round4, settings, m, base, |settings|, k);
      }
    }
  }

  lemma {:induction false} SameMerge(round4: Rounding, settings: seq<Setting>, config: Json, base: Json, m: Json,
                                     n: nat)
    requires IsTable(round4, settings) && n <= |settings|
      && Merged(round4, settings, config, base, |settings|) == Some(m)
    requires forall k :: 0 <= k < |settings| ==> Settled(round4, settings[k], config, base)
    ensures Merged(round4, settings, config, base, n).Some?
    ensures Merged(round4, settings, m, base, n) == Merged(round4, settings, config, base, n)
  {
    if Merged(round4, settings, config, base, n).None? {
      NeverAgain(settings, Stepper(round4, config), base, n, |settings|);
    }
    if n > 0 {
      SameMerge(round4, settings, config, base, m, n - 1);
      SettingReads(round4, settings, config, base, |settings|, n - 1);
      NotYetWritten(round4, settings, config, base, n - 1);
      assert IsSetting(round4, settings[n - 1]) && Settled(round4, settings[n - 1], config, base);
      SameStep(round4, config, m, base, Merged(round4, settings, config, base, n - 1).value, settings[n - 1]);
    }
  }

  /** A settled setting is written the same again. */
  lemma SameStep(round4: Rounding, config: Json, m: Json, base: Json, before: Json, s: Setting)
    requires IsSetting(round4, s) && (forall x: real :: round4(round4(x)) == round4(x))
    requires Settled(round4, s, config, base) && Read(m, s.path) == Outcome(round4, s, config, base)
    requires Read(before, s.path) == Read(base, s.path)
    ensures Step(round4, m, before, s) == Step(round4, config, before, s)
  {
    if Accepted(round4, s, Read(config, s.path)).Some? {
      AcceptedFacts(round4, s, Read(config, s.path));
    } else if Accepted(round4, s, Read(base, s.path)).Some? {
      WriteSame(before, s.path, Read(base, s.path));
    }
  }

  // ---------------------------------------------------------------- examples

  lemma OneSetting(round4: Rounding, s: Setting, config: Json, base: Json)
    ensures Merged(round4, [s], config, base, 1) == Step(round4, config, base, s)
  {
    assert Merged(round4, [s], config, base, 0) == Some(base);
  }

  /** A base value above its bound is kept when nothing is proposed, and is moved to the bound when the result
      is proposed. */
  lemma SecondClampMoves(round4: Rounding, key: string, low: int, high: int, i: int)
    requires low <= high < i
    ensures var settings, base := [WholeNumber([key], low, high)], Obj(map[key := Int(i)]);
      && Merged(round4, settings, Obj(map[]), base, 1) == Some(base)
      && Merged(round4, settings, base, base, 1) == Some(Obj(map[key := Int(high)]))
  {
    var s, base := WholeNumber([key], low, high), Obj(map[key := Int(i)]);
    OneSetting(round4, s, Obj(map[]), base);
    OneSetting(round4, s, base, base);
    ReadKey(map[], key);
    ReadKey(base.fields, key);
    assert base.fields[key := Int(high)] == map[key := Int(high)];
  }

  lemma ReadKey(fields: map<string, Json>, key: string)
    ensures Read(Obj(fields), [key]) == Get(fields, key)
  {
    assert [key][1..] == [];
    assert Read(Get(fields, key), []) == Get(fields, key);
  }

  /** A proposal for a nested setting raises when the base has a number where the section should be. */
  lemma NumberBlocksSection(round4: Rounding, section: string, key: string, low: int, high: int, i: int, j: int)
    ensures Merged(round4, [WholeNumber([section, key], low, high)], Obj(map[section := Obj(map[key := Int(i)])]),
                   Obj(map[section := Int(j)]), 1).None?
  {
    var path, config, base := [section, key], Obj(map[section := Obj(map[key := Int(i)])]), Obj(map[section := Int(j)]);
    OneSetting(round4, WholeNumber(path, low, high), config, base);
    assert path[1..] == [key];
    ReadKey(map[key := Int(i)], key);
    assert Read(config, path) == Int(i);
    assert Blocked(Child(base, section), [key]);
    WriteFailsExactlyWhen(base, path, Accepted(round4, WholeNumber(path, low, high), Int(i)).value);
  }
}
