/** What the steps of an upload come to, told without them: what a line of an `.env` file sets, which line
    decides, what the checks look at for every key, and which deployments they refuse. */
module EnvRules {
  import opened Optional
  import opened Text
  import opened EnvFile
  import opened EnvMerge
  import opened EnvUpload
  import opened EnvPrecedence

  // ---------------------------------------------------------------- one line

  /** A line sets its key whatever blank space stands before the key and on either side of the equals sign. */
  lemma LineSets(w: WordClass, a: string, k: string, b: string, v: string)
    requires ValidKey(w, k) && AllSpace(a) && AllSpace(b)
    ensures ParseLine(w, a + (k + b + "=" + v)) == Setting(k, Unquote(Strip(v)))
  {
    KeyShape(w, k);
    var key, line := k + b, k + b + "=" + v;
    assert key[0] == k[0] && line[0] == k[0];
    StripIndented(a, line);
    assert line == Assign(key, v);
    StripIsRStrip(line);
    StripAssign(key, v);
    forall i | 0 <= i < |key| ensures key[i] != '=' {
      assert i < |k| ==> key[i] == k[i];
      assert i >= |k| ==> key[i] == b[i - |k|] && IsSpace(b[i - |k|]);
    }
    EqConcat(key, RStrip(v));
    SplitAt(key, RStrip(v));
    StripSurrounded("", k, b);
    assert "" + k + b == key;
    StripOfRStrip(v);
    assert (key + "=" + RStrip(v))[0] == k[0];
  }

  /** One pair of equal quotes around a value comes off, and everything between them is the value. */
  lemma QuotesComeOff(w: WordClass, k: string, v: string)
    requires ValidKey(w, k)
    ensures ParseLine(w, k + "=" + "\"" + v + "\"") == Setting(k, v)
    ensures ParseLine(w, k + "=" + "'" + v + "'") == Setting(k, v)
  {
    QuoteComesOff(w, k, '"', v);
    QuoteComesOff(w, k, '\'', v);
  }

  lemma QuoteComesOff(w: WordClass, k: string, q: char, v: string)
    requires ValidKey(w, k) && (q == '"' || q == '\'')
    ensures ParseLine(w, k + "=" + [q] + v + [q]) == Setting(k, v)
  {
    var quoted := [q] + v + [q];
    QuotedIs(q, v);
    AssignReadsBack(w, k, quoted);
    Bracketed(k + "=", [q], v);
  }

  lemma QuotedIs(q: char, v: string)
    requires q == '"' || q == '\''
    ensures Read([q] + v + [q]) == v
  {
    var quoted := [q] + v + [q];
    StripOfTrimmed(quoted);
    assert quoted[1..|quoted| - 1] == v;
  }

  lemma Bracketed(a: string, q: string, v: string)
    ensures a + q + v + q == a + (q + v + q)
  {}

  /** No other value loses anything but the blank space around it. */
  lemma OtherValuesStay(w: WordClass, k: string, v: string)
    requires ValidKey(w, k)
    requires forall q: char, inner: string :: q in "'\"" ==> Strip(v) != [q] + inner + [q]
    ensures ParseLine(w, k + "=" + v) == Setting(k, Strip(v))
  {
    AssignReadsBack(w, k, v);
    if Quoted(Strip(v)) {
      QuotedHasInner(Strip(v));
    }
  }

  lemma QuotedHasInner(s: string)
    requires Quoted(s)
    ensures exists q: char, inner: string :: q in "'\"" && s == [q] + inner + [q]
  {
    var q, inner := s[0], s[1..|s| - 1];
    assert q in "'\"" && s == [q] + inner + [q];
  }

  /** A comment sets nothing, nor does a line without an equals sign. */
  lemma SetsNothing(w: WordClass, a: string, rest: string, raw: string)
    requires AllSpace(a) && '=' !in raw
    ensures ParseLine(w, a + ("#" + rest)) == NoSetting && ParseLine(w, raw) == NoSetting
  {
    var comment := "#" + rest;
    StripIndented(a, comment);
    StripIsRStrip(comment);
    assert RStrip(comment)[0] == '#';
    StripFacts(raw);
    NoEqualsSign(Strip(raw));
  }

  lemma NoEqualsSign(line: string)
    requires '=' !in line
    ensures Eq(line) == |line|
  {
    assert forall i :: 0 <= i < |line| ==> line[i] in line;
  }

  /** `key.replace("_", "")` */
  function WithoutUnderscores(key: string): string {
    if key == "" then ""
    else WithoutUnderscores(key[..|key| - 1]) + (if key[|key| - 1] == '_' then "" else [key[|key| - 1]])
  }

  lemma {:induction false} WithoutUnderscoresHas(key: string, c: char)
    ensures c in WithoutUnderscores(key) <==> c in key && c != '_'
  {
    if key != "" {
      WithoutUnderscoresHas(key[..|key| - 1], c);
      assert key == key[..|key| - 1] + [key[|key| - 1]];
    }
  }

  /** A key is valid exactly when something is left of it without its underscores and all of that is made of
      letters and digits. */
  lemma KeyIsValidExactlyWhen(w: WordClass, key: string)
    ensures ValidKey(w, key) <==>
      WithoutUnderscores(key) != "" && forall c :: c in WithoutUnderscores(key) ==> w(c)
  {
    var bare := WithoutUnderscores(key);
    forall c ensures c in bare <==> c in key && c != '_' {
      WithoutUnderscoresHas(key, c);
    }
    if bare != "" {
      assert bare[0] in key && bare[0] != '_';
    }
    if ValidKey(w, key) {
      var i :| 0 <= i < |key| && key[i] != '_';
      assert key[i] in bare;
    }
  }

  // ---------------------------------------------------------------- which line decides

  /** What each line says. */
  function Said(w: WordClass, lines: seq<string>): seq<Setting> {
    seq(|lines|, i requires 0 <= i < |lines| => ParseLine(w, lines[i]))
  }

  /** Line `i` sets `k` to `v`, and no later line sets `k`. */
  predicate SetsLast(said: seq<Setting>, i: nat, k: string, v: string) {
    i < |said| && said[i] == Setting(k, v) && forall j :: i < j < |said| ==> !SetsKey(said[j], k)
  }

  predicate SetsKey(s: Setting, k: string) { s.Setting? && s.key == k }

  /** The last line that sets a key decides its value, and only keys that some line sets have one. */
  lemma LastLineDecides(w: WordClass, content: string, k: string, v: string)
    ensures Look(Env(w, content), k) == Some(v) <==> exists i: nat :: SetsLast(Said(w, SplitLines(content)), i, k, v)
  {
    var lines := SplitLines(content);
    SaidMeans(w, lines);
    LastDecides(Said(w, lines), k, v);
    EnvOfLines(w, content, lines);
  }

  lemma EnvOfLines(w: WordClass, content: string, lines: seq<string>)
    requires lines == SplitLines(content)
    ensures Env(w, content) == ParseLines(w, lines)
  {}

  function ApplyAll(said: seq<Setting>): map<string, string> {
    if said == [] then map[] else Apply(ApplyAll(said[..|said| - 1]), said[|said| - 1])
  }

  lemma {:induction false} SaidMeans(w: WordClass, lines: seq<string>)
    ensures ParseLines(w, lines) == ApplyAll(Said(w, lines))
  {
    if lines != [] {
      var init := lines[..|lines| - 1];
      SaidMeans(w, init);
      assert Said(w, lines)[..|lines| - 1] == Said(w, init);
    }
  }

  lemma {:induction false} LastDecides(said: seq<Setting>, k: string, v: string)
    ensures Look(ApplyAll(said), k) == Some(v) <==> exists i: nat :: SetsLast(said, i, k, v)
  {
    if said != [] {
      var init, n := said[..|said| - 1], |said| - 1;
      LastDecides(init, k, v);
      if SetsKey(said[n], k) {
        assert said[n].value == v ==> SetsLast(said, n, k, v);
        forall i: nat | i < n ensures !SetsLast(said, i, k, v) {
          NotBefore(said, i, k, v);
        }
      } else {
        forall i: nat ensures SetsLast(said, i, k, v) <==> SetsLast(init, i, k, v) {
          EarlierSets(said, i, k, v);
        }
      }
    }
  }

  lemma NotBefore(said: seq<Setting>, i: nat, k: string, v: string)
    requires i < |said| - 1 && SetsKey(said[|said| - 1], k)
    ensures !SetsLast(said, i, k, v)
  {}

  lemma EarlierSets(said: seq<Setting>, i: nat, k: string, v: string)
    requires said != [] && !SetsKey(said[|said| - 1], k)
    ensures SetsLast(said, i, k, v) <==> SetsLast(said[..|said| - 1], i, k, v)
  {
    assert forall j :: 0 <= j < |said| - 1 ==> said[..|said| - 1][j] == said[j];
  }

  // ---------------------------------------------------------------- what the checks look at

  predicate SetAndNotBlank(environment: map<string, string>, k: string) {
    k in environment && exists c :: c in environment[k] && !IsSpace(c)
  }

  lemma NotBlank(environment: map<string, string>, k: string)
    ensures SetAndNotBlank(environment, k) <==> !Blank(environment, k)
  {
    if k in environment {
      StripFacts(environment[k]);
    }
  }

  /** Exactly the keys of the table that the environment sets to something that is not blank are overridden,
      each with that value. */
  lemma {:induction false} OverriddenExactlyWhen(keys: seq<string>, environment: map<string, string>, k: string)
    ensures Look(Overrides(keys, environment).values, k) ==
      if k in keys && SetAndNotBlank(environment, k) then Some(environment[k]) else None
  {
    if keys != [] {
      var init, last := keys[..|keys| - 1], keys[|keys| - 1];
      OverriddenExactlyWhen(init, environment, k);
      assert keys == init + [last];
      NotBlank(environment, last);
    }
  }

  /** What the remote file says of a key or, on a first deployment, what the configuration read from the
      environment says. */
  function FromBefore(w: WordClass, existing: Option<string>, fields: Dict, environment: map<string, string>, k: string)
    : Option<string>
  {
    if existing.Some? then Look(Env(w, existing.value), k)
    else if k !in fields.values then None
    else if k in environment then Some(environment[k])
    else Some(fields.values[k])
  }

  predicate SaysSomething(v: Option<string>) {
    v.Some? && exists c :: c in v.value && !IsSpace(c)
  }

  /** The value that the checks look at, for every key but the Neo4j parts: the target's host; or else what the
      environment sets for a key of the table; or else what was there before, if that is not blank; or else the
      default. */
  function CheckedValue(w: WordClass, existing: Option<string>, keys: seq<string>, fields: Dict,
                        environment: map<string, string>, defaults: Dict, names: Names, host: string, k: string)
    : Option<string>
  {
    var before := FromBefore(w, existing, fields, environment, k);
    if k == names.publicHost then Some(host)
    else if k in keys && SetAndNotBlank(environment, k) then Some(environment[k])
    else if k in defaults.values && !SaysSomething(before) then Some(defaults.values[k])
    else before
  }

  lemma ChecksLookAt(w: WordClass, existing: Option<string>, keys: seq<string>, fields: Dict,
                     environment: map<string, string>, defaults: Dict, names: Names, host: string, k: string)
    requires IsDict(fields) && IsDict(defaults) && DistinctNames(names) && k != names.user && k != names.password
    ensures Look(Plan(w, existing, keys, fields, environment, defaults, names, host).known, k) ==
      CheckedValue(w, existing, keys, fields, environment, defaults, names, host, k)
  {
    BeforeAuthLooks(w, existing, keys, fields, environment, defaults, names, host, k);
    var overrides, bootstrap := Overrides(keys, environment), LoadFields(fields, environment);
    LoadedIsDict(fields, environment);
    var s := BeforeAuth(w, existing, overrides, bootstrap, defaults, names, host);
    SplitAuthElsewhere(w, s, existing, overrides, names, k);
  }

  lemma BeforeAuthLooks(w: WordClass, existing: Option<string>, keys: seq<string>, fields: Dict,
                        environment: map<string, string>, defaults: Dict, names: Names, host: string, k: string)
    requires IsDict(fields) && IsDict(defaults) && IsDict(LoadFields(fields, environment))
    ensures var overrides, bootstrap := Overrides(keys, environment), LoadFields(fields, environment);
      Look(BeforeAuth(w, existing, overrides, bootstrap, defaults, names, host).known, k) ==
        CheckedValue(w, existing, keys, fields, environment, defaults, names, host, k)
  {
    var overrides, bootstrap := Overrides(keys, environment), LoadFields(fields, environment);
    var start := Start(w, existing, overrides, bootstrap);
    StartLooks(w, existing, keys, fields, environment, k);
    FillAll(start, defaults, k);
    BlankLook(start.known, k);
    HostIsSet(Fill(start, defaults, |defaults.order|), names.publicHost, host, k);
  }

  lemma HostIsSet(s: State, key: string, host: string, k: string)
    ensures Look(Set(s, key, host).known, k) == if k == key then Some(host) else Look(s.known, k)
  {}

  lemma BlankLook(m: map<string, string>, k: string)
    ensures Blank(m, k) <==> !SaysSomething(Look(m, k))
  {
    NotBlank(m, k);
  }

  lemma StartLooks(w: WordClass, existing: Option<string>, keys: seq<string>, fields: Dict,
                   environment: map<string, string>, k: string)
    requires IsDict(fields) && IsDict(LoadFields(fields, environment))
    ensures Look(Start(w, existing, Overrides(keys, environment), LoadFields(fields, environment)).known, k) ==
      if k in keys && SetAndNotBlank(environment, k) then Some(environment[k])
      else FromBefore(w, existing, fields, environment, k)
  {
    OverriddenExactlyWhen(keys, environment, k);
  }

  /** A composite value `user/password` is split at its first slash, and then the checks look at its parts. */
  lemma PartsAreKnown(w: WordClass, existing: Option<string>, keys: seq<string>, fields: Dict,
                      environment: map<string, string>, defaults: Dict, names: Names, host: string,
                      user: string, password: string)
    requires IsDict(fields) && IsDict(defaults) && DistinctNames(names) && '/' !in user
    requires CheckedValue(w, existing, keys, fields, environment, defaults, names, host, names.auth) ==
      Some(user + "/" + password)
    ensures var known := Plan(w, existing, keys, fields, environment, defaults, names, host).known;
      Look(known, names.user) == Some(user) && Look(known, names.password) == Some(password)
  {
    LoadedIsDict(fields, environment);
    BeforeAuthLooks(w, existing, keys, fields, environment, defaults, names, host, names.auth);
    var overrides, bootstrap := Overrides(keys, environment), LoadFields(fields, environment);
    var s := BeforeAuth(w, existing, overrides, bootstrap, defaults, names, host);
    var auth := user + "/" + password;
    assert Get(s.known, names.auth) == auth;
    SlashIs(user, password);
    SplitAuthParts(w, s, existing, overrides, names);
    assert auth[..|user|] == user && auth[|user| + 1..] == password;
  }

  lemma {:induction false} SlashIs(user: string, password: string)
    requires '/' !in user
    ensures Slash(user + "/" + password) == |user|
  {
    var auth := user + "/" + password;
    if user != "" {
      SlashIs(user[1..], password);
      assert auth[1..] == user[1..] + "/" + password && auth[0] == user[0] && user[0] in user;
    } else {
      assert auth[0] == '/';
    }
  }

  // ---------------------------------------------------------------- what is refused

  /** Some required key says nothing. */
  predicate LacksRequired(known: map<string, string>, required: seq<string>) {
    exists k :: k in required && !SaysSomething(Look(known, k))
  }

  predicate HasLineEnd(known: map<string, string>) {
    exists k :: k in known && ('\n' in known[k] || '\r' in known[k])
  }

  /** The checks in their order: a required key that says nothing; a checkpoint password with a character that
      is neither a letter or digit nor one of four; a value with a line end. Nothing else is refused. */
  lemma RefusedExactlyWhen(w: WordClass, s: State, existing: Option<string>, required: seq<string>, names: Names)
    ensures var r, password := Finish(w, s, existing, required, names), Get(s.known, names.checkpoint);
      var unsafe := exists c :: c in password && !w(c) && c !in "._~-";
      && (r.MissingKeys? <==> LacksRequired(s.known, required))
      && (r.NotUrlSafe? <==> !LacksRequired(s.known, required) && unsafe)
      && (r.ContainsNewline? <==> !LacksRequired(s.known, required) && !unsafe && HasLineEnd(s.known))
      && (r.Uploaded? <==> !LacksRequired(s.known, required) && !unsafe && !HasLineEnd(s.known))
  {
    NothingMissing(s.known, required);
    SafeIs(w, Get(s.known, names.checkpoint));
    NewlineIs(s.known);
    FinishesWith(w, s, existing, required, names);
  }

  lemma FinishesWith(w: WordClass, s: State, existing: Option<string>, required: seq<string>, names: Names)
    ensures var r, ends := Finish(w, s, existing, required, names), exists k :: k in s.known && HasNewline(s.known[k]);
      var safe := UrlSafe(w, Get(s.known, names.checkpoint));
      && (r.MissingKeys? <==> Missing(s.known, required) != [])
      && (r.NotUrlSafe? <==> Missing(s.known, required) == [] && !safe)
      && (r.ContainsNewline? <==> Missing(s.known, required) == [] && safe && ends)
      && (r.Uploaded? <==> Missing(s.known, required) == [] && safe && !ends)
  {}

  lemma NothingMissing(known: map<string, string>, required: seq<string>)
    ensures Missing(known, required) != [] <==> LacksRequired(known, required)
  {
    var missing := Missing(known, required);
    if missing != [] {
      MissingIs(known, required, missing[0]);
      BlankLook(known, missing[0]);
    }
    if k :| k in required && !SaysSomething(Look(known, k)) {
      BlankLook(known, k);
      MissingIs(known, required, k);
    }
  }

  lemma SafeIs(w: WordClass, password: string)
    ensures !UrlSafe(w, password) <==> exists c :: c in password && !w(c) && c !in "._~-"
  {
    if !UrlSafe(w, password) {
      var i :| 0 <= i < |password| && !(w(password[i]) || password[i] in "._~-");
      assert password[i] in password;
    }
  }

  lemma NewlineIs(known: map<string, string>)
    ensures (exists k :: k in known && HasNewline(known[k])) <==> HasLineEnd(known)
  {
    if k :| k in known && HasNewline(known[k]) {
      var i :| 0 <= i < |known[k]| && (known[k][i] == '\r' || known[k][i] == '\n');
      assert known[k][i] in known[k];
    }
    if k :| k in known && ('\n' in known[k] || '\r' in known[k]) {
      assert HasNewline(known[k]);
    }
  }
}
