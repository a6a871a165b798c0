/** How a deployment uploads the remote `.env`: explicit overrides, then what the remote file says, then
    defaults, three checks, and the merged file. The tables of key names, the fallback values and the
    process environment are parameters. */
module EnvUpload {
  import opened Optional
  import opened Text
  import opened EnvFile

  /** A Python dictionary: a map and the order in which its keys were first set. */
  datatype Dict = Dict(order: seq<string>, values: map<string, string>)

  ghost predicate IsDict(d: Dict) { Lists(d.order, d.values) }

  function Put(d: Dict, k: string, v: string): Dict {
    Dict(if k in d.values then d.order else d.order + [k], d.values[k := v])
  }

  function PutAll(d: Dict, e: Dict, n: nat): Dict
    requires n <= |e.order| && forall k :: k in e.order ==> k in e.values
  {
    if n == 0 then d else Put(PutAll(d, e, n - 1), e.order[n - 1], e.values[e.order[n - 1]])
  }

  /** The first `n` entries of a dictionary. */
  function Entries(e: Dict, n: nat): map<string, string>
    requires n <= |e.order| && forall k :: k in e.order ==> k in e.values
  {
    if n == 0 then map[] else Entries(e, n - 1)[e.order[n - 1] := e.values[e.order[n - 1]]]
  }

  lemma {:induction false} EntriesAre(e: Dict, n: nat)
    requires IsDict(e) && n <= |e.order|
    ensures forall k :: k in Entries(e, n) ==> k in e.values && Entries(e, n)[k] == e.values[k]
    ensures forall i :: 0 <= i < n ==> e.order[i] in Entries(e, n)
  {
    if n > 0 {
      EntriesAre(e, n - 1);
    }
  }

  lemma AllEntries(e: Dict)
    requires IsDict(e)
    ensures Entries(e, |e.order|) == e.values
  {
    EntriesAre(e, |e.order|);
    forall k | k in e.values ensures k in Entries(e, |e.order|) {
      var i :| 0 <= i < |e.order| && e.order[i] == k;
    }
  }

  lemma PutIsDict(d: Dict, k: string, v: string)
    requires IsDict(d)
    ensures IsDict(Put(d, k, v))
  {}

  lemma {:induction false} PutAllIsDict(d: Dict, e: Dict, n: nat)
    requires IsDict(d) && IsDict(e) && n <= |e.order|
    ensures IsDict(PutAll(d, e, n))
    ensures PutAll(d, e, n).values == d.values + Entries(e, n)
  {
    if n > 0 {
      PutAllIsDict(d, e, n - 1);
      PutIsDict(PutAll(d, e, n - 1), e.order[n - 1], e.values[e.order[n - 1]]);
      SetAfterAdd(d.values, Entries(e, n - 1), e.order[n - 1], e.values[e.order[n - 1]]);
    } else {
      assert d.values + map[] == d.values;
    }
  }

  lemma SetAfterAdd(a: map<string, string>, b: map<string, string>, k: string, v: string)
    ensures (a + b)[k := v] == a + b[k := v]
  {}

  predicate Blank(m: map<string, string>, k: string) {
    k !in m || Strip(m[k]) == ""
  }

  function Get(m: map<string, string>, k: string): string {
    if k in m then m[k] else ""
  }

  // ---------------------------------------------------------------- the steps

  /** The names of the settings that the script treats specially. */
  datatype Names = Names(publicHost: string, auth: string, user: string, password: string, checkpoint: string)

  predicate DistinctNames(n: Names) {
    && n.publicHost != n.auth && n.publicHost != n.user && n.publicHost != n.password
    && n.auth != n.user && n.auth != n.password && n.user != n.password
  }

  /** The overrides: keys of the table that the environment sets to something that is not blank. */
  function Overrides(keys: seq<string>, environment: map<string, string>): Dict {
    if keys == [] then Dict([], map[])
    else
      var d, k := Overrides(keys[..|keys| - 1], environment), keys[|keys| - 1];
      if Blank(environment, k) then d else Put(d, k, environment[k])
  }

  lemma {:induction false} OverridesAre(keys: seq<string>, environment: map<string, string>)
    ensures IsDict(Overrides(keys, environment))
    ensures forall k :: k in Overrides(keys, environment).values ==>
      k in keys && !Blank(environment, k) && Overrides(keys, environment).values[k] == environment[k]
  {
    if keys != [] {
      OverridesAre(keys[..|keys| - 1], environment);
    }
  }

  /** `load_config`: every field is what the environment says, or else its fallback, which is empty for a
      field without one. */
  function LoadFields(fields: Dict, environment: map<string, string>): Dict {
    Dict(fields.order, map k | k in fields.values :: if k in environment then environment[k] else fields.values[k])
  }

  lemma LoadedIsDict(fields: Dict, environment: map<string, string>)
    requires IsDict(fields)
    ensures IsDict(LoadFields(fields, environment))
  {}

  /** The settings known so far, and those to be written. */
  datatype State = State(known: map<string, string>, writes: Dict)

  function Set(s: State, k: string, v: string): State {
    State(s.known[k := v], Put(s.writes, k, v))
  }

  /** `existing or ""` */
  function Content(existing: Option<string>): string {
    if existing.None? then "" else existing.value
  }

  function Start(w: WordClass, existing: Option<string>, overrides: Dict, bootstrap: Dict): State
    requires IsDict(bootstrap)
  {
    if existing.None? then State(bootstrap.values + overrides.values, PutAll(overrides, bootstrap, |bootstrap.order|))
    else State(Env(w, existing.value) + overrides.values, overrides)
  }

  /** The loop over the defaults: every blank setting gets its default. */
  function Fill(s: State, defaults: Dict, n: nat): State
    requires IsDict(defaults) && n <= |defaults.order|
  {
    if n == 0 then s
    else
      var before, k := Fill(s, defaults, n - 1), defaults.order[n - 1];
      if Blank(before.known, k) then Set(before, k, defaults.values[k]) else before
  }

  /** The position of the first slash, or the length. */
  function Slash(s: string): (n: nat)
    ensures n <= |s|
  {
    if s == "" || s[0] == '/' then 0 else 1 + Slash(s[1..])
  }

  /** Whether the parts of a composite setting must be written. */
  predicate MustWrite(w: WordClass, existing: Option<string>, overrides: Dict, names: Names, k: string) {
    existing.None? || names.auth in overrides.values || Get(Env(w, existing.value), k) == ""
  }

  /** The user and the password are taken from `user/password`. */
  function SplitAuth(w: WordClass, s: State, existing: Option<string>, overrides: Dict, names: Names): State {
    var auth := Get(s.known, names.auth);
    var e := Slash(auth);
    if e == |auth| then s
    else
      PutParts(s, names.user, auth[..e], MustWrite(w, existing, overrides, names, names.user),
               names.password, auth[e + 1..], MustWrite(w, existing, overrides, names, names.password))
  }

  /** Both parts become known; each is written if it must be. */
  function PutParts(s: State, userKey: string, user: string, writeUser: bool,
                    passwordKey: string, password: string, writePassword: bool): State
  {
    var one := if writeUser then Put(s.writes, userKey, user) else s.writes;
    State(s.known[userKey := user][passwordKey := password],
          if writePassword then Put(one, passwordKey, password) else one)
  }

  function Planned(w: WordClass, existing: Option<string>, overrides: Dict, bootstrap: Dict, defaults: Dict,
                   names: Names, host: string): State
    requires IsDict(bootstrap) && IsDict(defaults)
  {
    var filled := Fill(Start(w, existing, overrides, bootstrap), defaults, |defaults.order|);
    SplitAuth(w, Set(filled, names.publicHost, host), existing, overrides, names)
  }

  predicate HasNewline(v: string) {
    exists i :: 0 <= i < |v| && (v[i] == '\r' || v[i] == '\n')
  }

  predicate UrlSafe(w: WordClass, v: string) {
    forall i :: 0 <= i < |v| ==> w(v[i]) || v[i] == '.' || v[i] == '_' || v[i] == '~' || v[i] == '-'
  }

  datatype Upload = MissingKeys(keys: seq<string>) | NotUrlSafe | ContainsNewline | Uploaded(text: string)

  function Missing(known: map<string, string>, required: seq<string>): seq<string> {
    if required == [] then []
    else
      Missing(known, required[..|required| - 1]) +
      (if Blank(known, required[|required| - 1]) then [required[|required| - 1]] else [])
  }

  lemma {:induction false} MissingIs(known: map<string, string>, required: seq<string>, k: string)
    ensures k in Missing(known, required) <==> k in required && Blank(known, k)
  {
    if required != [] {
      MissingIs(known, required[..|required| - 1], k);
      assert required == required[..|required| - 1] + [required[|required| - 1]];
    }
  }

  /** The checks, in their order, and the file to upload. */
  function Finish(w: WordClass, s: State, existing: Option<string>, required: seq<string>, names: Names): Upload {
    if Missing(s.known, required) != [] then MissingKeys(Missing(s.known, required))
    else if !UrlSafe(w, Get(s.known, names.checkpoint)) then NotUrlSafe
    else if exists k :: k in s.known && HasNewline(s.known[k]) then ContainsNewline
    else Uploaded(Merged(Content(existing), s.writes.order, s.writes.values))
  }

  method ApplyDefaults(s: State, defaults: Dict) returns (t: State)
    requires IsDict(defaults)
    ensures t == Fill(s, defaults, |defaults.order|)
  {
    var known, writes := s.known, s.writes;
    for i := 0 to |defaults.order|
      invariant State(known, writes) == Fill(s, defaults, i)
    {
      var key := defaults.order[i];
      if Blank(known, key) {
        known := known[key := defaults.values[key]];
        writes := Put(writes, key, defaults.values[key]);
      }
    }
    t := State(known, writes);
  }

  method WriteAuth(w: WordClass, s: State, existing: Option<string>, overrides: Dict, names: Names) returns (t: State)
    ensures t == SplitAuth(w, s, existing, overrides, names)
  {
    var auth := Get(s.known, names.auth);
    var e := Slash(auth);
    if e == |auth| {
      return s;
    }
    var user, password := auth[..e], auth[e + 1..];
    var known := s.known[names.user := user][names.password := password];
    var one, two := s.writes, s.writes;
    if MustWrite(w, existing, overrides, names, names.user) {
      one := Put(s.writes, names.user, user);
    }
    two := one;
    if MustWrite(w, existing, overrides, names, names.password) {
      two := Put(one, names.password, password);
    }
    t := State(known, two);
    assert t == PutParts(s, names.user, user, MustWrite(w, existing, overrides, names, names.user),
                         names.password, password, MustWrite(w, existing, overrides, names, names.password));
  }

  method FindMissing(known: map<string, string>, required: seq<string>) returns (missing: seq<string>)
    ensures missing == Missing(known, required)
  {
    missing := [];
    for i := 0 to |required|
      invariant missing == Missing(known, required[..i])
    {
      assert required[..i + 1][..i] == required[..i];
      if Blank(known, required[i]) {
        missing := missing + [required[i]];
      }
    }
    assert required[..|required|] == required;
  }

  method Check(w: WordClass, s: State, existing: Option<string>, required: seq<string>, names: Names)
    returns (r: Upload)
    requires IsDict(s.writes)
    ensures r == Finish(w, s, existing, required, names)
  {
    var missing := FindMissing(s.known, required);
    if missing != [] {
      return MissingKeys(missing);
    }
    if !UrlSafe(w, Get(s.known, names.checkpoint)) {
      return NotUrlSafe;
    }
    if exists k :: k in s.known && HasNewline(s.known[k]) {
      return ContainsNewline;
    }
    var text := MergeEnvText(Content(existing), s.writes.order, s.writes.values);
    r := Uploaded(text);
  }

  method Begin(w: WordClass, existing: Option<string>, overrides: Dict, bootstrap: Dict) returns (s: State)
    requires IsDict(bootstrap)
    ensures s == Start(w, existing, overrides, bootstrap)
  {
    var known := ParseEnvText(w, Content(existing));
    var writes := overrides;
    if existing.None? {
      EmptyEnv(w);
      known := known + bootstrap.values;
      assert known == bootstrap.values;
      writes := PutAll(writes, bootstrap, |bootstrap.order|);
    }
    known := known + overrides.values;
    s := State(known, writes);
  }

  /** What is known and what is to be written, for a remote file and a process environment. */
  function Plan(w: WordClass, existing: Option<string>, keys: seq<string>, fields: Dict,
                environment: map<string, string>, defaults: Dict, names: Names, host: string): State
    requires IsDict(fields) && IsDict(defaults)
  {
    LoadedIsDict(fields, environment);
    Planned(w, existing, Overrides(keys, environment), LoadFields(fields, environment), defaults, names, host)
  }

  /** `upload_env`, with the configuration that `load_config` reads from the same environment. */
  method UploadEnv(w: WordClass, existing: Option<string>, keys: seq<string>, fields: Dict,
                   environment: map<string, string>, defaults: Dict, required: seq<string>, names: Names, host: string)
    returns (r: Upload)
    requires IsDict(fields) && IsDict(defaults)
    ensures r ==
      Finish(w, Plan(w, existing, keys, fields, environment, defaults, names, host), existing, required, names)
  {
    LoadedIsDict(fields, environment);
    var overrides, bootstrap := Overrides(keys, environment), LoadFields(fields, environment);
    OverridesAre(keys, environment);
    PlannedLists(w, existing, overrides, bootstrap, defaults, names, host);
    var s := Begin(w, existing, overrides, bootstrap);
    s := ApplyDefaults(s, defaults);
    s := Set(s, names.publicHost, host);
    s := WriteAuth(w, s, existing, overrides, names);
    r := Check(w, s, existing, required, names);
  }

  lemma EmptyEnv(w: WordClass)
    ensures Env(w, "") == map[]
  {}

  lemma {:induction false} FillLists(s: State, defaults: Dict, n: nat)
    requires IsDict(defaults) && n <= |defaults.order| && IsDict(s.writes)
    ensures IsDict(Fill(s, defaults, n).writes)
  {
    if n > 0 {
      FillLists(s, defaults, n - 1);
      PutIsDict(Fill(s, defaults, n - 1).writes, defaults.order[n - 1], defaults.values[defaults.order[n - 1]]);
    }
  }

  lemma PlannedLists(w: WordClass, existing: Option<string>, overrides: Dict, bootstrap: Dict, defaults: Dict,
                     names: Names, host: string)
    requires IsDict(overrides) && IsDict(bootstrap) && IsDict(defaults)
    ensures IsDict(Planned(w, existing, overrides, bootstrap, defaults, names, host).writes)
  {
    PutAllIsDict(overrides, bootstrap, |bootstrap.order|);
    var start := Start(w, existing, overrides, bootstrap);
    FillLists(start, defaults, |defaults.order|);
    var filled := Fill(start, defaults, |defaults.order|);
    PutIsDict(filled.writes, names.publicHost, host);
    SplitAuthLists(w, Set(filled, names.publicHost, host), existing, overrides, names);
  }

  lemma SplitAuthLists(w: WordClass, s: State, existing: Option<string>, overrides: Dict, names: Names)
    requires IsDict(s.writes)
    ensures IsDict(SplitAuth(w, s, existing, overrides, names).writes)
  {
    var auth := Get(s.known, names.auth);
    var e := Slash(auth);
    if e < |auth| {
      PutIsDict(s.writes, names.user, auth[..e]);
      PutIsDict(s.writes, names.password, auth[e + 1..]);
      PutIsDict(Put(s.writes, names.user, auth[..e]), names.password, auth[e + 1..]);
    }
  }
}
