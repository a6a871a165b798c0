/** Which settings a deployment writes to the remote `.env`, what it leaves alone, and that the file it
    uploads means what it checked. */
module EnvPrecedence {
  import opened Optional
  import opened Text
  import opened EnvFile
  import opened EnvMerge
  import opened EnvUpload

  // ---------------------------------------------------------------- which keys are written

  function Look(m: map<string, string>, k: string): Option<string> {
    if k in m then Some(m[k]) else None
  }

  /** A key gets its default exactly when it was blank before the loop. */
  lemma {:induction false} FillAt(s: State, defaults: Dict, n: nat, k: string)
    requires IsDict(defaults) && n <= |defaults.order|
    ensures var t, hit := Fill(s, defaults, n), k in defaults.order[..n] && Blank(s.known, k);
      && Look(t.known, k) == (if hit then Some(defaults.values[k]) else Look(s.known, k))
      && Look(t.writes.values, k) == (if hit then Some(defaults.values[k]) else Look(s.writes.values, k))
  {
    if n > 0 {
      FillAt(s, defaults, n - 1, k);
      PrefixKey(defaults, n, k);
      FillStep(s, defaults, n, k);
    }
  }

  lemma PrefixKey(d: Dict, n: nat, k: string)
    requires IsDict(d) && 0 < n <= |d.order|
    ensures k in d.order[..n] <==> k in d.order[..n - 1] || k == d.order[n - 1]
    ensures d.order[n - 1] !in d.order[..n - 1]
  {
    assert d.order[..n] == d.order[..n - 1] + [d.order[n - 1]];
  }

  /** What one round of the loop does to any key. */
  lemma FillStep(s: State, defaults: Dict, n: nat, k: string)
    requires IsDict(defaults) && 0 < n <= |defaults.order|
    ensures var before, t, key := Fill(s, defaults, n - 1), Fill(s, defaults, n), defaults.order[n - 1];
      var hit := k == key && Blank(before.known, key);
      && Look(t.known, k) == (if hit then Some(defaults.values[k]) else Look(before.known, k))
      && Look(t.writes.values, k) == (if hit then Some(defaults.values[k]) else Look(before.writes.values, k))
  {}

  lemma FillAll(s: State, defaults: Dict, k: string)
    requires IsDict(defaults)
    ensures var t, hit := Fill(s, defaults, |defaults.order|), k in defaults.values && Blank(s.known, k);
      && Look(t.known, k) == (if hit then Some(defaults.values[k]) else Look(s.known, k))
      && Look(t.writes.values, k) == (if hit then Some(defaults.values[k]) else Look(s.writes.values, k))
  {
    FillAt(s, defaults, |defaults.order|, k);
    assert defaults.order[..|defaults.order|] == defaults.order;
  }

  /** Splitting the composite setting touches the user and the password only. */
  lemma SplitAuthElsewhere(w: WordClass, s: State, existing: Option<string>, overrides: Dict, names: Names, k: string)
    requires k != names.user && k != names.password
    ensures var t := SplitAuth(w, s, existing, overrides, names);
      Look(t.known, k) == Look(s.known, k) && Look(t.writes.values, k) == Look(s.writes.values, k)
  {}

  lemma SplitAuthParts(w: WordClass, s: State, existing: Option<string>, overrides: Dict, names: Names)
    requires names.user != names.password && Slash(Get(s.known, names.auth)) < |Get(s.known, names.auth)|
    ensures var t, auth := SplitAuth(w, s, existing, overrides, names), Get(s.known, names.auth);
      var user, password := auth[..Slash(auth)], auth[Slash(auth) + 1..];
      && Look(t.known, names.user) == Some(user) && Look(t.known, names.password) == Some(password)
      && Look(t.writes.values, names.user) ==
         (if MustWrite(w, existing, overrides, names, names.user) then Some(user)
           else Look(s.writes.values, names.user))
      && Look(t.writes.values, names.password) ==
         (if MustWrite(w, existing, overrides, names, names.password) then Some(password)
           else Look(s.writes.values, names.password))
  {
    var auth := Get(s.known, names.auth);
    SplitIs(w, s, existing, overrides, names);
    PartsAt(s, names.user, auth[..Slash(auth)], MustWrite(w, existing, overrides, names, names.user),
            names.password, auth[Slash(auth) + 1..], MustWrite(w, existing, overrides, names, names.password));
  }

  lemma SplitIs(w: WordClass, s: State, existing: Option<string>, overrides: Dict, names: Names)
    requires Slash(Get(s.known, names.auth)) < |Get(s.known, names.auth)|
    ensures var auth := Get(s.known, names.auth);
      SplitAuth(w, s, existing, overrides, names) ==
        PutParts(s, names.user, auth[..Slash(auth)], MustWrite(w, existing, overrides, names, names.user),
                 names.password, auth[Slash(auth) + 1..], MustWrite(w, existing, overrides, names, names.password))
  {}

  lemma PartsAt(s: State, userKey: string, user: string, writeUser: bool, passwordKey: string, password: string,
                writePassword: bool)
    requires userKey != passwordKey
    ensures var t := PutParts(s, userKey, user, writeUser, passwordKey, password, writePassword);
      && Look(t.known, userKey) == Some(user) && Look(t.known, passwordKey) == Some(password)
      && Look(t.writes.values, userKey) == (if writeUser then Some(user) else Look(s.writes.values, userKey))
      && Look(t.writes.values, passwordKey) ==
        (if writePassword then Some(password) else Look(s.writes.values, passwordKey))
  {
    var one := if writeUser then Put(s.writes, userKey, user) else s.writes;
    LookPut(s.writes, userKey, user, userKey);
    LookPut(s.writes, userKey, user, passwordKey);
    LookPut(one, passwordKey, password, userKey);
    LookPut(one, passwordKey, password, passwordKey);
  }

  lemma LookPut(d: Dict, k: string, v: string, j: string)
    ensures Look(Put(d, k, v).values, j) == if j == k then Some(v) else Look(d.values, j)
  {}

  predicate HasSlash(auth: string) { Slash(auth) < |auth| }

  /** The user or the password in `user/password`. */
  function PartOf(auth: string, names: Names, k: string): string {
    if !HasSlash(auth) then "" else if k == names.user then auth[..Slash(auth)] else auth[Slash(auth) + 1..]
  }

  /** What becomes of any key when the composite setting is split. */
  lemma SplitAuthAt(w: WordClass, s: State, existing: Option<string>, overrides: Dict, names: Names, k: string)
    requires DistinctNames(names)
    ensures var t, auth := SplitAuth(w, s, existing, overrides, names), Get(s.known, names.auth);
      && (k != names.user && k != names.password ==>
            Look(t.known, k) == Look(s.known, k) && Look(t.writes.values, k) == Look(s.writes.values, k))
      && (k == names.user || k == names.password ==>
            if HasSlash(auth) then
              && Look(t.known, k) == Some(PartOf(auth, names, k))
              && Look(t.writes.values, k) ==
                 (if MustWrite(w, existing, overrides, names, k) then Some(PartOf(auth, names, k))
                   else Look(s.writes.values, k))
            else t == s)
  {
    if k != names.user && k != names.password {
      SplitAuthElsewhere(w, s, existing, overrides, names, k);
    } else if HasSlash(Get(s.known, names.auth)) {
      SplitAuthParts(w, s, existing, overrides, names);
    }
  }

  /** What is known of a key before the user and the password are split off. */
  function KnownValue(remote: map<string, string>, overrides: Dict, defaults: Dict, names: Names, host: string,
                      k: string): Option<string>
  {
    if k == names.publicHost then Some(host)
    else if k in overrides.values then Some(overrides.values[k])
    else if k in defaults.values && Blank(remote, k) then Some(defaults.values[k])
    else Look(remote, k)
  }

  /** What is written for a key before the user and the password are split off. */
  function WrittenValue(remote: map<string, string>, overrides: Dict, defaults: Dict, names: Names, host: string,
                        k: string): Option<string>
  {
    if k == names.publicHost || k in overrides.values || (k in defaults.values && Blank(remote, k))
    then KnownValue(remote, overrides, defaults, names, host, k)
    else None
  }

  ghost predicate NoBlank(d: Dict) {
    forall k :: k in d.values ==> !Blank(d.values, k)
  }

  lemma OverridesNotBlank(keys: seq<string>, environment: map<string, string>)
    ensures NoBlank(Overrides(keys, environment)) && IsDict(Overrides(keys, environment))
  {
    OverridesAre(keys, environment);
  }

  function BeforeAuth(w: WordClass, existing: Option<string>, overrides: Dict, bootstrap: Dict, defaults: Dict,
                      names: Names, host: string): State
    requires IsDict(bootstrap) && IsDict(defaults)
  {
    Set(Fill(Start(w, existing, overrides, bootstrap), defaults, |defaults.order|), names.publicHost, host)
  }

  lemma BeforeAuthAt(w: WordClass, content: string, overrides: Dict, bootstrap: Dict, defaults: Dict, names: Names,
                     host: string, k: string)
    requires IsDict(bootstrap) && IsDict(defaults) && NoBlank(overrides)
    ensures var s, remote := BeforeAuth(w, Some(content), overrides, bootstrap, defaults, names, host), Env(w, content);
      && Look(s.known, k) == KnownValue(remote, overrides, defaults, names, host, k)
      && Look(s.writes.values, k) == WrittenValue(remote, overrides, defaults, names, host, k)
  {
    var start := Start(w, Some(content), overrides, bootstrap);
    FillAll(start, defaults, k);
    assert k in overrides.values ==> start.known[k] == overrides.values[k];
  }

  /** The slash of the composite setting, if it is known and has one. */
  predicate HasParts(s: State, names: Names) {
    Slash(Get(s.known, names.auth)) < |Get(s.known, names.auth)|
  }

  /** For an existing remote file, exactly these keys are written: the target's host, the overrides, the
      defaults of blank settings, and the user or password when the composite setting has both parts and
      is overridden or the remote one is empty. */
  lemma WritesExactly(w: WordClass, content: string, overrides: Dict, bootstrap: Dict, defaults: Dict, names: Names,
                      host: string, k: string)
    requires IsDict(bootstrap) && IsDict(defaults) && NoBlank(overrides) && DistinctNames(names)
    ensures var remote := Env(w, content);
      var before := BeforeAuth(w, Some(content), overrides, bootstrap, defaults, names, host);
      k in Planned(w, Some(content), overrides, bootstrap, defaults, names, host).writes.values <==>
        || k == names.publicHost || k in overrides.values
        || (k in defaults.values && Blank(remote, k))
        || ((k == names.user || k == names.password) && HasParts(before, names) &&
            (names.auth in overrides.values || Get(remote, k) == ""))
  {
    var before := BeforeAuth(w, Some(content), overrides, bootstrap, defaults, names, host);
    BeforeAuthAt(w, content, overrides, bootstrap, defaults, names, host, k);
    SplitAuthAt(w, before, Some(content), overrides, names, k);
  }

  /** A remote value that is not blank and not overridden is left alone, except for the target's host and
      for the user and password of an overridden composite setting. */
  lemma KeepsRemoteValues(w: WordClass, content: string, overrides: Dict, bootstrap: Dict, defaults: Dict, names: Names,
                          host: string, k: string)
    requires IsDict(overrides) && IsDict(bootstrap) && IsDict(defaults) && NoBlank(overrides) && DistinctNames(names)
    requires !Blank(Env(w, content), k) && k !in overrides.values && k != names.publicHost
    requires k == names.user || k == names.password ==> names.auth !in overrides.values
    ensures var writes := Planned(w, Some(content), overrides, bootstrap, defaults, names, host).writes;
      && k !in writes.values
      && (ValidKeys(w, writes.values) && NoBreakValues(writes.values) ==>
            Look(Env(w, Merged(content, writes.order, writes.values)), k) == Look(Env(w, content), k))
  {
    WritesExactly(w, content, overrides, bootstrap, defaults, names, host, k);
    assert Strip("") == "";
    var writes := Planned(w, Some(content), overrides, bootstrap, defaults, names, host).writes;
    PlannedLists(w, Some(content), overrides, bootstrap, defaults, names, host);
    if ValidKeys(w, writes.values) && NoBreakValues(writes.values) {
      MergedMeans(w, content, writes.order, writes.values);
    }
  }

  // ---------------------------------------------------------------- what is checked is what is written

  /** For an existing remote file, every written value is the one that the checks looked at. */
  lemma WrittenIsKnown(w: WordClass, content: string, overrides: Dict, bootstrap: Dict, defaults: Dict, names: Names,
                       host: string, k: string)
    requires IsDict(bootstrap) && IsDict(defaults) && NoBlank(overrides) && DistinctNames(names)
    ensures var plan := Planned(w, Some(content), overrides, bootstrap, defaults, names, host);
      && (k in plan.writes.values && k != names.user && k != names.password ==>
        Look(plan.writes.values, k) == Look(plan.known, k))
      && (k !in plan.writes.values && k != names.user && k != names.password ==>
        Look(plan.known, k) == Look(Env(w, content), k))
  {
    var before := BeforeAuth(w, Some(content), overrides, bootstrap, defaults, names, host);
    BeforeAuthAt(w, content, overrides, bootstrap, defaults, names, host, k);
    SplitAuthAt(w, before, Some(content), overrides, names, k);
  }

  ghost predicate AllFaithful(u: map<string, string>) {
    forall k :: k in u ==> Faithful(u[k])
  }

  /** When every written value is one that a line can carry, the uploaded file means what was checked,
      for every key but the user and the password. */
  lemma CheckedIsUploaded(w: WordClass, content: string, overrides: Dict, bootstrap: Dict, defaults: Dict, names: Names,
                          host: string, k: string)
    requires IsDict(overrides) && IsDict(bootstrap) && IsDict(defaults) && NoBlank(overrides) && DistinctNames(names)
    requires k != names.user && k != names.password
    ensures var plan := Planned(w, Some(content), overrides, bootstrap, defaults, names, host);
      ValidKeys(w, plan.writes.values) && AllFaithful(plan.writes.values) ==>
        Look(Env(w, Merged(content, plan.writes.order, plan.writes.values)), k) == Look(plan.known, k)
  {
    var plan := Planned(w, Some(content), overrides, bootstrap, defaults, names, host);
    PlannedLists(w, Some(content), overrides, bootstrap, defaults, names, host);
    WrittenIsKnown(w, content, overrides, bootstrap, defaults, names, host, k);
    if ValidKeys(w, plan.writes.values) && AllFaithful(plan.writes.values) {
      MergeOverridesExactlyWhen(w, content, plan.writes.order, plan.writes.values);
    }
  }

  // ---------------------------------------------------------------- the first deployment

  /** Overrides and bootstrap values agree on the keys that they share. */
  ghost predicate Agree(overrides: Dict, bootstrap: Dict) {
    forall k :: k in overrides.values && k in bootstrap.values ==> overrides.values[k] == bootstrap.values[k]
  }

  /** They do, because both are read from the same environment. */
  lemma EnvironmentAgrees(keys: seq<string>, fields: Dict, environment: map<string, string>)
    ensures Agree(Overrides(keys, environment), LoadFields(fields, environment))
  {
    OverridesAre(keys, environment);
  }

  lemma StartAgrees(w: WordClass, overrides: Dict, bootstrap: Dict)
    requires IsDict(overrides) && IsDict(bootstrap) && Agree(overrides, bootstrap)
    ensures var s := Start(w, None, overrides, bootstrap); s.known == s.writes.values
  {
    PutAllIsDict(overrides, bootstrap, |bootstrap.order|);
    AllEntries(bootstrap);
    assert overrides.values + bootstrap.values == bootstrap.values + overrides.values;
  }

  /** On a first deployment every key is written with the value that the checks look at, and nothing else
      is known: the two are the same map. */
  lemma FirstDeploymentWritesAll(w: WordClass, overrides: Dict, bootstrap: Dict, defaults: Dict, names: Names,
                                 host: string)
    requires IsDict(overrides) && IsDict(bootstrap) && IsDict(defaults) && DistinctNames(names)
      && Agree(overrides, bootstrap)
    ensures var plan := Planned(w, None, overrides, bootstrap, defaults, names, host); plan.known == plan.writes.values
  {
    var plan := Planned(w, None, overrides, bootstrap, defaults, names, host);
    forall k ensures Look(plan.known, k) == Look(plan.writes.values, k) {
      FirstDeploymentAt(w, overrides, bootstrap, defaults, names, host, k);
    }
    SameLooks(plan.known, plan.writes.values);
  }

  lemma SameLooks(a: map<string, string>, b: map<string, string>)
    requires forall k :: Look(a, k) == Look(b, k)
    ensures a == b
  {
    forall k ensures k in a <==> k in b {
      assert Look(a, k) == Look(b, k);
    }
    forall k | k in a ensures a[k] == b[k] {
      assert Look(a, k) == Look(b, k);
    }
  }

  lemma FirstDeploymentAt(w: WordClass, overrides: Dict, bootstrap: Dict, defaults: Dict, names: Names, host: string,
                          k: string)
    requires IsDict(overrides) && IsDict(bootstrap) && IsDict(defaults) && DistinctNames(names)
      && Agree(overrides, bootstrap)
    ensures var plan := Planned(w, None, overrides, bootstrap, defaults, names, host);
      Look(plan.known, k) == Look(plan.writes.values, k)
  {
    var before := BeforeAuth(w, None, overrides, bootstrap, defaults, names, host);
    StartAgrees(w, overrides, bootstrap);
    FillAll(Start(w, None, overrides, bootstrap), defaults, k);
    SplitAuthAt(w, before, None, overrides, names, k);
  }

  /** So the first file means exactly what was checked, Neo4j parts included, if and only if every value is
      one that a line can carry. */
  lemma FirstUploadReadsBackExactlyWhen(w: WordClass, overrides: Dict, bootstrap: Dict, defaults: Dict, names: Names,
                                        host: string)
    requires IsDict(overrides) && IsDict(bootstrap) && IsDict(defaults) && DistinctNames(names)
      && Agree(overrides, bootstrap)
    ensures var plan := Planned(w, None, overrides, bootstrap, defaults, names, host);
      ValidKeys(w, plan.writes.values) ==>
        (Env(w, Merged("", plan.writes.order, plan.writes.values)) == plan.known <==> AllFaithful(plan.writes.values))
  {
    var plan := Planned(w, None, overrides, bootstrap, defaults, names, host);
    PlannedLists(w, None, overrides, bootstrap, defaults, names, host);
    FirstDeploymentWritesAll(w, overrides, bootstrap, defaults, names, host);
    if ValidKeys(w, plan.writes.values) {
      FirstFileMeans(w, plan.writes.order, plan.writes.values);
    }
  }

  lemma FirstFileMeans(w: WordClass, order: seq<string>, values: map<string, string>)
    requires ValidKeys(w, values) && Lists(order, values)
    ensures Env(w, Merged("", order, values)) == values <==> AllFaithful(values)
  {
    MergeOverridesExactlyWhen(w, "", order, values);
    EmptyEnv(w);
    assert map[] + values == values;
  }

  // ---------------------------------------------------------------- the upload as a whole

  /** The key tables hold valid keys only. */
  ghost predicate ValidTables(w: WordClass, keys: seq<string>, fields: Dict, defaults: Dict, names: Names) {
    && (forall k :: k in keys ==> ValidKey(w, k))
    && ValidKeys(w, fields.values) && ValidKeys(w, defaults.values)
    && ValidKey(w, names.publicHost) && ValidKey(w, names.user) && ValidKey(w, names.password)
  }

  /** Then only valid keys are written. */
  lemma PlanHasValidKeys(w: WordClass, existing: Option<string>, keys: seq<string>, fields: Dict,
                         environment: map<string, string>, defaults: Dict, names: Names, host: string)
    requires IsDict(fields) && IsDict(defaults) && DistinctNames(names) && ValidTables(w, keys, fields, defaults, names)
    ensures ValidKeys(w, Plan(w, existing, keys, fields, environment, defaults, names, host).writes.values)
  {
    var plan := Plan(w, existing, keys, fields, environment, defaults, names, host);
    forall k | k in plan.writes.values ensures ValidKey(w, k) {
      LoadedIsDict(fields, environment);
      PlannedKey(w, existing, Overrides(keys, environment), LoadFields(fields, environment), defaults, names, host, k);
      OverridesAre(keys, environment);
    }
  }

  lemma PlannedKey(w: WordClass, existing: Option<string>, overrides: Dict, bootstrap: Dict, defaults: Dict,
                   names: Names, host: string, k: string)
    requires IsDict(bootstrap) && IsDict(defaults) && DistinctNames(names)
    requires k in Planned(w, existing, overrides, bootstrap, defaults, names, host).writes.values
    ensures k in overrides.values || k in bootstrap.values || k in defaults.values ||
      k == names.publicHost || k == names.user || k == names.password
  {
    var start := Start(w, existing, overrides, bootstrap);
    if existing.None? {
      PutAllKeys(overrides, bootstrap, |bootstrap.order|, k);
    }
    FillAll(start, defaults, k);
    SplitAuthAt(w, BeforeAuth(w, existing, overrides, bootstrap, defaults, names, host), existing, overrides, names, k);
  }

  lemma {:induction false} PutAllKeys(d: Dict, e: Dict, n: nat, k: string)
    requires IsDict(e) && n <= |e.order|
    ensures k in PutAll(d, e, n).values ==> k in d.values || k in e.values
  {
    if n > 0 {
      PutAllKeys(d, e, n - 1, k);
    }
  }

  /** A deployment that passed the checks uploads a file that means what was checked and has a value for
      every required key - for every key on a first deployment, and for every key but the Neo4j parts on a
      later one - if every written value is one that a line can carry. */
  lemma UploadMeansWhatWasChecked(w: WordClass, existing: Option<string>, keys: seq<string>, fields: Dict,
                                  environment: map<string, string>, defaults: Dict, names: Names, host: string,
                                  required: seq<string>, k: string)
    requires IsDict(fields) && IsDict(defaults) && DistinctNames(names) && ValidTables(w, keys, fields, defaults, names)
    requires existing.Some? ==> k != names.user && k != names.password
    ensures var plan := Plan(w, existing, keys, fields, environment, defaults, names, host);
      var r := Finish(w, plan, existing, required, names);
      r.Uploaded? && AllFaithful(plan.writes.values) ==>
        Look(Env(w, r.text), k) == Look(plan.known, k) && (k in required ==> !Blank(Env(w, r.text), k))
  {
    var plan := Plan(w, existing, keys, fields, environment, defaults, names, host);
    MergeMeansWhatWasChecked(w, existing, keys, fields, environment, defaults, names, host, k);
    FinishIs(w, plan, existing, required, names);
    MissingIs(plan.known, required, k);
    var text := Merged(Content(existing), plan.writes.order, plan.writes.values);
    if AllFaithful(plan.writes.values) {
      SameBlank(Env(w, text), plan.known, k);
    }
  }

  lemma SameBlank(a: map<string, string>, b: map<string, string>, j: string)
    requires Look(a, j) == Look(b, j)
    ensures Blank(a, j) == Blank(b, j) && Get(a, j) == Get(b, j)
  {}

  lemma FinishIs(w: WordClass, s: State, existing: Option<string>, required: seq<string>, names: Names)
    ensures var r := Finish(w, s, existing, required, names);
      r.Uploaded? ==>
        r.text == Merged(Content(existing), s.writes.order, s.writes.values) && Missing(s.known, required) == []
  {}

  lemma MergeMeansWhatWasChecked(w: WordClass, existing: Option<string>, keys: seq<string>, fields: Dict,
                                 environment: map<string, string>, defaults: Dict, names: Names, host: string,
                                 k: string)
    requires IsDict(fields) && IsDict(defaults) && DistinctNames(names) && ValidTables(w, keys, fields, defaults, names)
    requires existing.Some? ==> k != names.user && k != names.password
    ensures var plan := Plan(w, existing, keys, fields, environment, defaults, names, host);
      AllFaithful(plan.writes.values) ==>
        Look(Env(w, Merged(Content(existing), plan.writes.order, plan.writes.values)), k) == Look(plan.known, k)
  {
    var overrides, bootstrap := Overrides(keys, environment), LoadFields(fields, environment);
    LoadedIsDict(fields, environment);
    OverridesNotBlank(keys, environment);
    PlanHasValidKeys(w, existing, keys, fields, environment, defaults, names, host);
    if existing.None? {
      EnvironmentAgrees(keys, fields, environment);
      FirstUploadReadsBackExactlyWhen(w, overrides, bootstrap, defaults, names, host);
    } else {
      CheckedIsUploaded(w, existing.value, overrides, bootstrap, defaults, names, host, k);
    }
  }

  /** An accepted upload reads back as the old file overridden by what was written exactly when every
      written value is one that a line can carry. */
  lemma AcceptedReadsBackExactlyWhen(w: WordClass, s: State, existing: Option<string>, required: seq<string>,
                                     names: Names)
    requires IsDict(s.writes) && ValidKeys(w, s.writes.values) && Finish(w, s, existing, required, names).Uploaded?
    ensures Env(w, Finish(w, s, existing, required, names).text) == Env(w, Content(existing)) + s.writes.values <==>
      AllFaithful(s.writes.values)
  {
    MergeOverridesExactlyWhen(w, Content(existing), s.writes.order, s.writes.values);
  }
}
