/** Where an accepted deployment uploads something else than it checked: a value that the newline check
    lets through, and a Neo4j part that the remote file keeps. */
module EnvExceptions {
  import opened Optional
  import opened Text
  import opened EnvFile
  import opened EnvMerge
  import opened EnvUpload
  import opened EnvPrecedence

  // ---------------------------------------------------------------- one variable of the environment

  /** What the overrides say of a key. */
  lemma {:induction false} OverrideAt(keys: seq<string>, environment: map<string, string>, j: string)
    ensures Look(Overrides(keys, environment).values, j) ==
      if j in keys && !Blank(environment, j) then Some(environment[j]) else None
  {
    if keys != [] {
      var init, last := keys[..|keys| - 1], keys[|keys| - 1];
      assert keys == init + [last];
      OverrideAt(init, environment, j);
      if !Blank(environment, last) {
        LookPut(Overrides(init, environment), last, environment[last], j);
      }
    }
  }

  /** What is known of a key before the defaults: the override, else the field or the remote value. */
  lemma StartAt(w: WordClass, existing: Option<string>, overrides: Dict, bootstrap: Dict, j: string)
    requires IsDict(bootstrap)
    ensures Look(Start(w, existing, overrides, bootstrap).known, j) ==
      if j in overrides.values then Some(overrides.values[j])
      else if existing.None? then Look(bootstrap.values, j)
      else Look(Env(w, existing.value), j)
  {}

  /** Two environments that agree on a key: the plans know the same of it before the split. */
  lemma BeforeAuthAgree(w: WordClass, existing: Option<string>, o: Dict, p: Dict, b: Dict, c: Dict, defaults: Dict,
                        names: Names, host: string, j: string)
    requires IsDict(b) && IsDict(c) && IsDict(defaults)
    requires Look(o.values, j) == Look(p.values, j) && Look(b.values, j) == Look(c.values, j)
    ensures Look(BeforeAuth(w, existing, o, b, defaults, names, host).known, j) ==
      Look(BeforeAuth(w, existing, p, c, defaults, names, host).known, j)
  {
    StartAt(w, existing, o, b, j);
    StartAt(w, existing, p, c, j);
    FillAll(Start(w, existing, o, b), defaults, j);
    FillAll(Start(w, existing, p, c), defaults, j);
    SameBlank(Start(w, existing, o, b).known, Start(w, existing, p, c).known, j);
  }

  /** A variable that is overridden is known and written, whatever the defaults say. */
  lemma OverriddenAt(w: WordClass, existing: Option<string>, overrides: Dict, bootstrap: Dict, defaults: Dict,
                     names: Names, host: string, k: string)
    requires IsDict(overrides) && IsDict(bootstrap) && IsDict(defaults) && NoBlank(overrides) && DistinctNames(names)
    requires Agree(overrides, bootstrap)
    requires k in overrides.values && k != names.publicHost && k != names.user && k != names.password
    ensures var plan := Planned(w, existing, overrides, bootstrap, defaults, names, host);
      Look(plan.known, k) == Look(plan.writes.values, k) == Some(overrides.values[k])
  {
    var start := Start(w, existing, overrides, bootstrap);
    StartAt(w, existing, overrides, bootstrap, k);
    if existing.None? {
      StartAgrees(w, overrides, bootstrap);
    }
    FillAll(start, defaults, k);
    SplitAuthAt(w, BeforeAuth(w, existing, overrides, bootstrap, defaults, names, host), existing, overrides, names, k);
  }

  /** A variable that is not the composite setting decides about its own key only. */
  lemma OthersStay(w: WordClass, existing: Option<string>, o: Dict, p: Dict, b: Dict, c: Dict, defaults: Dict,
                   names: Names, host: string, k: string, j: string)
    requires IsDict(b) && IsDict(c) && IsDict(defaults) && DistinctNames(names) && k != names.auth && j != k
    requires forall i :: i != k ==> Look(o.values, i) == Look(p.values, i) && Look(b.values, i) == Look(c.values, i)
    ensures Look(Planned(w, existing, o, b, defaults, names, host).known, j) ==
      Look(Planned(w, existing, p, c, defaults, names, host).known, j)
  {
    var s, t :=
      BeforeAuth(w, existing, o, b, defaults, names, host), BeforeAuth(w, existing, p, c, defaults, names, host);
    BeforeAuthAgree(w, existing, o, p, b, c, defaults, names, host, j);
    BeforeAuthAgree(w, existing, o, p, b, c, defaults, names, host, names.auth);
    SplitAgree(w, existing, s, t, o, p, names, j);
  }

  lemma SplitAgree(w: WordClass, existing: Option<string>, s: State, t: State, o: Dict, p: Dict, names: Names,
                   j: string)
    requires DistinctNames(names) && Look(s.known, j) == Look(t.known, j)
      && Look(s.known, names.auth) == Look(t.known, names.auth)
    ensures Look(SplitAuth(w, s, existing, o, names).known, j) == Look(SplitAuth(w, t, existing, p, names).known, j)
  {
    SameBlank(s.known, t.known, names.auth);
    KnownAfterSplit(w, s, existing, o, names, j);
    KnownAfterSplit(w, t, existing, p, names, j);
  }

  /** What is known of a key after the split, from what was known of it and from the composite. */
  function KnownPart(before: Option<string>, auth: string, names: Names, j: string): Option<string> {
    if (j == names.user || j == names.password) && HasSlash(auth) then Some(PartOf(auth, names, j)) else before
  }

  lemma KnownAfterSplit(w: WordClass, s: State, existing: Option<string>, overrides: Dict, names: Names, j: string)
    requires DistinctNames(names)
    ensures Look(SplitAuth(w, s, existing, overrides, names).known, j) ==
      KnownPart(Look(s.known, j), Get(s.known, names.auth), names, j)
  {
    if j == names.user || j == names.password {
      PartAt(w, s, existing, overrides, names, j);
    } else {
      SplitAuthElsewhere(w, s, existing, overrides, names, j);
    }
  }

  lemma VariableIsWritten(w: WordClass, existing: Option<string>, keys: seq<string>, fields: Dict,
                          environment: map<string, string>, defaults: Dict, names: Names, host: string, k: string)
    requires IsDict(fields) && IsDict(defaults) && DistinctNames(names) && k in keys && !Blank(environment, k)
    requires k != names.publicHost && k != names.auth && k != names.user && k != names.password
    ensures IsDict(LoadFields(fields, environment))
    ensures var t := Plan(w, existing, keys, fields, environment, defaults, names, host);
      Look(t.known, k) == Look(t.writes.values, k) == Some(environment[k])
  {
    LoadedIsDict(fields, environment);
    OverrideAt(keys, environment, k);
    OverridesNotBlank(keys, environment);
    EnvironmentAgrees(keys, fields, environment);
    OverriddenAt(w, existing, Overrides(keys, environment), LoadFields(fields, environment), defaults, names, host, k);
  }

  /** Setting a variable of the key table to something that is not blank changes what is known of its own
      key, and writes it there. */
  lemma VariableIsKnown(w: WordClass, existing: Option<string>, keys: seq<string>, fields: Dict,
                        environment: map<string, string>, defaults: Dict, names: Names, host: string, k: string,
                        v: string)
    requires IsDict(fields) && IsDict(defaults) && DistinctNames(names) && k in keys && Strip(v) != ""
    requires k != names.publicHost && k != names.auth && k != names.user && k != names.password
    ensures var s := Plan(w, existing, keys, fields, environment, defaults, names, host);
      var t := Plan(w, existing, keys, fields, environment[k := v], defaults, names, host);
      t.known == s.known[k := v] && Look(t.writes.values, k) == Some(v)
  {
    var after := environment[k := v];
    var o, p := Overrides(keys, environment), Overrides(keys, after);
    var b, c := LoadFields(fields, environment), LoadFields(fields, after);
    LoadedIsDict(fields, environment);
    VariableIsWritten(w, existing, keys, fields, after, defaults, names, host, k);
    VariablesAgree(keys, fields, environment, k, v);
    var s, t := Planned(w, existing, o, b, defaults, names, host), Planned(w, existing, p, c, defaults, names, host);
    forall j ensures Look(t.known, j) == Look(s.known[k := v], j) {
      if j != k {
        OthersStay(w, existing, o, p, b, c, defaults, names, host, k, j);
      }
    }
    SameLooks(t.known, s.known[k := v]);
  }

  lemma VariablesAgree(keys: seq<string>, fields: Dict, environment: map<string, string>, k: string, v: string)
    ensures forall i :: i != k ==>
      && Look(Overrides(keys, environment).values, i) == Look(Overrides(keys, environment[k := v]).values, i)
      && Look(LoadFields(fields, environment).values, i) == Look(LoadFields(fields, environment[k := v]).values, i)
  {
    forall i | i != k ensures
      && Look(Overrides(keys, environment).values, i) == Look(Overrides(keys, environment[k := v]).values, i)
      && Look(LoadFields(fields, environment).values, i) == Look(LoadFields(fields, environment[k := v]).values, i)
    {
      OverrideAt(keys, environment, i);
      OverrideAt(keys, environment[k := v], i);
    }
  }

  // ---------------------------------------------------------------- line breaks

  lemma MissesNewline(a: string, b: string)
    requires !HasNewline(a) && !HasNewline(b) && !AllSpace(a)
    ensures var v := a + "\U{2028}" + b; !HasNewline(v) && !NoBreak(v) && Strip(v) != ""
  {
    var v := a + "\U{2028}" + b;
    assert v[|a|] == '\U{2028}' && IsBreak(v[|a|]);
    forall i | 0 <= i < |v| ensures v[i] != '\r' && v[i] != '\n' {
      if i < |a| {
        assert v[i] == a[i];
      } else if i > |a| {
        assert v[i] == b[i - |a| - 1];
      }
    }
    var i :| 0 <= i < |a| && !IsSpace(a[i]);
    assert v[i] == a[i];
    StripFacts(v);
  }

  /** The newline check looks for two characters, and lines end at more. Take any deployment that is
      accepted, the first one or a later one, and set one variable of the key table to a value with a line
      separator: the upload is still accepted, and the file does not read back as what was written. */
  lemma NewlineCheckMisses(w: WordClass, existing: Option<string>, keys: seq<string>, fields: Dict,
                           environment: map<string, string>, defaults: Dict, names: Names, host: string,
                           required: seq<string>, k: string, a: string, b: string)
    requires IsDict(fields) && IsDict(defaults) && DistinctNames(names) && ValidTables(w, keys, fields, defaults, names)
    requires k in keys && k != names.publicHost && k != names.auth && k != names.user && k != names.password
      && k != names.checkpoint
    requires !HasNewline(a) && !HasNewline(b) && !AllSpace(a)
    requires Finish(w, Plan(w, existing, keys, fields, environment, defaults, names, host), existing, required,
      names).Uploaded?
    ensures var t := Plan(w, existing, keys, fields, environment[k := a + "\U{2028}" + b], defaults, names, host);
      var r := Finish(w, t, existing, required, names);
      r.Uploaded? && Env(w, r.text) != Env(w, Content(existing)) + t.writes.values
  {
    var v := a + "\U{2028}" + b;
    MissesNewline(a, b);
    var t := Plan(w, existing, keys, fields, environment[k := v], defaults, names, host);
    VariableIsKnown(w, existing, keys, fields, environment, defaults, names, host, k, v);
    StillAccepted(w, Plan(w, existing, keys, fields, environment, defaults, names, host), t, existing, required, names,
      k, v);
    PlanHasValidKeys(w, existing, keys, fields, environment[k := v], defaults, names, host);
    PlanIsDict(w, existing, keys, fields, environment[k := v], defaults, names, host);
    AcceptedReadsBackExactlyWhen(w, t, existing, required, names);
    assert !Faithful(t.writes.values[k]);
  }

  lemma PlanIsDict(w: WordClass, existing: Option<string>, keys: seq<string>, fields: Dict,
                   environment: map<string, string>, defaults: Dict, names: Names, host: string)
    requires IsDict(fields) && IsDict(defaults)
    ensures IsDict(Plan(w, existing, keys, fields, environment, defaults, names, host).writes)
  {
    LoadedIsDict(fields, environment);
    OverridesAre(keys, environment);
    PlannedLists(w, existing, Overrides(keys, environment), LoadFields(fields, environment), defaults, names, host);
  }

  lemma StillAccepted(w: WordClass, s: State, t: State, existing: Option<string>, required: seq<string>, names: Names,
                      k: string, v: string)
    requires Finish(w, s, existing, required, names).Uploaded?
    requires t.known == s.known[k := v] && k != names.checkpoint && !HasNewline(v) && Strip(v) != ""
    ensures Finish(w, t, existing, required, names).Uploaded?
  {
    StillComplete(s.known, required, k, v);
  }

  lemma StillComplete(known: map<string, string>, required: seq<string>, k: string, v: string)
    requires Missing(known, required) == [] && Strip(v) != ""
    ensures Missing(known[k := v], required) == []
  {
    var missing := Missing(known[k := v], required);
    if missing != [] {
      MissingIs(known[k := v], required, missing[0]);
      MissingIs(known, required, missing[0]);
    }
  }

  // ---------------------------------------------------------------- the Neo4j parts

  /** Splitting the composite, in terms of its parts. */
  lemma PartAt(w: WordClass, s: State, existing: Option<string>, overrides: Dict, names: Names, k: string)
    requires DistinctNames(names) && (k == names.user || k == names.password)
    ensures var t, auth := SplitAuth(w, s, existing, overrides, names), Get(s.known, names.auth);
      && Look(t.known, k) == (if HasSlash(auth) then Some(PartOf(auth, names, k)) else Look(s.known, k))
      && Look(t.writes.values, k) ==
           (if HasSlash(auth) && MustWrite(w, existing, overrides, names, k) then Some(PartOf(auth, names, k))
             else Look(s.writes.values, k))
  {
    if HasSlash(Get(s.known, names.auth)) {
      PartWithSlash(w, s, existing, overrides, names, k);
    } else {
      SplitAuthAt(w, s, existing, overrides, names, k);
    }
  }

  lemma PartWithSlash(w: WordClass, s: State, existing: Option<string>, overrides: Dict, names: Names, k: string)
    requires DistinctNames(names) && (k == names.user || k == names.password) && HasSlash(Get(s.known, names.auth))
    ensures var t, part := SplitAuth(w, s, existing, overrides, names), PartOf(Get(s.known, names.auth), names, k);
      && Look(t.known, k) == Some(part)
      && Look(t.writes.values, k) ==
        (if MustWrite(w, existing, overrides, names, k) then Some(part) else Look(s.writes.values, k))
  {
    SplitAuthAt(w, s, existing, overrides, names, k);
  }

  /** Before the split, a part is known from the remote file only and not written. */
  lemma PartBefore(w: WordClass, content: string, overrides: Dict, bootstrap: Dict, defaults: Dict, names: Names,
                   host: string, k: string)
    requires IsDict(bootstrap) && IsDict(defaults) && NoBlank(overrides) && DistinctNames(names)
    requires (k == names.user || k == names.password) && k !in overrides.values && k !in defaults.values
    requires names.auth !in overrides.values ==> names.auth !in defaults.values
    ensures var before, remote :=
      BeforeAuth(w, Some(content), overrides, bootstrap, defaults, names, host), Env(w, content);
      && Look(before.known, k) == Look(remote, k) && Look(before.writes.values, k) == None
      && Get(before.known, names.auth) ==
           (if names.auth in overrides.values then overrides.values[names.auth] else Get(remote, names.auth))
  {
    var before := BeforeAuth(w, Some(content), overrides, bootstrap, defaults, names, host);
    BeforeAuthAt(w, content, overrides, bootstrap, defaults, names, host, k);
    BeforeAuthAt(w, content, overrides, bootstrap, defaults, names, host, names.auth);
    if names.auth !in overrides.values {
      SameBlank(before.known, Env(w, content), names.auth);
    }
  }

  /** What the checks know of a part, and what is written for it, when the composite setting is not
      overridden: both come from the composite in the remote file. */
  lemma RemotePart(w: WordClass, content: string, overrides: Dict, bootstrap: Dict, defaults: Dict, names: Names,
                   host: string, k: string)
    requires IsDict(bootstrap) && IsDict(defaults) && NoBlank(overrides) && DistinctNames(names)
    requires (k == names.user || k == names.password) && k !in overrides.values && k !in defaults.values
    requires names.auth !in overrides.values && names.auth !in defaults.values
    ensures var remote := Env(w, content);
      var auth, plan := Get(remote, names.auth), Planned(w, Some(content), overrides, bootstrap, defaults, names, host);
      && Look(plan.known, k) == (if HasSlash(auth) then Some(PartOf(auth, names, k)) else Look(remote, k))
      && Look(plan.writes.values, k) ==
        (if HasSlash(auth) && Get(remote, k) == "" then Some(PartOf(auth, names, k)) else None)
  {
    PartBefore(w, content, overrides, bootstrap, defaults, names, host, k);
    PartAt(w, BeforeAuth(w, Some(content), overrides, bootstrap, defaults, names, host), Some(content), overrides,
      names, k);
  }

  /** With an overridden composite that has both parts, what is known of a part is what is written. */
  lemma OverriddenPart(w: WordClass, content: string, overrides: Dict, bootstrap: Dict, defaults: Dict, names: Names,
                       host: string, k: string)
    requires IsDict(bootstrap) && IsDict(defaults) && NoBlank(overrides) && DistinctNames(names)
    requires (k == names.user || k == names.password) && k !in overrides.values && k !in defaults.values
    requires names.auth in overrides.values
    ensures var plan := Planned(w, Some(content), overrides, bootstrap, defaults, names, host);
      if HasSlash(overrides.values[names.auth]) then
        Look(plan.known, k) == Look(plan.writes.values, k) == Some(PartOf(overrides.values[names.auth], names, k))
      else Look(plan.known, k) == Look(Env(w, content), k) && k !in plan.writes.values
  {
    PartBefore(w, content, overrides, bootstrap, defaults, names, host, k);
    PartAt(w, BeforeAuth(w, Some(content), overrides, bootstrap, defaults, names, host), Some(content), overrides,
      names, k);
  }

  /** The user or password in the uploaded file differs from the one that was checked exactly when the
      composite setting is not overridden, and the remote file holds it next to another, non-empty part,
      which stays. */
  lemma StalePartExactlyWhen(w: WordClass, content: string, overrides: Dict, bootstrap: Dict, defaults: Dict,
                             names: Names, host: string, k: string)
    requires IsDict(overrides) && IsDict(bootstrap) && IsDict(defaults) && NoBlank(overrides) && DistinctNames(names)
    requires (k == names.user || k == names.password) && k !in overrides.values && k !in defaults.values
    requires names.auth !in defaults.values
    ensures var plan, remote := Planned(w, Some(content), overrides, bootstrap, defaults, names, host), Env(w, content);
      ValidKeys(w, plan.writes.values) && AllFaithful(plan.writes.values) ==>
        (Look(Env(w, Merged(content, plan.writes.order, plan.writes.values)), k) != Look(plan.known, k) <==>
           && names.auth !in overrides.values && HasSlash(Get(remote, names.auth))
           && Get(remote, k) != "" && Get(remote, k) != PartOf(Get(remote, names.auth), names, k))
  {
    PlannedDiffers(w, content, overrides, bootstrap, defaults, names, host, k);
    PlannedLists(w, Some(content), overrides, bootstrap, defaults, names, host);
    var plan := Planned(w, Some(content), overrides, bootstrap, defaults, names, host);
    if ValidKeys(w, plan.writes.values) && AllFaithful(plan.writes.values) {
      UploadedAt(w, content, plan.writes.order, plan.writes.values, k);
    }
  }

  /** What a file says of a key after it has been merged with some values. */
  function Result(remote: map<string, string>, values: map<string, string>, k: string): Option<string> {
    if k in values then Some(values[k]) else Look(remote, k)
  }

  lemma PlannedDiffers(w: WordClass, content: string, overrides: Dict, bootstrap: Dict, defaults: Dict, names: Names,
                       host: string, k: string)
    requires IsDict(bootstrap) && IsDict(defaults) && NoBlank(overrides) && DistinctNames(names)
    requires (k == names.user || k == names.password) && k !in overrides.values && k !in defaults.values
    requires names.auth !in defaults.values
    ensures var plan, remote := Planned(w, Some(content), overrides, bootstrap, defaults, names, host), Env(w, content);
      Result(remote, plan.writes.values, k) != Look(plan.known, k) <==>
        && names.auth !in overrides.values && HasSlash(Get(remote, names.auth))
        && Get(remote, k) != "" && Get(remote, k) != PartOf(Get(remote, names.auth), names, k)
  {
    var plan, remote := Planned(w, Some(content), overrides, bootstrap, defaults, names, host), Env(w, content);
    if names.auth in overrides.values {
      OverriddenPart(w, content, overrides, bootstrap, defaults, names, host, k);
    } else {
      RemotePart(w, content, overrides, bootstrap, defaults, names, host, k);
      PartDiffers(remote, plan.writes.values, plan.known, HasSlash(Get(remote, names.auth)),
        PartOf(Get(remote, names.auth), names, k), k);
    }
  }

  lemma PartDiffers(remote: map<string, string>, values: map<string, string>, known: map<string, string>, slash: bool,
                    part: string, k: string)
    requires Look(known, k) == if slash then Some(part) else Look(remote, k)
    requires Look(values, k) == if slash && Get(remote, k) == "" then Some(part) else None
    ensures Result(remote, values, k) != Look(known, k) <==> slash && Get(remote, k) != "" && Get(remote, k) != part
  {}

  /** What the uploaded file says of a key. */
  lemma UploadedAt(w: WordClass, content: string, order: seq<string>, values: map<string, string>, k: string)
    requires ValidKeys(w, values) && Lists(order, values) && AllFaithful(values)
    ensures Look(Env(w, Merged(content, order, values)), k) == Result(Env(w, content), values, k)
  {
    MergeOverridesExactlyWhen(w, content, order, values);
  }

  // ---------------------------------------------------------------- accepted deployments with a stale part

  /** The settings that decide about the parts: the composite and the parts come from the remote file. */
  ghost predicate PartsAreRemote(overrides: Dict, defaults: Dict, names: Names) {
    && names.auth !in overrides.values && names.user !in overrides.values && names.password !in overrides.values
    && names.auth !in defaults.values && names.user !in defaults.values && names.password !in defaults.values
  }

  /** Putting a value next to a composite that has both parts changes nothing that the checks know. */
  lemma PartIsNotChecked(w: WordClass, content: string, more: string, overrides: Dict, bootstrap: Dict, defaults: Dict,
                         names: Names, host: string, k: string, stale: string, j: string)
    requires IsDict(bootstrap) && IsDict(defaults) && NoBlank(overrides) && DistinctNames(names)
      && PartsAreRemote(overrides, defaults, names)
    requires (k == names.user || k == names.password) && HasSlash(Get(Env(w, content), names.auth))
    requires Env(w, more) == Env(w, content)[k := stale] && stale != ""
    ensures var s, t := Planned(w, Some(content), overrides, bootstrap, defaults, names, host),
                        Planned(w, Some(more), overrides, bootstrap, defaults, names, host);
      && Look(t.known, j) == Look(s.known, j)
      && Look(t.writes.values, j) == if j == k then None else Look(s.writes.values, j)
  {
    SameBlank(Env(w, content), Env(w, more), names.auth);
    if j == names.user || j == names.password {
      RemotePart(w, content, overrides, bootstrap, defaults, names, host, j);
      RemotePart(w, more, overrides, bootstrap, defaults, names, host, j);
      assert j != k ==> Look(Env(w, more), j) == Look(Env(w, content), j);
    } else {
      OtherKey(w, content, overrides, bootstrap, defaults, names, host, j);
      OtherKey(w, more, overrides, bootstrap, defaults, names, host, j);
      SameValues(Env(w, content), Env(w, more), overrides, defaults, names, host, j);
    }
  }

  lemma OtherKey(w: WordClass, content: string, overrides: Dict, bootstrap: Dict, defaults: Dict, names: Names,
                 host: string, j: string)
    requires IsDict(bootstrap) && IsDict(defaults) && NoBlank(overrides) && DistinctNames(names)
    requires j != names.user && j != names.password
    ensures var t, remote := Planned(w, Some(content), overrides, bootstrap, defaults, names, host), Env(w, content);
      && Look(t.known, j) == KnownValue(remote, overrides, defaults, names, host, j)
      && Look(t.writes.values, j) == WrittenValue(remote, overrides, defaults, names, host, j)
  {
    BeforeAuthAt(w, content, overrides, bootstrap, defaults, names, host, j);
    SplitAuthElsewhere(w, BeforeAuth(w, Some(content), overrides, bootstrap, defaults, names, host), Some(content),
      overrides, names, j);
  }

  lemma SameValues(a: map<string, string>, b: map<string, string>, overrides: Dict, defaults: Dict, names: Names,
                   host: string, j: string)
    requires Look(a, j) == Look(b, j)
    ensures KnownValue(a, overrides, defaults, names, host, j) == KnownValue(b, overrides, defaults, names, host, j)
    ensures WrittenValue(a, overrides, defaults, names, host, j) == WrittenValue(b, overrides, defaults, names, host, j)
  {}

  /** So the plan knows the same, and writes the same but for that part. */
  lemma PlanWithPart(w: WordClass, content: string, more: string, overrides: Dict, bootstrap: Dict, defaults: Dict,
                     names: Names, host: string, k: string, stale: string)
    requires IsDict(bootstrap) && IsDict(defaults) && NoBlank(overrides) && DistinctNames(names)
      && PartsAreRemote(overrides, defaults, names)
    requires (k == names.user || k == names.password) && HasSlash(Get(Env(w, content), names.auth))
    requires Env(w, more) == Env(w, content)[k := stale] && stale != ""
    ensures var s, t := Planned(w, Some(content), overrides, bootstrap, defaults, names, host),
                        Planned(w, Some(more), overrides, bootstrap, defaults, names, host);
      t.known == s.known && k !in t.writes.values && (AllFaithful(s.writes.values) ==> AllFaithful(t.writes.values))
  {
    var s, t := Planned(w, Some(content), overrides, bootstrap, defaults, names, host),
                Planned(w, Some(more), overrides, bootstrap, defaults, names, host);
    forall j
      ensures Look(t.known, j) == Look(s.known, j)
      ensures Look(t.writes.values, j) == if j == k then None else Look(s.writes.values, j)
    {
      PartIsNotChecked(w, content, more, overrides, bootstrap, defaults, names, host, k, stale, j);
    }
    SameLooks(t.known, s.known);
    FewerFaithful(s.writes.values, t.writes.values, k);
  }

  lemma FewerFaithful(a: map<string, string>, b: map<string, string>, k: string)
    requires forall j :: Look(b, j) == if j == k then None else Look(a, j)
    ensures k !in b && (AllFaithful(a) ==> AllFaithful(b))
  {
    assert Look(b, k) == None;
    forall j | AllFaithful(a) && j in b ensures Faithful(b[j]) {
      assert Look(b, j) == if j == k then None else Look(a, j);
    }
  }

  lemma SameKnownAccepted(w: WordClass, s: State, t: State, a: Option<string>, b: Option<string>, required: seq<string>,
                          names: Names)
    requires Finish(w, s, a, required, names).Uploaded? && t.known == s.known
    ensures Finish(w, t, b, required, names).Uploaded?
  {}

  /** Take any later deployment that is accepted, whose composite comes from the remote file and has both
      parts, and put another value for the user or the password into that file: the deployment is accepted
      again, it checks the part of the composite, and the file that it uploads keeps the other value. */
  lemma StalePartIsUploaded(w: WordClass, content: string, keys: seq<string>, fields: Dict,
                            environment: map<string, string>, defaults: Dict, names: Names, host: string,
                            required: seq<string>, k: string, stale: string)
    requires IsDict(fields) && IsDict(defaults) && DistinctNames(names) && ValidTables(w, keys, fields, defaults, names)
    requires PartsAreRemote(Overrides(keys, environment), defaults, names) && (k == names.user || k == names.password)
    requires var plan := Plan(w, Some(content), keys, fields, environment, defaults, names, host);
      Finish(w, plan, Some(content), required, names).Uploaded? && AllFaithful(plan.writes.values)
    requires var auth := Get(Env(w, content), names.auth); HasSlash(auth) && stale != PartOf(auth, names, k)
    requires Faithful(stale) && stale != ""
    ensures var more := Merged(content, [k], map[k := stale]);
      var plan := Plan(w, Some(more), keys, fields, environment, defaults, names, host);
      var r := Finish(w, plan, Some(more), required, names);
      && r.Uploaded? && Look(plan.known, k) == Some(PartOf(Get(Env(w, content), names.auth), names, k))
      && Look(Env(w, r.text), k) == Some(stale) != Look(plan.known, k)
  {
    var more := Merged(content, [k], map[k := stale]);
    var overrides, bootstrap := Overrides(keys, environment), LoadFields(fields, environment);
    LoadedIsDict(fields, environment);
    OverridesNotBlank(keys, environment);
    OneSetting(w, content, k, stale);
    PlanWithPart(w, content, more, overrides, bootstrap, defaults, names, host, k, stale);
    RemotePart(w, content, overrides, bootstrap, defaults, names, host, k);
    var plan := Plan(w, Some(more), keys, fields, environment, defaults, names, host);
    SameKnownAccepted(w, Plan(w, Some(content), keys, fields, environment, defaults, names, host), plan, Some(content),
      Some(more), required, names);
    PlanHasValidKeys(w, Some(more), keys, fields, environment, defaults, names, host);
    PlanIsDict(w, Some(more), keys, fields, environment, defaults, names, host);
    UploadedAt(w, more, plan.writes.order, plan.writes.values, k);
  }

  lemma OneSetting(w: WordClass, content: string, k: string, v: string)
    requires ValidKey(w, k) && Faithful(v)
    ensures Env(w, Merged(content, [k], map[k := v])) == Env(w, content)[k := v]
  {
    OneUpdate(w, k, v);
    MergeOverridesExactlyWhen(w, content, [k], map[k := v]);
    PlusOne(Env(w, content), k, v);
  }

  lemma OneUpdate(w: WordClass, k: string, v: string)
    requires ValidKey(w, k) && Faithful(v)
    ensures ValidKeys(w, map[k := v]) && Lists([k], map[k := v]) && AllFaithful(map[k := v])
  {}

  lemma PlusOne<K, V>(m: map<K, V>, k: K, v: V)
    ensures m + map[k := v] == m[k := v]
  {}
}
