/** Deploying again from the same environment. */
module Redeployment {
  import opened Optional
  import opened Text
  import opened EnvFile
  import opened EnvMerge
  import opened EnvUpload
  import opened EnvPrecedence
  import opened EnvExceptions

  /** What the first plan knows of a key before the split. */
  function FirstValue(overrides: Dict, bootstrap: Dict, defaults: Dict, names: Names, host: string,
                      j: string): Option<string>
  {
    var start := if j in overrides.values then Some(overrides.values[j]) else Look(bootstrap.values, j);
    if j == names.publicHost then Some(host)
    else if j in defaults.values && (start.None? || Strip(start.value) == "") then Some(defaults.values[j])
    else start
  }

  lemma FirstBefore(w: WordClass, overrides: Dict, bootstrap: Dict, defaults: Dict, names: Names, host: string,
                    j: string)
    requires IsDict(overrides) && IsDict(bootstrap) && IsDict(defaults)
    ensures Look(BeforeAuth(w, None, overrides, bootstrap, defaults, names, host).known, j) ==
      FirstValue(overrides, bootstrap, defaults, names, host, j)
  {
    StartAt(w, None, overrides, bootstrap, j);
    FillAll(Start(w, None, overrides, bootstrap), defaults, j);
  }

  /** A file that says what the first plan knows is read as that again: for every key but the parts, and
      before the split for these too if the composite has none. */
  lemma SecondBefore(overrides: Dict, bootstrap: Dict, defaults: Dict, names: Names, host: string,
                     remote: map<string, string>, j: string)
    requires NoBlank(overrides) && Look(remote, j) == FirstValue(overrides, bootstrap, defaults, names, host, j)
    ensures KnownValue(remote, overrides, defaults, names, host, j) == Look(remote, j)
  {}

  /** The second plan knows what the first one knew. */
  lemma SecondKnows(w: WordClass, content: string, overrides: Dict, bootstrap: Dict, defaults: Dict, names: Names,
                    host: string, j: string)
    requires IsDict(overrides) && IsDict(bootstrap) && IsDict(defaults) && NoBlank(overrides) && DistinctNames(names)
    requires Env(w, content) == Planned(w, None, overrides, bootstrap, defaults, names, host).known
    ensures Look(Planned(w, Some(content), overrides, bootstrap, defaults, names, host).known, j) ==
      Look(Env(w, content), j)
  {
    var one, two := BeforeAuth(w, None, overrides, bootstrap, defaults, names, host),
                    BeforeAuth(w, Some(content), overrides, bootstrap, defaults, names, host);
    SecondAuth(w, content, overrides, bootstrap, defaults, names, host);
    KnownAfterSplit(w, one, None, overrides, names, j);
    KnownAfterSplit(w, two, Some(content), overrides, names, j);
    FirstBefore(w, overrides, bootstrap, defaults, names, host, j);
    BeforeAuthAt(w, content, overrides, bootstrap, defaults, names, host, j);
    if KnownPart(Look(one.known, j), Get(one.known, names.auth), names, j) == Look(one.known, j) {
      SecondBefore(overrides, bootstrap, defaults, names, host, Env(w, content), j);
    }
  }

  /** The composite is the same in both plans. */
  lemma SecondAuth(w: WordClass, content: string, overrides: Dict, bootstrap: Dict, defaults: Dict, names: Names,
                   host: string)
    requires IsDict(overrides) && IsDict(bootstrap) && IsDict(defaults) && NoBlank(overrides) && DistinctNames(names)
    requires Env(w, content) == Planned(w, None, overrides, bootstrap, defaults, names, host).known
    ensures Get(BeforeAuth(w, None, overrides, bootstrap, defaults, names, host).known, names.auth) ==
      Get(BeforeAuth(w, Some(content), overrides, bootstrap, defaults, names, host).known, names.auth)
  {
    var one, two := BeforeAuth(w, None, overrides, bootstrap, defaults, names, host),
                    BeforeAuth(w, Some(content), overrides, bootstrap, defaults, names, host);
    KnownAfterSplit(w, one, None, overrides, names, names.auth);
    FirstBefore(w, overrides, bootstrap, defaults, names, host, names.auth);
    BeforeAuthAt(w, content, overrides, bootstrap, defaults, names, host, names.auth);
    SecondBefore(overrides, bootstrap, defaults, names, host, Env(w, content), names.auth);
    SameBlank(one.known, two.known, names.auth);
  }

  /** What the second plan writes, it knows. */
  lemma SecondWrites(w: WordClass, content: string, overrides: Dict, bootstrap: Dict, defaults: Dict, names: Names,
                     host: string, j: string)
    requires IsDict(bootstrap) && IsDict(defaults) && NoBlank(overrides) && DistinctNames(names)
    requires names.user !in overrides.values && names.password !in overrides.values
    requires names.user !in defaults.values && names.password !in defaults.values
    ensures var plan := Planned(w, Some(content), overrides, bootstrap, defaults, names, host);
      j in plan.writes.values ==> Look(plan.known, j) == Some(plan.writes.values[j])
  {
    var before := BeforeAuth(w, Some(content), overrides, bootstrap, defaults, names, host);
    BeforeAuthAt(w, content, overrides, bootstrap, defaults, names, host, j);
    if j == names.user || j == names.password {
      PartAt(w, before, Some(content), overrides, names, j);
    } else {
      SplitAuthElsewhere(w, before, Some(content), overrides, names, j);
    }
  }

  /** Merging values that a file already says leaves its meaning alone. */
  lemma MergeOfKnown(w: WordClass, content: string, order: seq<string>, values: map<string, string>)
    requires ValidKeys(w, values) && Lists(order, values) && AllFaithful(values)
    requires forall j :: j in values ==> Look(Env(w, content), j) == Some(values[j])
    ensures Env(w, Merged(content, order, values)) == Env(w, content)
  {
    MergeOverridesExactlyWhen(w, content, order, values);
    var env := Env(w, content);
    forall j | j in values ensures j in env && env[j] == values[j] {
      assert Look(env, j) == Some(values[j]);
    }
    assert env + values == env;
  }

  /** A first deployment that is accepted, with values that lines can carry, and then a second one from the
      same environment: the second is accepted, checks what the first one checked, and uploads a file that
      means the same. */
  lemma RedeployKeepsMeaning(w: WordClass, keys: seq<string>, fields: Dict, environment: map<string, string>,
                             defaults: Dict, names: Names, host: string, required: seq<string>)
    requires IsDict(fields) && IsDict(defaults) && DistinctNames(names) && ValidTables(w, keys, fields, defaults, names)
    requires names.user !in keys && names.password !in keys && names.user !in defaults.values
      && names.password !in defaults.values
    requires var plan := Plan(w, None, keys, fields, environment, defaults, names, host);
      Finish(w, plan, None, required, names).Uploaded? && AllFaithful(plan.writes.values)
    ensures var first := Plan(w, None, keys, fields, environment, defaults, names, host);
      var text := Finish(w, first, None, required, names).text;
      var second := Plan(w, Some(text), keys, fields, environment, defaults, names, host);
      var r := Finish(w, second, Some(text), required, names);
      && Env(w, text) == first.known && second.known == first.known
      && r.Uploaded? && Env(w, r.text) == Env(w, text)
  {
    var overrides, bootstrap := Overrides(keys, environment), LoadFields(fields, environment);
    var first := Plan(w, None, keys, fields, environment, defaults, names, host);
    var text := Finish(w, first, None, required, names).text;
    LoadedIsDict(fields, environment);
    OverridesNotBlank(keys, environment);
    OverridesAre(keys, environment);
    EnvironmentAgrees(keys, fields, environment);
    PlanHasValidKeys(w, None, keys, fields, environment, defaults, names, host);
    FirstUploadReadsBackExactlyWhen(w, overrides, bootstrap, defaults, names, host);
    FirstDeploymentWritesAll(w, overrides, bootstrap, defaults, names, host);
    SecondUpload(w, text, keys, fields, environment, defaults, names, host);
    var second := Plan(w, Some(text), keys, fields, environment, defaults, names, host);
    SameKnownAccepted(w, first, second, None, Some(text), required, names);
  }

  lemma SecondUpload(w: WordClass, text: string, keys: seq<string>, fields: Dict, environment: map<string, string>,
                     defaults: Dict, names: Names, host: string)
    requires IsDict(fields) && IsDict(defaults) && DistinctNames(names) && ValidTables(w, keys, fields, defaults, names)
    requires names.user !in keys && names.password !in keys && names.user !in defaults.values
      && names.password !in defaults.values
    requires var first := Plan(w, None, keys, fields, environment, defaults, names, host);
      Env(w, text) == first.known && AllFaithful(first.known)
    ensures var second := Plan(w, Some(text), keys, fields, environment, defaults, names, host);
      && second.known == Env(w, text)
      && Env(w, Merged(text, second.writes.order, second.writes.values)) == Env(w, text)
  {
    var overrides, bootstrap := Overrides(keys, environment), LoadFields(fields, environment);
    var second := Plan(w, Some(text), keys, fields, environment, defaults, names, host);
    LoadedIsDict(fields, environment);
    OverridesNotBlank(keys, environment);
    OverridesAre(keys, environment);
    forall j
      ensures Look(second.known, j) == Look(Env(w, text), j)
      ensures j in second.writes.values ==> Look(second.known, j) == Some(second.writes.values[j])
    {
      SecondKnows(w, text, overrides, bootstrap, defaults, names, host, j);
      SecondWrites(w, text, overrides, bootstrap, defaults, names, host, j);
    }
    SameLooks(second.known, Env(w, text));
    PlanHasValidKeys(w, Some(text), keys, fields, environment, defaults, names, host);
    PlanIsDict(w, Some(text), keys, fields, environment, defaults, names, host);
    KnownAreFaithful(Env(w, text), second.writes.values);
    MergeOfKnown(w, text, second.writes.order, second.writes.values);
  }

  lemma KnownAreFaithful(known: map<string, string>, values: map<string, string>)
    requires AllFaithful(known) && forall j :: j in values ==> Look(known, j) == Some(values[j])
    ensures AllFaithful(values)
  {
    forall j | j in values ensures Faithful(values[j]) {
      assert Look(known, j) == Some(values[j]);
    }
  }
}
