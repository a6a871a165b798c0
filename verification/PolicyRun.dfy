/** The experiment runner: nested loops over candidates, data splits, cases, seeds and repetitions that
    create, run and finish trials under a budget, checking for cancellation before every trial. What a
    trial yields, which checks report a cancellation and which calls fail is arbitrary. */
module PolicyRun {
  import opened Optional
  import opened PairedEvaluation

  datatype Split = EvalSplit | GateSplit | SafetySplit

  datatype Spec = Spec(candidate: nat, split: Split, caseId: nat, seed: int, repeatNo: nat)

  datatype Result = Result(timedOut: bool, cost: real, reward: real, violations: int)

  /** What one candidate's trials add up to. */
  datatype Tally = Tally(eval: seq<real>, gate: seq<real>, safety: seq<real>, violations: int, timeouts: nat,
                         total: nat)

  const NO_TRIALS := Tally([], [], [], 0, 0, 0)

  datatype State = State(spent: real, created: seq<Spec>, tally: Tally)

  function Add(t: Tally, split: Split, r: Result): Tally {
    var u := t.(violations := t.violations + r.violations,
                timeouts := t.timeouts + (if r.timedOut then 1 else 0),
                total := t.total + 1);
    match split
    case EvalSplit => u.(eval := t.eval + [r.reward])
    case GateSplit => u.(gate := t.gate + [r.reward])
    case SafetySplit => u.(safety := t.safety + [r.reward])
  }

  /** A planned trial is run while the budget is not used up, and otherwise passed over. */
  function Step(results: nat -> Result, budget: real, st: State, spec: Spec): State {
    if st.spent >= budget then st
    else
      var r := results(|st.created|);
      State(st.spent + r.cost, st.created + [spec], Add(st.tally, spec.split, r))
  }

  function Fold(results: nat -> Result, budget: real, st: State, plan: seq<Spec>): State {
    if plan == [] then st
    else Step(results, budget, Fold(results, budget, st, plan[..|plan| - 1]), plan[|plan| - 1])
  }

  lemma FoldSnoc(results: nat -> Result, budget: real, st: State, plan: seq<Spec>, spec: Spec)
    ensures Fold(results, budget, st, plan + [spec]) == Step(results, budget, Fold(results, budget, st, plan), spec)
  {
    assert (plan + [spec])[..|plan|] == plan;
  }

  lemma {:induction false} FoldConcat(results: nat -> Result, budget: real, st: State, a: seq<Spec>, b: seq<Spec>)
    ensures Fold(results, budget, st, a + b) == Fold(results, budget, Fold(results, budget, st, a), b)
  {
    if b == [] {
      assert a + b == a;
    } else {
      var init, last := b[..|b| - 1], b[|b| - 1];
      FoldConcat(results, budget, st, a, init);
      assert a + b == (a + init) + [last];
      FoldSnoc(results, budget, st, a + init, last);
    }
  }

  /** Once the budget is used up nothing changes any more. */
  lemma {:induction false} Saturated(results: nat -> Result, budget: real, st: State, plan: seq<Spec>)
    requires st.spent >= budget
    ensures Fold(results, budget, st, plan) == st
  {
    if plan != [] {
      Saturated(results, budget, st, plan[..|plan| - 1]);
    }
  }

  lemma StaysSpent(results: nat -> Result, budget: real, st: State, plan: seq<Spec>)
    ensures st.spent >= budget ==> Fold(results, budget, st, plan).spent >= budget
  {
    if st.spent >= budget {
      Saturated(results, budget, st, plan);
    }
  }

  /** Leaving a loop early loses nothing. */
  lemma BreakHere(results: nat -> Result, budget: real, st: State, done: seq<Spec>, plan: seq<Spec>)
    requires done <= plan && Fold(results, budget, st, done).spent >= budget
    ensures Fold(results, budget, st, plan) == Fold(results, budget, st, done)
  {
    var rest := plan[|done|..];
    assert plan == done + rest;
    FoldConcat(results, budget, st, done, rest);
    Saturated(results, budget, Fold(results, budget, st, done), rest);
  }

  // ---------------------------------------------------------------- the plan

  function RepeatPlan(c: nat, s: Split, k: nat, seed: int, repeats: nat): seq<Spec> {
    if repeats == 0 then [] else RepeatPlan(c, s, k, seed, repeats - 1) + [Spec(c, s, k, seed, repeats)]
  }

  function Flat<T>(items: seq<T>, f: T -> seq<Spec>): seq<Spec> {
    if items == [] then [] else Flat(items[..|items| - 1], f) + f(items[|items| - 1])
  }

  lemma FlatNext<T>(items: seq<T>, f: T -> seq<Spec>, i: nat)
    requires i < |items|
    ensures Flat(items[..i + 1], f) == Flat(items[..i], f) + f(items[i])
  {
    assert items[..i + 1][..i] == items[..i];
  }

  lemma {:induction false} FlatPrefix<T>(items: seq<T>, f: T -> seq<Spec>, i: nat)
    requires i <= |items|
    ensures Flat(items[..i], f) <= Flat(items, f)
  {
    if i < |items| {
      var init := items[..|items| - 1];
      FlatPrefix(init, f, i);
      assert init[..i] == items[..i];
    } else {
      assert items[..i] == items;
    }
  }

  lemma {:induction false} RepeatPrefix(c: nat, s: Split, k: nat, seed: int, n: nat, repeats: nat)
    requires n <= repeats
    ensures RepeatPlan(c, s, k, seed, n) <= RepeatPlan(c, s, k, seed, repeats)
  {
    if n < repeats {
      RepeatPrefix(c, s, k, seed, n, repeats - 1);
    }
  }

  lemma RepeatStep(c: nat, s: Split, k: nat, seed: int, n: nat, repeats: nat, one: seq<Spec>)
    requires n < repeats && one <= [Spec(c, s, k, seed, n + 1)]
    ensures RepeatPlan(c, s, k, seed, n) + one <= RepeatPlan(c, s, k, seed, repeats)
    ensures one == [Spec(c, s, k, seed, n + 1)] ==>
      RepeatPlan(c, s, k, seed, n) + one == RepeatPlan(c, s, k, seed, n + 1)
  {
    RepeatPrefix(c, s, k, seed, n + 1, repeats);
    ExtendWithin(RepeatPlan(c, s, k, seed, n), one, [Spec(c, s, k, seed, n + 1)], RepeatPlan(c, s, k, seed, repeats));
  }

  lemma NextRepeat(results: nat -> Result, budget: real, st: State, c: nat, s: Split, k: nat, seed: int, n: nat,
                   repeats: nat, one: seq<Spec>)
    requires n < repeats && one <= [Spec(c, s, k, seed, n + 1)]
    ensures var done := RepeatPlan(c, s, k, seed, n);
      && Fold(results, budget, st, done + one) == Fold(results, budget, Fold(results, budget, st, done), one)
      && done + one <= RepeatPlan(c, s, k, seed, repeats)
      && (one == [Spec(c, s, k, seed, n + 1)] ==> done + one == RepeatPlan(c, s, k, seed, n + 1))
  {
    FoldConcat(results, budget, st, RepeatPlan(c, s, k, seed, n), one);
    RepeatStep(c, s, k, seed, n, repeats, one);
  }

  function PerSeed(c: nat, s: Split, k: nat, repeats: nat): int -> seq<Spec> {
    (seed: int) => RepeatPlan(c, s, k, seed, repeats)
  }

  function PerCase(c: nat, s: Split, seeds: seq<int>, repeats: nat): nat -> seq<Spec> {
    (k: nat) => Flat(seeds, PerSeed(c, s, k, repeats))
  }

  /** The cases of each split, in the order of the splits. */
  type Dataset = seq<(Split, seq<nat>)>

  function PerSplit(c: nat, seeds: seq<int>, repeats: nat): ((Split, seq<nat>)) -> seq<Spec> {
    (d: (Split, seq<nat>)) => Flat(d.1, PerCase(c, d.0, seeds, repeats))
  }

  datatype Candidate = Candidate(id: nat, isBase: bool)

  function PerCandidate(data: Dataset, seeds: seq<int>, repeats: nat): Candidate -> seq<Spec> {
    (c: Candidate) => Flat(data, PerSplit(c.id, seeds, repeats))
  }

  // ---------------------------------------------------------------- the calls made

  datatype Event = Checked | Create(id: nat, spec: Spec) | Finish(id: nat) | RecordGate(candidate: nat, passed: bool)

  /** The trial that has been created and not yet finished. */
  function Open(log: seq<Event>): Option<nat> {
    if log != [] && log[|log| - 1].Create? then Some(log[|log| - 1].id) else None
  }

  function Created(log: seq<Event>): seq<Event> {
    if log == [] then []
    else Created(log[..|log| - 1]) + (if log[|log| - 1].Create? then [log[|log| - 1]] else [])
  }

  /** What the created trials are. */
  function CreatedSpecs(log: seq<Event>): seq<Spec> {
    if log == [] then []
    else CreatedSpecs(log[..|log| - 1]) + (if log[|log| - 1].Create? then [log[|log| - 1].spec] else [])
  }

  function Finished(log: seq<Event>): seq<nat> {
    if log == [] then []
    else Finished(log[..|log| - 1]) + (if log[|log| - 1].Finish? then [log[|log| - 1].id] else [])
  }

  /** How many checks for a cancellation were made. */
  function ChecksIn(log: seq<Event>): nat {
    if log == [] then 0 else ChecksIn(log[..|log| - 1]) + (if log[|log| - 1].Checked? then 1 else 0)
  }

  /** The last call was a check. */
  predicate JustChecked(log: seq<Event>) { log != [] && log[|log| - 1].Checked? }

  /** What has been spent after the first `n` trials. */
  function Spent(results: nat -> Result, initial: real, n: nat): real {
    if n == 0 then initial else Spent(results, initial, n - 1) + results(n - 1).cost
  }

  /** The protocol: checks and gates happen between trials only, trials are numbered in order, finished right after
      they were created, and created only right after a check and while the budget is not used up. */
  predicate Protocol(results: nat -> Result, initial: real, budget: real, log: seq<Event>) {
    log == [] ||
    (var before := log[..|log| - 1];
     && Protocol(results, initial, budget, before)
     && match log[|log| - 1]
        case Checked => Open(before).None?
        case Create(id, _) =>
          JustChecked(before) && Open(before).None? && id == |Created(before)| && Spent(results, initial, id) < budget
        case Finish(id) => Open(before) == Some(id)
        case RecordGate(_, _) => Open(before).None?)
  }

  lemma LogSnoc(log: seq<Event>, e: Event)
    ensures (log + [e])[..|log + [e]| - 1] == log && (log + [e])[|log + [e]| - 1] == e
    ensures Created(log + [e]) == Created(log) + (if e.Create? then [e] else [])
    ensures CreatedSpecs(log + [e]) == CreatedSpecs(log) + (if e.Create? then [e.spec] else [])
    ensures Open(log + [e]) == if e.Create? then Some(e.id) else None
    ensures ChecksIn(log + [e]) == ChecksIn(log) + (if e.Checked? then 1 else 0)
  {}

  lemma LogBetweenTrials(results: nat -> Result, initial: real, budget: real, log: seq<Event>, e: Event)
    requires Protocol(results, initial, budget, log) && Open(log).None? && (e.Checked? || e.RecordGate?)
    ensures Protocol(results, initial, budget, log + [e]) && Open(log + [e]).None?
    ensures Created(log + [e]) == Created(log) && CreatedSpecs(log + [e]) == CreatedSpecs(log)
    ensures ChecksIn(log + [e]) == ChecksIn(log) + (if e.Checked? then 1 else 0)
  {
    LogSnoc(log, e);
  }

  lemma LogCreate(results: nat -> Result, initial: real, budget: real, log: seq<Event>, id: nat, spec: Spec)
    requires Protocol(results, initial, budget, log) && Open(log).None? && JustChecked(log)
    requires id == |Created(log)| && Spent(results, initial, id) < budget
    ensures Protocol(results, initial, budget, log + [Create(id, spec)]) && Open(log + [Create(id, spec)]) == Some(id)
    ensures |Created(log + [Create(id, spec)])| == id + 1
      && CreatedSpecs(log + [Create(id, spec)]) == CreatedSpecs(log) + [spec]
    ensures ChecksIn(log + [Create(id, spec)]) == ChecksIn(log)
  {
    LogSnoc(log, Create(id, spec));
  }

  lemma LogFinish(results: nat -> Result, initial: real, budget: real, log: seq<Event>, id: nat)
    requires Protocol(results, initial, budget, log) && Open(log) == Some(id)
    ensures Protocol(results, initial, budget, log + [Finish(id)]) && Open(log + [Finish(id)]).None?
    ensures Created(log + [Finish(id)]) == Created(log) && CreatedSpecs(log + [Finish(id)]) == CreatedSpecs(log)
    ensures ChecksIn(log + [Finish(id)]) == ChecksIn(log)
  {
    LogSnoc(log, Finish(id));
  }

  /** Every trial that was created has been finished exactly once, in order, except for the one that is
      still open. */
  lemma {:induction false} EveryTrialIsFinishedOnce(results: nat -> Result, initial: real, budget: real,
                                                    log: seq<Event>, k: nat)
    requires Protocol(results, initial, budget, log)
    ensures |Created(log)| == |Finished(log)| + (if Open(log).Some? then 1 else 0)
    ensures Open(log).Some? ==> Open(log).value == |Finished(log)|
    ensures k < |Created(log)| ==> Created(log)[k].Create? && Created(log)[k].id == k
    ensures k < |Finished(log)| ==> Finished(log)[k] == k
  {
    if log != [] {
      EveryTrialIsFinishedOnce(results, initial, budget, log[..|log| - 1], k);
    }
  }

  /** At every check, every trial created so far has been finished exactly once. */
  lemma {:induction false} NothingOpenAtChecks(results: nat -> Result, initial: real, budget: real, log: seq<Event>,
                                               i: nat, k: nat)
    requires Protocol(results, initial, budget, log) && i < |log| && log[i].Checked?
    ensures |Created(log[..i])| == |Finished(log[..i])|
    ensures k < |Finished(log[..i])| ==>
      Finished(log[..i])[k] == k && Created(log[..i])[k].Create? && Created(log[..i])[k].id == k
  {
    var n := |log| - 1;
    if i < n {
      assert log[..n][..i] == log[..i];
      NothingOpenAtChecks(results, initial, budget, log[..n], i, k);
    } else {
      EveryTrialIsFinishedOnce(results, initial, budget, log[..i], k);
    }
  }

  /** A trial is created only when what the earlier ones cost is below the budget. */
  lemma {:induction false} CreatedWithinBudget(results: nat -> Result, initial: real, budget: real, log: seq<Event>,
                                               k: nat)
    requires Protocol(results, initial, budget, log) && k < |Created(log)|
    ensures Spent(results, initial, k) < budget
  {
    var before := log[..|log| - 1];
    if k < |Created(before)| {
      CreatedWithinBudget(results, initial, budget, before, k);
    }
  }

  /** So a run overspends by less than one trial. */
  lemma OverspendsByOneTrial(results: nat -> Result, initial: real, budget: real, log: seq<Event>, most: real)
    requires Protocol(results, initial, budget, log)
    requires forall i: nat :: results(i).cost <= most
    ensures var spent := Spent(results, initial, |Created(log)|);
      spent == initial || spent < budget + most
  {
    var n := |Created(log)|;
    if n > 0 {
      CreatedWithinBudget(results, initial, budget, log, n - 1);
      assert results(n - 1).cost <= most;
    }
  }

  // ---------------------------------------------------------------- the runner

  datatype Stop = Going | Cancelled | CallFailed

  /** What the checks report, by their number, and which calls fail, by the trial that they are made for. */
  datatype Calls = Calls(cancelled: nat -> bool, createFails: nat -> bool, finishFails: nat -> bool)

  /** `f` is false from `a` up to `b`. */
  predicate NoneOf(f: nat -> bool, a: nat, b: nat)
    decreases b
  {
    a < b ==> !f(b - 1) && NoneOf(f, a, b - 1)
  }

  lemma {:induction false} NoneOfEither(f: nat -> bool, a: nat, b: nat, c: nat)
    requires a <= b <= c && NoneOf(f, a, b) && NoneOf(f, b, c)
    ensures NoneOf(f, a, c)
  {
    if b < c {
      NoneOfEither(f, a, b, c - 1);
    }
  }

  lemma {:induction false} NoneOfAt(f: nat -> bool, a: nat, b: nat, i: nat)
    requires NoneOf(f, a, b) && a <= i < b
    ensures !f(i)
  {
    if i < b - 1 {
      NoneOfAt(f, a, b - 1, i);
    }
  }

  /** Why the runner stopped with `d` checks made and `m` trials created, or that it did not, since there were `c` and
      `n`: it goes on as long as no check reports a cancellation and no call fails, and stops with the first that
      does. */
  predicate StoppedBy(calls: Calls, stop: Stop, c: nat, n: nat, d: nat, m: nat) {
    && c <= d && n <= m && NoneOf(calls.createFails, n, m)
    && match stop
       case Going => NoneOf(calls.cancelled, c, d) && NoneOf(calls.finishFails, n, m)
       case Cancelled => c < d && calls.cancelled(d - 1) && NoneOf(calls.cancelled, c, d - 1) &&
         NoneOf(calls.finishFails, n, m)
       case CallFailed => NoneOf(calls.cancelled, c, d) && FailedWith(calls, n, m)
  }

  /** The last trial could not be finished, or the next one not created. */
  predicate FailedWith(calls: Calls, n: nat, m: nat) {
    if n < m && calls.finishFails(m - 1) then NoneOf(calls.finishFails, n, m - 1)
    else calls.createFails(m) && NoneOf(calls.finishFails, n, m)
  }

  lemma GoesOn(calls: Calls, stop: Stop, c: nat, n: nat, d: nat, m: nat, e: nat, k: nat)
    requires StoppedBy(calls, Going, c, n, d, m) && StoppedBy(calls, stop, d, m, e, k)
    ensures StoppedBy(calls, stop, c, n, e, k)
  {
    NoneOfEither(calls.createFails, n, m, k);
    var f := if stop.CallFailed? && m < k && calls.finishFails(k - 1) then k - 1 else k;
    NoneOfEither(calls.finishFails, n, m, f);
    NoneOfEither(calls.cancelled, c, d, if stop.Cancelled? then e - 1 else e);
  }

  class Runner {
    const results: nat -> Result
    const calls: Calls
    const initial: real
    const budget: real
    var spent: real
    var created: seq<Spec>
    var tally: Tally
    var log: seq<Event>
    var checks: nat

    /** The experiment's own settings; a missing or zero budget counts as a half. */
    constructor (results: nat -> Result, calls: Calls, spentCny: Option<real>, budgetCny: Option<real>)
      ensures Valid() && log == [] && created == [] && tally == NO_TRIALS && checks == 0
      ensures this.results == results && this.calls == calls
      ensures spent == initial == (if spentCny.None? then 0.0 else spentCny.value)
      ensures budget == if budgetCny.None? || budgetCny.value == 0.0 then 0.5 else budgetCny.value
    {
      this.results, this.calls := results, calls;
      var start := if spentCny.None? then 0.0 else spentCny.value;
      initial := start;
      spent := start;
      budget := if budgetCny.None? || budgetCny.value == 0.0 then 0.5 else budgetCny.value;
      created, tally, log, checks := [], NO_TRIALS, [], 0;
    }

    ghost predicate Valid()
      reads this
    {
      && Protocol(results, initial, budget, log)
      && |Created(log)| == |created| && CreatedSpecs(log) == created
      && spent == Spent(results, initial, |created|) && checks == ChecksIn(log)
    }

    /** Between trials. */
    ghost predicate Idle()
      reads this
    {
      Valid() && Open(log).None?
    }

    function Current(): State
      reads this
    {
      State(spent, created, tally)
    }

    /** `check_pause_or_cancel` */
    method Check() returns (ok: bool)
      requires Idle()
      modifies this`log, this`checks
      ensures Idle() && ok == !calls.cancelled(old(checks)) && checks == old(checks) + 1 && JustChecked(log)
    {
      ok := !calls.cancelled(checks);
      checks := checks + 1;
      LogBetweenTrials(results, initial, budget, log, Checked);
      log := log + [Checked];
    }

    /** `record_gate` */
    method Record(candidate: nat, passed: bool)
      requires Idle()
      modifies this`log
      ensures Idle() && log == old(log) + [RecordGate(candidate, passed)]
    {
      LogBetweenTrials(results, initial, budget, log, RecordGate(candidate, passed));
      log := log + [RecordGate(candidate, passed)];
    }

    /** A trial has been created that is not yet accounted for. */
    ghost predicate Pending(spec: Spec)
      reads this
    {
      && Protocol(results, initial, budget, log) && Open(log) == Some(|created|)
      && |Created(log)| == |created| + 1 && CreatedSpecs(log) == created + [spec]
      && spent == Spent(results, initial, |created|) && checks == ChecksIn(log)
    }

    /** `create_trial` */
    method CreateTrial(spec: Spec) returns (ok: bool)
      requires Idle() && spent < budget && JustChecked(log)
      modifies this`log
      ensures ok == !calls.createFails(|created|)
      ensures if ok then Pending(spec) else Idle() && log == old(log)
    {
      var id := |created|;
      ok := !calls.createFails(id);
      if ok {
        LogCreate(results, initial, budget, log, id, spec);
        log := log + [Create(id, spec)];
      }
    }

    /** `run_trial`, whose result is added to what was spent and to the candidate's tally. */
    method Account(spec: Spec)
      requires Pending(spec) && spent < budget
      modifies this`spent, this`created, this`tally
      ensures Valid() && Open(log) == Some(|created| - 1)
      ensures Current() == Fold(results, budget, old(Current()), [spec])
    {
      var result := results(|created|);
      FoldOne(results, budget, Current(), spec);
      spent := spent + result.cost;
      tally := Add(tally, spec.split, result);
      created := created + [spec];
    }

    /** `finish_trial` */
    method FinishTrial(id: nat) returns (ok: bool)
      requires Valid() && Open(log) == Some(id)
      modifies this`log
      ensures Valid() && (ok ==> Idle()) && ok == !calls.finishFails(id)
    {
      ok := !calls.finishFails(id);
      if ok {
        LogFinish(results, initial, budget, log, id);
        log := log + [Finish(id)];
      }
    }

    /** One trial: created, run, accounted for and finished. */
    method RunOne(spec: Spec) returns (stop: Stop, ghost done: seq<Spec>)
      requires Idle() && spent < budget && JustChecked(log)
      modifies this`spent, this`created, this`tally, this`log
      ensures Valid() && (stop.Going? ==> Idle() && done == [spec])
      ensures StoppedBy(calls, stop, checks, old(|created|), checks, |created|)
      ensures done <= [spec] && Current() == Fold(results, budget, old(Current()), done)
    {
      var ok := CreateTrial(spec);
      if !ok {
        return CallFailed, [];
      }
      Account(spec);
      ok := FinishTrial(|created| - 1);
      return if ok then Going else CallFailed, [spec];
    }

    /** The check, the test of the budget, and the trial unless the budget is used up. */
    method Attempt(spec: Spec) returns (stop: Stop, used: bool, ghost done: seq<Spec>)
      requires Idle()
      modifies this
      ensures Valid() && (stop.Going? ==> Idle()) && checks == old(checks) + 1
      ensures used ==> stop.Going? && spent >= budget
      ensures done <= (if used then [] else [spec]) && (stop.Going? && !used ==> done == [spec])
      ensures Current() == Fold(results, budget, old(Current()), done)
      ensures old(spent) >= budget ==> used || !stop.Going?
      ensures StoppedBy(calls, stop, old(checks), old(|created|), checks, |created|)
    {
      var ok := Check();
      if !ok {
        return Cancelled, false, [];
      }
      if spent >= budget {
        return Going, true, [];
      }
      stop, done := RunOne(spec);
      used := false;
    }

    /** The loop over the repetitions. */
    method RunRepeats(c: nat, s: Split, k: nat, seed: int, repeats: nat) returns (stop: Stop, ghost done: seq<Spec>)
      requires Idle()
      modifies this
      ensures Valid() && (stop.Going? ==> Idle() && done == RepeatPlan(c, s, k, seed, repeats))
      ensures done <= RepeatPlan(c, s, k, seed, repeats)
      ensures Current() == Fold(results, budget, old(Current()), done)
      ensures old(spent) >= budget ==> checks <= old(checks) + 1
      ensures StoppedBy(calls, stop, old(checks), old(|created|), checks, |created|)
    {
      stop, done := Going, [];
      ghost var start := Current();
      for n := 0 to repeats
        invariant Idle() && done == RepeatPlan(c, s, k, seed, n)
        invariant start.spent >= budget ==> n == 0 && checks == old(checks)
        invariant Current() == Fold(results, budget, start, done)
        invariant stop.Going? && StoppedBy(calls, stop, old(checks), old(|created|), checks, |created|)
      {
        RepeatPrefix(c, s, k, seed, n, repeats);
        ghost var one, c0, n0 := [], checks, |created|;
        var used;
        stop, used, one := Attempt(Spec(c, s, k, seed, n + 1));
        GoesOn(calls, stop, old(checks), old(|created|), c0, n0, checks, |created|);
        if used {
          BreakHere(results, budget, start, done, RepeatPlan(c, s, k, seed, repeats));
          return Going, RepeatPlan(c, s, k, seed, repeats);
        }
        NextRepeat(results, budget, start, c, s, k, seed, n, repeats, one);
        done := done + one;
        if !stop.Going? {
          return;
        }
      }
    }

    /** The loop over the seeds. */
    method RunSeeds(c: nat, s: Split, k: nat, seeds: seq<int>, repeats: nat) returns (stop: Stop, ghost done: seq<Spec>)
      requires Idle()
      modifies this
      ensures Valid() && (stop.Going? ==> Idle() && done == PerCase(c, s, seeds, repeats)(k))
      ensures done <= PerCase(c, s, seeds, repeats)(k)
      ensures Current() == Fold(results, budget, old(Current()), done)
      ensures old(spent) >= budget ==> checks <= old(checks) + 1
      ensures StoppedBy(calls, stop, old(checks), old(|created|), checks, |created|)
    {
      stop, done := Going, [];
      ghost var start, f := Current(), PerSeed(c, s, k, repeats);
      for i := 0 to |seeds|
        invariant Idle() && done == Flat(seeds[..i], f)
        invariant start.spent >= budget ==> i == 0 && checks == old(checks)
        invariant Current() == Fold(results, budget, start, done)
        invariant stop.Going? && StoppedBy(calls, stop, old(checks), old(|created|), checks, |created|)
      {
        FlatNext(seeds, f, i);
        FlatPrefix(seeds, f, i + 1);
        ghost var more, c0, n0 := [], checks, |created|;
        stop, more := RunRepeats(c, s, k, seeds[i], repeats);
        GoesOn(calls, stop, old(checks), old(|created|), c0, n0, checks, |created|);
        FoldConcat(results, budget, start, done, more);
        ExtendWithin(done, more, f(seeds[i]), Flat(seeds, f));
        done := done + more;
        if !stop.Going? {
          return;
        }
        StaysSpent(results, budget, start, done);
        if spent >= budget {
          BreakHere(results, budget, start, done, Flat(seeds, f));
          return Going, Flat(seeds, f);
        }
      }
      assert seeds[..|seeds|] == seeds;
    }

    /** The loop over the cases of a split. */
    method RunCases(c: nat, s: Split, cases: seq<nat>, seeds: seq<int>, repeats: nat)
      returns (stop: Stop, ghost done: seq<Spec>)
      requires Idle()
      modifies this
      ensures Valid() && (stop.Going? ==> Idle() && done == PerSplit(c, seeds, repeats)((s, cases)))
      ensures done <= PerSplit(c, seeds, repeats)((s, cases))
      ensures Current() == Fold(results, budget, old(Current()), done)
      ensures old(spent) >= budget ==> checks <= old(checks) + 1
      ensures StoppedBy(calls, stop, old(checks), old(|created|), checks, |created|)
    {
      stop, done := Going, [];
      ghost var start, f := Current(), PerCase(c, s, seeds, repeats);
      for i := 0 to |cases|
        invariant Idle() && done == Flat(cases[..i], f)
        invariant start.spent >= budget ==> i == 0 && checks == old(checks)
        invariant Current() == Fold(results, budget, start, done)
        invariant stop.Going? && StoppedBy(calls, stop, old(checks), old(|created|), checks, |created|)
      {
        FlatNext(cases, f, i);
        FlatPrefix(cases, f, i + 1);
        ghost var more, c0, n0 := [], checks, |created|;
        stop, more := RunSeeds(c, s, cases[i], seeds, repeats);
        GoesOn(calls, stop, old(checks), old(|created|), c0, n0, checks, |created|);
        FoldConcat(results, budget, start, done, more);
        ExtendWithin(done, more, f(cases[i]), Flat(cases, f));
        done := done + more;
        if !stop.Going? {
          return;
        }
        StaysSpent(results, budget, start, done);
        if spent >= budget {
          BreakHere(results, budget, start, done, Flat(cases, f));
          return Going, Flat(cases, f);
        }
      }
      assert cases[..|cases|] == cases;
    }

    /** The loop over the splits. */
    method RunSplits(c: Candidate, data: Dataset, seeds: seq<int>, repeats: nat)
      returns (stop: Stop, ghost done: seq<Spec>)
      requires Idle()
      modifies this
      ensures Valid() && (stop.Going? ==> Idle() && done == PerCandidate(data, seeds, repeats)(c))
      ensures done <= PerCandidate(data, seeds, repeats)(c)
      ensures Current() == Fold(results, budget, old(Current()), done)
      ensures old(spent) >= budget ==> checks <= old(checks) + 1
      ensures StoppedBy(calls, stop, old(checks), old(|created|), checks, |created|)
    {
      stop, done := Going, [];
      ghost var start, f := Current(), PerSplit(c.id, seeds, repeats);
      for i := 0 to |data|
        invariant Idle() && done == Flat(data[..i], f)
        invariant start.spent >= budget ==> i == 0 && checks == old(checks)
        invariant Current() == Fold(results, budget, start, done)
        invariant stop.Going? && StoppedBy(calls, stop, old(checks), old(|created|), checks, |created|)
      {
        FlatNext(data, f, i);
        FlatPrefix(data, f, i + 1);
        ghost var more, c0, n0 := [], checks, |created|;
        stop, more := RunCases(c.id, data[i].0, data[i].1, seeds, repeats);
        GoesOn(calls, stop, old(checks), old(|created|), c0, n0, checks, |created|);
        FoldConcat(results, budget, start, done, more);
        ExtendWithin(done, more, f(data[i]), Flat(data, f));
        done := done + more;
        if !stop.Going? {
          return;
        }
        StaysSpent(results, budget, start, done);
        if spent >= budget {
          BreakHere(results, budget, start, done, Flat(data, f));
          return Going, Flat(data, f);
        }
      }
      assert data[..|data|] == data;
    }

    /** One candidate: its trials and, unless it is the base, its gate. */
    method RunCandidate(c: Candidate, data: Dataset, seeds: seq<int>, repeats: nat, before: Option<Report>)
      returns (stop: Stop, last: Option<Report>)
      requires Idle()
      modifies this
      ensures Valid() && (stop.Going? ==> Idle())
      ensures stop.Going? ==> Current() == AfterOne(results, budget, old(Current()), c, data, seeds, repeats)
      ensures stop.Going? ==> last == if c.isBase then before else Some(GateOf(Current(), budget))
      ensures StoppedBy(calls, stop, old(checks), old(|created|), checks, |created|)
      ensures stop.Going? && !c.isBase ==> log != [] && log[|log| - 1] == RecordGate(c.id, last.value.passed)
      ensures exists done ::
        && done <= PerCandidate(data, seeds, repeats)(c)
        && SameTrials(Current(), Fold(results, budget, old(Current()), done))
    {
      last := before;
      ghost var start := Current();
      var ok := Check();
      if !ok {
        FoldNothing(results, budget, start, PerCandidate(data, seeds, repeats)(c));
        return Cancelled, last;
      }
      tally := NO_TRIALS;
      ghost var done, c0, n0 := [], checks, |created|;
      stop, done := RunSplits(c, data, seeds, repeats);
      GoesOn(calls, stop, old(checks), old(|created|), c0, n0, checks, |created|);
      TallyIsSeparate(results, budget, start.(tally := NO_TRIALS), start, done);
      assert SameTrials(Current(), Fold(results, budget, start, done));
      if !stop.Going? || c.isBase {
        return;
      }
      var gate := GateOf(Current(), budget);
      Record(c.id, gate.passed);
      last := Some(gate);
    }

    /** `run` */
    method Run(candidates: seq<Candidate>, data: Dataset, seeds: seq<int>, repeats: nat)
      returns (stop: Stop, last: Option<Report>)
      requires Idle()
      modifies this
      ensures Valid() && (stop.Going? ==> Idle())
      ensures stop.Going? ==> Current() == After(results, budget, old(Current()), candidates, data, seeds, repeats)
      ensures stop.Going? ==> last == LastGate(results, budget, old(Current()), candidates, data, seeds, repeats)
      ensures StoppedBy(calls, stop, old(checks), old(|created|), checks, |created|)
      ensures exists done ::
        && done <= Flat(candidates, PerCandidate(data, seeds, repeats))
        && SameTrials(Current(), Fold(results, budget, old(Current()), done))
    {
      stop, last := Going, None;
      ghost var start, f := Current(), PerCandidate(data, seeds, repeats);
      ghost var covered: seq<Spec> := [];
      for i := 0 to |candidates|
        invariant Idle() && stop.Going?
        invariant Current() == After(results, budget, start, candidates[..i], data, seeds, repeats)
        invariant last == LastGate(results, budget, start, candidates[..i], data, seeds, repeats)
        invariant stop.Going? && StoppedBy(calls, stop, old(checks), old(|created|), checks, |created|)
        invariant covered == Flat(candidates[..i], f) && SameTrials(Current(), Fold(results, budget, start, covered))
      {
        assert candidates[..i + 1][..i] == candidates[..i];
        FlatNext(candidates, f, i);
        FlatPrefix(candidates, f, i + 1);
        ghost var before := Current();
        ghost var c0, n0 := checks, |created|;
        stop, last := RunCandidate(candidates[i], data, seeds, repeats, last);
        GoesOn(calls, stop, old(checks), old(|created|), c0, n0, checks, |created|);
        ghost var done :| done <= f(candidates[i]) && SameTrials(Current(), Fold(results, budget, before, done));
        Covered(results, budget, start, covered, before, done, Current());
        ExtendWithin(covered, done, f(candidates[i]), Flat(candidates, f));
        if !stop.Going? {
          assert covered + done <= Flat(candidates, f);
          return;
        }
        WholeCandidate(results, budget, start, covered, before, candidates[i], data, seeds, repeats);
        covered := covered + f(candidates[i]);
      }
      assert candidates[..|candidates|] == candidates;
    }
  }

  /** The same trials and the same spending. */
  predicate SameTrials(a: State, b: State) {
    a.spent == b.spent && a.created == b.created
  }

  lemma FoldNothing(results: nat -> Result, budget: real, st: State, plan: seq<Spec>)
    ensures [] <= plan && SameTrials(st, Fold(results, budget, st, []))
  {}

  /** What is created and spent does not depend on the tally. */
  lemma {:induction false} TallyIsSeparate(results: nat -> Result, budget: real, a: State, b: State, plan: seq<Spec>)
    requires SameTrials(a, b)
    ensures SameTrials(Fold(results, budget, a, plan), Fold(results, budget, b, plan))
  {
    if plan != [] {
      TallyIsSeparate(results, budget, a, b, plan[..|plan| - 1]);
    }
  }

  lemma Covered(results: nat -> Result, budget: real, start: State, covered: seq<Spec>, before: State, done: seq<Spec>,
                now: State)
    requires SameTrials(before, Fold(results, budget, start, covered))
      && SameTrials(now, Fold(results, budget, before, done))
    ensures SameTrials(now, Fold(results, budget, start, covered + done))
  {
    FoldConcat(results, budget, start, covered, done);
    TallyIsSeparate(results, budget, before, Fold(results, budget, start, covered), done);
  }

  lemma WholeCandidate(results: nat -> Result, budget: real, start: State, covered: seq<Spec>, before: State,
                       c: Candidate, data: Dataset, seeds: seq<int>, repeats: nat)
    requires SameTrials(before, Fold(results, budget, start, covered))
    ensures SameTrials(AfterOne(results, budget, before, c, data, seeds, repeats),
                       Fold(results, budget, start, covered + PerCandidate(data, seeds, repeats)(c)))
  {
    var plan := PerCandidate(data, seeds, repeats)(c);
    TallyIsSeparate(results, budget, before.(tally := NO_TRIALS), before, plan);
    Covered(results, budget, start, covered, before, plan, Fold(results, budget, before, plan));
  }

  /** The state after one candidate, whose tally starts afresh. */
  function AfterOne(results: nat -> Result, budget: real, st: State, c: Candidate, data: Dataset, seeds: seq<int>,
                    repeats: nat): State
  {
    Fold(results, budget, st.(tally := NO_TRIALS), PerCandidate(data, seeds, repeats)(c))
  }

  function After(results: nat -> Result, budget: real, st: State, candidates: seq<Candidate>, data: Dataset,
                 seeds: seq<int>, repeats: nat): State
  {
    if candidates == [] then st
    else
      AfterOne(results, budget, After(results, budget, st, candidates[..|candidates| - 1], data, seeds, repeats),
               candidates[|candidates| - 1], data, seeds, repeats)
  }

  function OrZero(rewards: seq<real>): seq<real> {
    if rewards == [] then [0.0] else rewards
  }

  /** The gate of a candidate. What it is compared with are its own rewards: on the gate split, or else on
      the evaluation split, or else zero. */
  function GateOf(st: State, budget: real): Report {
    var t := st.tally;
    var champion := if t.gate != [] then t.gate else OrZero(t.eval);
    var timeoutRate := t.timeouts as real / (if t.total == 0 then 1 else t.total) as real;
    EvaluatePaired(champion, OrZero(t.gate), t.violations, 0, timeoutRate, st.spent, budget).value
  }

  function LastGate(results: nat -> Result, budget: real, st: State, candidates: seq<Candidate>, data: Dataset,
                    seeds: seq<int>, repeats: nat): Option<Report>
  {
    if candidates == [] then None
    else
      var init, c := candidates[..|candidates| - 1], candidates[|candidates| - 1];
      if c.isBase then LastGate(results, budget, st, init, data, seeds, repeats)
      else
        var before := After(results, budget, st, init, data, seeds, repeats);
        Some(GateOf(AfterOne(results, budget, before, c, data, seeds, repeats), budget))
  }

  lemma FoldOne(results: nat -> Result, budget: real, st: State, spec: Spec)
    ensures Fold(results, budget, st, [spec]) == Step(results, budget, st, spec)
  {
    assert [] + [spec] == [spec];
    FoldSnoc(results, budget, st, [], spec);
  }

  lemma ExtendWithin(done: seq<Spec>, more: seq<Spec>, item: seq<Spec>, plan: seq<Spec>)
    requires more <= item && done + item <= plan
    ensures done + more <= plan
  {}

  // ---------------------------------------------------------------- what a run creates

  /** What `m` trials cost, counting from trial `from`. */
  function CostOf(results: nat -> Result, from: nat, m: nat): real {
    if m == 0 then 0.0 else CostOf(results, from, m - 1) + results(from + m - 1).cost
  }

  /** A plan is run up to the first trial at which the budget is used up, and no further. */
  lemma {:induction false} PlanIsCutAtBudget(results: nat -> Result, budget: real, st: State, plan: seq<Spec>)
    returns (m: nat)
    ensures m <= |plan|
    ensures var r := Fold(results, budget, st, plan);
      && r.created == st.created + plan[..m]
      && r.spent == st.spent + CostOf(results, |st.created|, m)
      && (m < |plan| ==> r.spent >= budget)
    ensures forall j :: 0 <= j < m ==> st.spent + CostOf(results, |st.created|, j) < budget
  {
    if plan == [] {
      m := 0;
      assert st.created + plan[..0] == st.created;
    } else {
      var init := plan[..|plan| - 1];
      m := PlanIsCutAtBudget(results, budget, st, init);
      assert init[..m] == plan[..m];
      var r := Fold(results, budget, st, init);
      if r.spent < budget {
        assert m == |init|;
        assert plan[..m + 1] == init[..m] + [plan[m]];
        m := m + 1;
      }
    }
  }

  /** The rewards of a candidate are those of its trials, one each. */
  lemma {:induction false} TallyCountsTrials(results: nat -> Result, budget: real, st: State, plan: seq<Spec>)
    ensures var t, u := Fold(results, budget, st, plan).tally, st.tally;
      && t.total - u.total == |Fold(results, budget, st, plan).created| - |st.created|
      && |t.eval| + |t.gate| + |t.safety| - t.total == |u.eval| + |u.gate| + |u.safety| - u.total
      && t.timeouts - u.timeouts <= t.total - u.total
  {
    if plan != [] {
      TallyCountsTrials(results, budget, st, plan[..|plan| - 1]);
    }
  }

  /** The reward gate of a run passes exactly when the candidate has no gate rewards and its first
      evaluation reward is negative: whenever there are gate rewards they are compared with themselves. */
  lemma RunGatePassesExactlyWhen(st: State, budget: real)
    ensures GateOf(st, budget).rewardGate <==> st.tally.gate == [] && st.tally.eval != [] && st.tally.eval[0] < 0.0
  {
    var t := st.tally;
    var rate := t.timeouts as real / (if t.total == 0 then 1 else t.total) as real;
    if t.gate != [] {
      NothingBeatsItself(t.gate, t.violations, 0, rate, st.spent, budget);
    } else {
      OneDelta(OrZero(t.eval));
      RewardGateExactlyWhen(OrZero(t.eval), [0.0], t.violations, 0, rate, st.spent, budget);
    }
  }

  lemma OneDelta(champion: seq<real>)
    requires champion != []
    ensures |Deltas(champion, [0.0])| == 1
    ensures NonPositive(Deltas(champion, [0.0])) == if champion[0] < 0.0 then 0 else 1
  {
    assert [0.0][1..] == [];
    assert Deltas(champion, [0.0]) == [0.0 - champion[0]];
    assert [0.0 - champion[0]][1..] == [];
  }

  lemma FlatOne<T>(x: T, f: T -> seq<Spec>)
    ensures Flat([x], f) == f(x)
  {
    assert [x][..0] == [];
    assert Flat([x], f) == [] + f(x);
  }

  /** A candidate that was tried once, on the evaluation split, and was given a negative reward passes. */
  lemma NegativeRewardPasses(results: nat -> Result, budget: real, st: State, c: Candidate, k: nat, seed: int)
    requires !c.isBase && st.spent < budget && results(|st.created|).reward < 0.0
    ensures var last := LastGate(results, budget, st, [c], [(EvalSplit, [k])], [seed], 1);
      last.Some? && last.value.rewardGate
  {
    var data, spec: seq<Spec> := [(EvalSplit, [k])], [Spec(c.id, EvalSplit, k, seed, 1)];
    FlatOne((EvalSplit, [k]), PerSplit(c.id, [seed], 1));
    FlatOne(k, PerCase(c.id, EvalSplit, [seed], 1));
    FlatOne(seed, PerSeed(c.id, EvalSplit, k, 1));
    OneRepeat(c.id, EvalSplit, k, seed);
    assert PerCandidate(data, [seed], 1)(c) == spec;
    var start := st.(tally := NO_TRIALS);
    FoldOne(results, budget, start, spec[0]);
    var after := AfterOne(results, budget, st, c, data, [seed], 1);
    assert after.tally.eval == [results(|st.created|).reward] && after.tally.gate == [];
    RunGatePassesExactlyWhen(after, budget);
    LastOfOne(results, budget, st, c, data, [seed], 1);
  }

  lemma OneRepeat(c: nat, s: Split, k: nat, seed: int)
    ensures RepeatPlan(c, s, k, seed, 1) == [Spec(c, s, k, seed, 1)]
  {
    assert RepeatPlan(c, s, k, seed, 0) == [];
  }

  lemma LastOfOne(results: nat -> Result, budget: real, st: State, c: Candidate, data: Dataset, seeds: seq<int>,
                  repeats: nat)
    requires !c.isBase
    ensures LastGate(results, budget, st, [c], data, seeds, repeats) ==
      Some(GateOf(AfterOne(results, budget, st, c, data, seeds, repeats), budget))
  {
    assert [c][..0] == [];
    assert After(results, budget, st, [], data, seeds, repeats) == st;
  }
}
