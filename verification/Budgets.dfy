/**
 The time budget of a policy under the built-in executor, which notices an expired deadline only after
 detecting: exactly how long policies and evaluations take, and exactly when a policy keeps its budget.
 */
module Budgets {
  import opened Common
  import opened Content
  import opened Policy
  import opened Detectors
  import opened Evaluation
  import opened RunFacts
  import opened DecisionFacts

  /** How long the `n`-th detection of a run takes, for a content and a detector. */
  type Durations = (Content, nat, Detector) -> nat

  /** What the first `k` detections of a list take together, the first being the run's `n`-th. */
  function TimeOf(duration: Durations, c: Content, ds: seq<Detector>, n: nat, k: nat): nat
    requires k <= |ds|
    decreases k
  {
    if k == 0 then 0 else duration(c, n, ds[0]) + TimeOf(duration, c, ds[1..], n + 1, k - 1)
  }

  /** How long detections go on that are started one after the other as long as time is left. */
  function SpentUntil(duration: Durations, c: Content, ds: seq<Detector>, n: nat, left: int): nat {
    if ds == [] || left <= 0 then 0
    else duration(c, n, ds[0]) + SpentUntil(duration, c, ds[1..], n + 1, left - duration(c, n, ds[0]))
  }

  /** How many of them are started. */
  function StartedUntil(duration: Durations, c: Content, ds: seq<Detector>, n: nat, left: int): nat {
    if ds == [] || left <= 0 then 0
    else 1 + StartedUntil(duration, c, ds[1..], n + 1, left - duration(c, n, ds[0]))
  }

  /** From this moment on a policy starts no further detection. */
  function Stop(caller: Caller, deadline: int): int {
    if caller.cancelled.Some? then Min(caller.cancelled.value, deadline) else deadline
  }

  lemma BuiltinCallTime(env: Env, sc: Scanner, duration: Durations, p: CompiledPolicy, d: Detector,
                        deadline: int, now: nat, n: nat)
    requires Sound(sc) && env.exec == BuiltinExecutor(sc, duration) && now < deadline && d.timeout > 0
    ensures var a := Attempt(env, p, d, deadline, now, n);
            var ended := now + duration(env.content, n, d);
            && (a.CallerGone? ==> a.at == ended && env.caller.Done(ended))
            && (a.Happened? ==> a.event.ended == ended && (PolicyScoped(a.event) ==> deadline <= ended))
  {
    hide Detected, PolicyID, DurationMilliseconds;
  }

  lemma SpentStep(duration: Durations, c: Content, ds: seq<Detector>, i: nat, n: nat, left: int)
    requires i <= |ds|
    ensures i == |ds| || left <= 0 ==>
              SpentUntil(duration, c, ds[i..], n, left) == 0 && StartedUntil(duration, c, ds[i..], n, left) == 0
    ensures i < |ds| && left > 0 ==>
              var own, rest := duration(c, n, ds[i]), ds[i + 1..];
              && SpentUntil(duration, c, ds[i..], n, left) == own + SpentUntil(duration, c, rest, n + 1, left - own)
              && StartedUntil(duration, c, ds[i..], n, left) == 1 + StartedUntil(duration, c, rest, n + 1, left - own)
  {
    if i < |ds| { assert ds[i..][0] == ds[i] && ds[i..][1..] == ds[i + 1..]; }
  }

  /** A policy with no detector left, or no time to start one, ends where it is. */
  lemma RunStops(env: Env, p: CompiledPolicy, i: nat, deadline: int, now: nat, n: nat)
    requires i <= |p.detectors| && (i == |p.detectors| || env.caller.Done(now) || deadline <= now)
    ensures var run := RunDetectors(env, p, i, deadline, now, n);
            && EndOf(run) == now && (run.Ran? ==> run.calls == n) && (run.Halted? ==> env.caller.Done(run.at))
  {
  }

  lemma RunGoesOn(env: Env, p: CompiledPolicy, i: nat, deadline: int, now: nat, n: nat)
    requires i < |p.detectors| && !env.caller.Done(now) && now < deadline
    ensures var a := Attempt(env, p, p.detectors[i], deadline, now, n);
            var run := RunDetectors(env, p, i, deadline, now, n);
            && (a.CallerGone? ==> run == Halted(a.at))
            && (a.Happened? && PolicyScoped(a.event) ==> run == Ran([a.event], a.event.ended, n + 1))
            && (a.Happened? && !PolicyScoped(a.event) ==>
                  run == After([a.event], RunDetectors(env, p, i + 1, deadline, a.event.ended, n + 1)))
  {
    hide Attempt;
  }

  /**
   With the built-in executor a policy takes exactly the detections that start before its deadline and before
   the caller's context is done, each to its end, whether the policy runs through or is halted.
   */
  lemma {:induction false} BuiltinPolicyTime(env: Env, sc: Scanner, duration: Durations, p: CompiledPolicy, i: nat,
                                             deadline: int, now: nat, n: nat)
    requires Sound(sc) && env.exec == BuiltinExecutor(sc, duration) && i <= |p.detectors|
    requires forall d :: d in p.detectors ==> d.timeout > 0
    requires env.caller.deadline.Some? ==> deadline <= env.caller.deadline.value
    ensures var run := RunDetectors(env, p, i, deadline, now, n);
            var ds, left := p.detectors[i..], Stop(env.caller, deadline) - now;
            && EndOf(run) == now + SpentUntil(duration, env.content, ds, n, left)
            && (run.Ran? ==> run.calls == n + StartedUntil(duration, env.content, ds, n, left))
            && (run.Halted? ==> env.caller.Done(run.at))
    decreases |p.detectors| - i
  {
    hide Attempt, BuiltinExecutor, SpentUntil, StartedUntil, RunDetectors, PolicyScoped, Sound;
    var ds, left := p.detectors, Stop(env.caller, deadline) - now;
    SpentStep(duration, env.content, ds, i, n, left);
    if i == |ds| || env.caller.Done(now) || deadline <= now {
      RunStops(env, p, i, deadline, now, n);
    } else {
      var d := ds[i];
      assert d in ds;
      var later := now + duration(env.content, n, d);
      RunGoesOn(env, p, i, deadline, now, n);
      BuiltinCallTime(env, sc, duration, p, d, deadline, now, n);
      var a := Attempt(env, p, d, deadline, now, n);
      if a.Happened? && !PolicyScoped(a.event) {
        BuiltinPolicyTime(env, sc, duration, p, i + 1, deadline, later, n + 1);
      } else {
        SpentStep(duration, env.content, ds, i + 1, n + 1, Stop(env.caller, deadline) - later);
      }
    }
  }

  /**
   Some number of detections, taken from the first on, fits into what is left, and then nothing more is
   started: there is none, or it is time to stop.
   */
  ghost predicate FitsBudget(duration: Durations, c: Content, ds: seq<Detector>, n: nat, left: int, stop: int) {
    exists k :: 0 <= k <= |ds| && Rests(duration, c, ds, n, left, stop, k)
  }

  predicate Rests(duration: Durations, c: Content, ds: seq<Detector>, n: nat, left: int, stop: int, k: nat)
    requires k <= |ds|
  {
    TimeOf(duration, c, ds, n, k) <= left && (k == |ds| || stop <= TimeOf(duration, c, ds, n, k))
  }

  lemma {:induction false} SpentFits(duration: Durations, c: Content, ds: seq<Detector>, n: nat, left: int, stop: int)
    requires stop <= left && 0 <= left
    ensures SpentUntil(duration, c, ds, n, stop) <= left <==> FitsBudget(duration, c, ds, n, left, stop)
  {
    if ds == [] || stop <= 0 {
      assert Rests(duration, c, ds, n, left, stop, 0);
    } else {
      var first, rest, m := duration(c, n, ds[0]), ds[1..], n + 1;
      if first <= left {
        var l, s := left - first, stop - first;
        SpentFits(duration, c, rest, m, l, s);
        if k :| 0 <= k <= |rest| && Rests(duration, c, rest, m, l, s, k) {
          assert Rests(duration, c, ds, n, left, stop, k + 1);
        }
        if k :| 0 <= k <= |ds| && Rests(duration, c, ds, n, left, stop, k) {
          assert k > 0 && Rests(duration, c, rest, m, l, s, k - 1);
        }
      }
    }
  }

  /**
   The policy time budget, exactly. With the built-in executor a policy is done by its deadline if and only if
   its detections together fit into its budget, or the first of them fit and end when no more may start: at the
   very deadline, or once the caller's context is done. The test needs nothing but the durations.
   */
  lemma BudgetKeptExactly(env: Env, sc: Scanner, duration: Durations, p: CompiledPolicy, started: nat, n: nat)
    requires Sound(sc) && env.exec == BuiltinExecutor(sc, duration) && WellFormed(p) && !env.caller.Done(started)
    ensures var deadline := PolicyDeadline(env.caller, p, started);
            var left, stop := deadline - started, Stop(env.caller, deadline) - started;
            var fits := FitsBudget(duration, env.content, p.detectors, n, left, stop);
            && (EndOf(RunDetectors(env, p, 0, deadline, started, n)) <= deadline <==> fits)
            && (AllInBudget(CallsMade(env, p, 0, deadline, started, n)) <==> fits)
  {
    hide RunDetectors, BuiltinExecutor, FitsBudget, SpentUntil, CallsMade, AllInBudget;
    var deadline := PolicyDeadline(env.caller, p, started);
    DeadlineAhead(env.caller, p, started);
    assert p.detectors[0..] == p.detectors;
    BuiltinPolicyTime(env, sc, duration, p, 0, deadline, started, n);
    PolicyTimeExact(env, p, 0, deadline, started, n);
    SpentFits(duration, env.content, p.detectors, n, deadline - started, Stop(env.caller, deadline) - started);
  }

  /** All detections fit into the budget, or some of them, taken from the first on, fill it to the very end. */
  ghost predicate FitsOrFills(duration: Durations, c: Content, ds: seq<Detector>, n: nat, budget: int) {
    || TimeOf(duration, c, ds, n, |ds|) <= budget
    || exists k :: 0 <= k < |ds| && TimeOf(duration, c, ds, n, k) == budget
  }

  lemma FitsWithoutStop(duration: Durations, c: Content, ds: seq<Detector>, n: nat, budget: int)
    ensures FitsBudget(duration, c, ds, n, budget, budget) <==> FitsOrFills(duration, c, ds, n, budget)
  {
    hide TimeOf;
    if k :| 0 <= k < |ds| && TimeOf(duration, c, ds, n, k) == budget {
      assert Rests(duration, c, ds, n, budget, budget, k);
    }
    if TimeOf(duration, c, ds, n, |ds|) <= budget {
      assert Rests(duration, c, ds, n, budget, budget, |ds|);
    }
  }

  /** Without a caller limit the budget is the policy's timeout, and nothing but the deadline stops detections. */
  lemma BudgetWithoutCaller(env: Env, sc: Scanner, duration: Durations, p: CompiledPolicy, started: nat, n: nat)
    requires Sound(sc) && env.exec == BuiltinExecutor(sc, duration) && WellFormed(p) && env.caller == Caller(None, None)
    ensures EndOf(RunDetectors(env, p, 0, started + p.config.timeout, started, n)) <= started + p.config.timeout
       <==> FitsOrFills(duration, env.content, p.detectors, n, p.config.timeout)
  {
    hide RunDetectors, BuiltinExecutor, FitsBudget, FitsOrFills, WellFormed, CallsMade;
    var budget := p.config.timeout;
    BudgetKeptExactly(env, sc, duration, p, started, n);
    assert PolicyDeadline(env.caller, p, started) - started == budget == Stop(env.caller, started + budget) - started;
    FitsWithoutStop(duration, env.content, p.detectors, n, budget);
  }

  // ----- The whole evaluation -----

  /** What the policies of an evaluation take one after the other until the caller's context is done. */
  function EvaluationSpent(duration: Durations, c: Content, caller: Caller, policies: seq<CompiledPolicy>,
                           now: nat, n: nat): nat
  {
    if policies == [] || caller.Done(now) then 0
    else
      var left := Stop(caller, PolicyDeadline(caller, policies[0], now)) - now;
      var spent := SpentUntil(duration, c, policies[0].detectors, n, left);
      spent + EvaluationSpent(duration, c, caller, policies[1..], now + spent,
                              n + StartedUntil(duration, c, policies[0].detectors, n, left))
  }

  /**
   How long an evaluation takes with the built-in executor, exactly, completed or aborted: what its policies
   spend one after the other.
   */
  lemma {:induction false} EvaluationTimeExact(env: Env, sc: Scanner, duration: Durations,
                                               policies: seq<CompiledPolicy>, now: nat, n: nat)
    requires Sound(sc) && env.exec == BuiltinExecutor(sc, duration) && forall p :: p in policies ==> WellFormed(p)
    ensures RunEnd(RunPolicies(env, policies, now, n))
         == now + EvaluationSpent(duration, env.content, env.caller, policies, now, n)
    decreases |policies|
  {
    hide RunDetectors, BuiltinExecutor, SpentUntil, StartedUntil;
    if policies != [] && !env.caller.Done(now) {
      var p := policies[0];
      var deadline := PolicyDeadline(env.caller, p, now);
      assert p in policies && p.detectors[0..] == p.detectors;
      DeadlineAhead(env.caller, p, now);
      BuiltinPolicyTime(env, sc, duration, p, 0, deadline, now, n);
      var run := RunDetectors(env, p, 0, deadline, now, n);
      if run.Ran? {
        EvaluationTimeExact(env, sc, duration, policies[1..], run.ended, run.calls);
      }
    }
  }

  /** By how much the policies together overrun their timeouts, each taken on its own. */
  function Overrun(duration: Durations, c: Content, policies: seq<CompiledPolicy>, n: nat): nat {
    if policies == [] then 0
    else
      var p := policies[0];
      Max(0, SpentUntil(duration, c, p.detectors, n, p.config.timeout) - p.config.timeout) +
      Overrun(duration, c, policies[1..], n + StartedUntil(duration, c, p.detectors, n, p.config.timeout))
  }

  /** How much of their timeouts they leave unused, each taken on its own. */
  function Unused(duration: Durations, c: Content, policies: seq<CompiledPolicy>, n: nat): nat {
    if policies == [] then 0
    else
      var p := policies[0];
      Max(0, p.config.timeout - SpentUntil(duration, c, p.detectors, n, p.config.timeout)) +
      Unused(duration, c, policies[1..], n + StartedUntil(duration, c, p.detectors, n, p.config.timeout))
  }

  /** Every policy keeps its own budget. */
  ghost predicate AllFit(duration: Durations, c: Content, policies: seq<CompiledPolicy>, n: nat) {
    policies == [] ||
    (FitsOrFills(duration, c, policies[0].detectors, n, policies[0].config.timeout) &&
     AllFit(duration, c, policies[1..],
            n + StartedUntil(duration, c, policies[0].detectors, n, policies[0].config.timeout)))
  }

  lemma {:induction false} SpentOnItsOwn(duration: Durations, c: Content, policies: seq<CompiledPolicy>,
                                         now: nat, n: nat)
    requires forall p :: p in policies ==> WellFormed(p)
    ensures EvaluationSpent(duration, c, Caller(None, None), policies, now, n) + Unused(duration, c, policies, n)
         == SumTimeouts(policies) + Overrun(duration, c, policies, n)
    ensures Overrun(duration, c, policies, n) == 0 <==> AllFit(duration, c, policies, n)
    decreases |policies|
  {
    hide SpentUntil, StartedUntil, FitsOrFills, WellFormed;
    if policies != [] {
      var p := policies[0];
      assert p in policies;
      var spent := SpentUntil(duration, c, p.detectors, n, p.config.timeout);
      WithinTimeout(duration, c, p, n);
      SpentOnItsOwn(duration, c, policies[1..], now + spent,
                    n + StartedUntil(duration, c, p.detectors, n, p.config.timeout));
    }
  }

  lemma WithinTimeout(duration: Durations, c: Content, p: CompiledPolicy, n: nat)
    requires WellFormed(p)
    ensures SpentUntil(duration, c, p.detectors, n, p.config.timeout) <= p.config.timeout
       <==> FitsOrFills(duration, c, p.detectors, n, p.config.timeout)
  {
    hide SpentUntil, FitsBudget, FitsOrFills;
    SpentFits(duration, c, p.detectors, n, p.config.timeout, p.config.timeout);
    FitsWithoutStop(duration, c, p.detectors, n, p.config.timeout);
  }

  /**
   Without a caller limit an evaluation keeps to the timeouts of its policies together if and only if what some
   policies overrun is made up for by what others leave unused, each taken on its own; and none overruns if and
   only if each policy's detections fit into its timeout or fill it to the very end.
   */
  lemma EvaluationBudgetExact(env: Env, sc: Scanner, duration: Durations, policies: seq<CompiledPolicy>,
                              now: nat, n: nat)
    requires Sound(sc) && env.exec == BuiltinExecutor(sc, duration) && env.caller == Caller(None, None)
    requires forall p :: p in policies ==> WellFormed(p)
    ensures var c := env.content;
            && (RunEnd(RunPolicies(env, policies, now, n)) - now <= SumTimeouts(policies) <==>
                Overrun(duration, c, policies, n) <= Unused(duration, c, policies, n))
            && (Overrun(duration, c, policies, n) == 0 <==> AllFit(duration, c, policies, n))
  {
    hide RunPolicies, BuiltinExecutor, EvaluationSpent, Overrun, Unused, AllFit, SumTimeouts, WellFormed, Sound;
    EvaluationTimeExact(env, sc, duration, policies, now, n);
    SpentOnItsOwn(duration, env.content, policies, now, n);
  }
}
