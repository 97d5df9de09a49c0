/** What every evaluation keeps, whatever the executor does: detectors, time and timings. */
module RunFacts {
  import opened Common
  import opened Policy
  import opened Evaluation

  // ----- Detectors are conserved -----

  /** The detectors that ran, in order. */
  ghost function ExecutedIn(events: seq<Event>): seq<Detector> {
    if events == [] then []
    else (if Executed(events[0]).Some? then [Executed(events[0]).value] else []) + ExecutedIn(events[1..])
  }

  /**
   The events of a policy account for its detectors from the `i`-th on: those that ran are the next ones
   in order, one event each; only the last event can be policy-scoped or lack a detector; and detectors
   are left out only after a policy-scoped failure.
   */
  ghost predicate Conserved(p: CompiledPolicy, i: nat, events: seq<Event>) {
    var ran := ExecutedIn(events);
    var last := |events| - 1;
    && i + |ran| <= |p.detectors| && ran == p.detectors[i..i + |ran|]
    && (forall k :: 0 <= k < last ==> !PolicyScoped(events[k]) && Executed(events[k]).Some?)
    && (events != [] && Executed(events[last]).None? ==> PolicyScoped(events[last]))
    && (i + |ran| < |p.detectors| ==> events != [] && PolicyScoped(events[last]))
  }

  lemma AttemptRuns(env: Env, p: CompiledPolicy, d: Detector, deadline: int, now: nat, calls: nat)
    ensures var a := Attempt(env, p, d, deadline, now, calls);
            a.Happened? ==> Executed(a.event) == Some(d) && a.event.started == now <= a.event.ended
                            && !env.caller.Done(a.event.ended)
  {
    hide FailureFrom, PolicyID;
  }

  lemma {:induction false} DetectorsConserved(env: Env, p: CompiledPolicy, i: nat, deadline: int, now: nat, calls: nat)
    requires i <= |p.detectors|
    ensures var run := RunDetectors(env, p, i, deadline, now, calls); run.Ran? ==> Conserved(p, i, run.events)
    decreases |p.detectors| - i
  {
    hide Attempt;
    assert p.detectors[i..i] == [];
    if i < |p.detectors| && !env.caller.Done(now) && deadline <= now {
      assert ExecutedIn([OutOfTime(p, now)]) == ExecutedIn([OutOfTime(p, now)][1..]);
      assert [OutOfTime(p, now)][1..] == [];
    } else if i < |p.detectors| && !env.caller.Done(now) {
      var d := p.detectors[i];
      var a := Attempt(env, p, d, deadline, now, calls);
      AttemptRuns(env, p, d, deadline, now, calls);
      if a.Happened? {
        assert [a.event][1..] == [] && p.detectors[i..i + 1] == [d];
        assert ExecutedIn([a.event]) == [d] + ExecutedIn([]) == [d];
        if !PolicyScoped(a.event) {
          DetectorsConserved(env, p, i + 1, deadline, a.event.ended, calls + 1);
          var rest := RunDetectors(env, p, i + 1, deadline, a.event.ended, calls + 1);
          if rest.Ran? { ConservedCons(p, i, a.event, rest.events); }
        }
      }
    }
  }

  lemma ConservedCons(p: CompiledPolicy, i: nat, e: Event, rest: seq<Event>)
    requires i < |p.detectors| && Executed(e) == Some(p.detectors[i]) && !PolicyScoped(e)
    requires Conserved(p, i + 1, rest)
    ensures Conserved(p, i, [e] + rest)
  {
    var all := [e] + rest;
    assert all[1..] == rest;
    var ran := ExecutedIn(rest);
    assert ExecutedIn(all) == [p.detectors[i]] + ran;
    assert p.detectors[i..i + 1 + |ran|] == [p.detectors[i]] + p.detectors[i + 1..i + 1 + |ran|];
    forall k | 0 <= k < |all| - 1 ensures !PolicyScoped(all[k]) && Executed(all[k]).Some? {
      if k > 0 { assert all[k] == rest[k - 1]; }
    }
    if rest != [] { assert all[|all| - 1] == rest[|rest| - 1]; }
  }

  /** Events that follow one another in time without a gap. */
  ghost predicate Gapless(events: seq<Event>, now: nat, ended: nat) {
    if events == [] then now == ended
    else events[0].started == now <= events[0].ended && Gapless(events[1..], events[0].ended, ended)
  }

  lemma {:induction false} EventsGapless(env: Env, p: CompiledPolicy, i: nat, deadline: int, now: nat, calls: nat)
    requires i <= |p.detectors| && !env.caller.Done(now)
    ensures var run := RunDetectors(env, p, i, deadline, now, calls);
            run.Ran? ==> Gapless(run.events, now, run.ended) && !env.caller.Done(run.ended)
    decreases |p.detectors| - i
  {
    hide Attempt;
    if i < |p.detectors| && now < deadline {
      var d := p.detectors[i];
      var a := Attempt(env, p, d, deadline, now, calls);
      AttemptRuns(env, p, d, deadline, now, calls);
      if a.Happened? {
        assert Gapless([a.event][1..], a.event.ended, a.event.ended);
        if !PolicyScoped(a.event) {
          EventsGapless(env, p, i + 1, deadline, a.event.ended, calls + 1);
          var rest := RunDetectors(env, p, i + 1, deadline, a.event.ended, calls + 1);
          if rest.Ran? { assert ([a.event] + rest.events)[1..] == rest.events; }
        }
      }
    } else if i < |p.detectors| {
      assert [OutOfTime(p, now)][1..] == [];
    }
  }

  // ----- Where events come from -----

  /** The state in which an event came about. */
  datatype Origin = Late(at: nat) | Called(i: nat, at: nat, n: nat)

  ghost predicate ComesFrom(env: Env, p: CompiledPolicy, deadline: int, e: Event, o: Origin) {
    match o
    case Late(at) => deadline <= at && e == OutOfTime(p, at)
    case Called(i, at, n) =>
      && i < |p.detectors| && at < deadline && !env.caller.Done(at)
      && Attempt(env, p, p.detectors[i], deadline, at, n) == Happened(e)
  }

  lemma {:induction false} EventOrigin(env: Env, p: CompiledPolicy, i: nat, deadline: int, now: nat, calls: nat, k: nat)
    returns (o: Origin)
    requires i <= |p.detectors| && RunDetectors(env, p, i, deadline, now, calls).Ran?
    requires k < |RunDetectors(env, p, i, deadline, now, calls).events|
    ensures ComesFrom(env, p, deadline, RunDetectors(env, p, i, deadline, now, calls).events[k], o)
    decreases |p.detectors| - i
  {
    hide Attempt, OutOfTime;
    if deadline <= now {
      o := Late(now);
    } else {
      var a := Attempt(env, p, p.detectors[i], deadline, now, calls);
      if k == 0 {
        o := Called(i, now, calls);
      } else {
        o := EventOrigin(env, p, i + 1, deadline, a.event.ended, calls + 1, k - 1);
      }
    }
  }

  /** The run of one policy that a log entry records. */
  ghost predicate Logs(env: Env, entry: PolicyLog, calls: nat) {
    && !env.caller.Done(entry.started)
    && var deadline := PolicyDeadline(env.caller, entry.policy, entry.started);
       var run := RunDetectors(env, entry.policy, 0, deadline, entry.started, calls);
       run.Ran? && run.events == entry.events && run.ended == entry.ended
  }

  ghost predicate Logged(env: Env, entry: PolicyLog) {
    exists calls :: Logs(env, entry, calls)
  }

  /** A completed run has one entry per policy, in order, each recording the whole run of that policy. */
  lemma {:induction false} LogRecords(env: Env, policies: seq<CompiledPolicy>, now: nat, calls: nat)
    requires RunPolicies(env, policies, now, calls).Completed?
    ensures var log := RunPolicies(env, policies, now, calls).log;
            && |log| == |policies|
            && (forall k :: 0 <= k < |log| ==> log[k].policy == policies[k] && Logged(env, log[k]))
    decreases |policies|
  {
    hide RunDetectors, PolicyDeadline;
    if policies != [] {
      var p := policies[0];
      var run := RunDetectors(env, p, 0, PolicyDeadline(env.caller, p, now), now, calls);
      LogRecords(env, policies[1..], run.ended, run.calls);
      assert Logs(env, PolicyLog(p, run.events, now, run.ended), calls);
    }
  }

  /**
   Every completed run: one log entry per policy, in order, so later policies always get their turn; and
   within each, the detectors are conserved.
   */
  lemma RunsConserveDetectors(env: Env, policies: seq<CompiledPolicy>, now: nat, calls: nat)
    requires RunPolicies(env, policies, now, calls).Completed?
    ensures var log := RunPolicies(env, policies, now, calls).log;
            && |log| == |policies|
            && (forall k :: 0 <= k < |log| ==> log[k].policy == policies[k] && Conserved(policies[k], 0, log[k].events))
  {
    hide RunPolicies, RunDetectors, PolicyDeadline, Conserved;
    var log := RunPolicies(env, policies, now, calls).log;
    LogRecords(env, policies, now, calls);
    forall k | 0 <= k < |log| ensures Conserved(policies[k], 0, log[k].events) {
      var n :| Logs(env, log[k], n);
      var deadline := PolicyDeadline(env.caller, policies[k], log[k].started);
      DetectorsConserved(env, policies[k], 0, deadline, log[k].started, n);
    }
  }

  // ----- Time bounds -----

  /** One executor call of a run: when it was made, its policy's deadline, and what its context had left. */
  datatype Made = Made(detector: Detector, at: nat, deadline: int, left: int, elapsed: nat)

  function CallTo(env: Env, d: Detector, deadline: int, now: nat, calls: nat): Made {
    var left := EffectiveDetectorTimeout(deadline - now, d.timeout).1;
    Made(d, now, deadline, left, env.exec(env.content, calls, d, Max(0, left)).elapsed)
  }

  /** The executor calls a policy's run makes, in order, whether it runs through or is halted. */
  ghost function CallsMade(env: Env, p: CompiledPolicy, i: nat, deadline: int, now: nat, calls: nat): seq<Made>
    requires i <= |p.detectors|
    decreases |p.detectors| - i
  {
    if i == |p.detectors| || env.caller.Done(now) || deadline <= now then []
    else
      var a := Attempt(env, p, p.detectors[i], deadline, now, calls);
      [CallTo(env, p.detectors[i], deadline, now, calls)] +
      if a.Happened? && !PolicyScoped(a.event) then CallsMade(env, p, i + 1, deadline, a.event.ended, calls + 1) else []
  }

  /** The call returns by the deadline of its policy. */
  predicate InBudget(m: Made) {
    m.at + m.elapsed <= m.deadline
  }

  /** The call returns by the deadline of the context it was given. */
  predicate Punctual(m: Made) {
    m.elapsed <= m.left
  }

  ghost predicate AllInBudget(calls: seq<Made>) {
    forall m :: m in calls ==> InBudget(m)
  }

  ghost predicate AllPunctual(calls: seq<Made>) {
    forall m :: m in calls ==> Punctual(m)
  }

  /** When a policy's run ended, completed or not. */
  function EndOf(run: PolicyRun): nat {
    if run.Halted? then run.at else run.ended
  }

  lemma AttemptIsCall(env: Env, p: CompiledPolicy, d: Detector, deadline: int, now: nat, calls: nat)
    ensures var a, m := Attempt(env, p, d, deadline, now, calls), CallTo(env, d, deadline, now, calls);
            && m.at == now && m.detector == d && m.deadline == deadline && m.left == Min(d.timeout, deadline - now)
            && (a.CallerGone? ==> a.at == now + m.elapsed)
            && (a.Happened? ==> Executed(a.event) == Some(d) && a.event.started == now
                                && a.event.ended == now + m.elapsed)
  {
    hide FailureFrom, PolicyID;
  }

  lemma {:induction false} EndsLater(env: Env, p: CompiledPolicy, i: nat, deadline: int, now: nat, calls: nat)
    requires i <= |p.detectors|
    ensures now <= EndOf(RunDetectors(env, p, i, deadline, now, calls))
    decreases |p.detectors| - i
  {
    hide Attempt, CallTo;
    if i < |p.detectors| && !env.caller.Done(now) && now < deadline {
      AttemptIsCall(env, p, p.detectors[i], deadline, now, calls);
      var a := Attempt(env, p, p.detectors[i], deadline, now, calls);
      if a.Happened? && !PolicyScoped(a.event) {
        EndsLater(env, p, i + 1, deadline, a.event.ended, calls + 1);
      }
    }
  }

  /**
   For any executor and caller: a policy is done by its deadline exactly when each call it makes returns by
   then, whether the policy runs through or the caller's context halts it.
   */
  lemma {:induction false} PolicyTimeExact(env: Env, p: CompiledPolicy, i: nat, deadline: int, now: nat, calls: nat)
    requires i <= |p.detectors| && now <= deadline
    ensures EndOf(RunDetectors(env, p, i, deadline, now, calls)) <= deadline
       <==> AllInBudget(CallsMade(env, p, i, deadline, now, calls))
    decreases |p.detectors| - i
  {
    hide Attempt, CallTo;
    if i < |p.detectors| && !env.caller.Done(now) && now < deadline {
      var m := CallTo(env, p.detectors[i], deadline, now, calls);
      AttemptIsCall(env, p, p.detectors[i], deadline, now, calls);
      var a := Attempt(env, p, p.detectors[i], deadline, now, calls);
      assert m in CallsMade(env, p, i, deadline, now, calls);
      if a.Happened? && !PolicyScoped(a.event) {
        EndsLater(env, p, i + 1, deadline, a.event.ended, calls + 1);
        if a.event.ended <= deadline {
          PolicyTimeExact(env, p, i + 1, deadline, a.event.ended, calls + 1);
        }
      }
    }
  }

  function SumTimeouts(policies: seq<CompiledPolicy>): int {
    if policies == [] then 0 else policies[0].config.timeout + SumTimeouts(policies[1..])
  }

  /** When a run ended, completed or aborted. */
  function RunEnd(run: Run): nat {
    if run.Aborted? then run.at else run.ended
  }

  lemma DeadlineAhead(caller: Caller, p: CompiledPolicy, now: nat)
    requires WellFormed(p) && !caller.Done(now)
    ensures now < PolicyDeadline(caller, p, now) <= now + p.config.timeout
    ensures caller.deadline.Some? ==> PolicyDeadline(caller, p, now) <= caller.deadline.value
  {
  }

  /** The executor calls of a whole run, in order, whether it completes or is aborted. */
  ghost function RunCalls(env: Env, policies: seq<CompiledPolicy>, now: nat, calls: nat): seq<Made> {
    if policies == [] || env.caller.Done(now) then []
    else
      var p := policies[0];
      var deadline := PolicyDeadline(env.caller, p, now);
      var run := RunDetectors(env, p, 0, deadline, now, calls);
      CallsMade(env, p, 0, deadline, now, calls) +
      if run.Halted? then [] else RunCalls(env, policies[1..], run.ended, run.calls)
  }

  /**
   When the calls a run makes return by the deadlines of their policies, the evaluation takes no longer than
   the timeouts of its policies together, and never passes the caller's deadline, whether it completes or is
   aborted. Nothing is asked of calls the run does not make.
   */
  lemma {:induction false} RunInTime(env: Env, policies: seq<CompiledPolicy>, now: nat, calls: nat)
    requires AllInBudget(RunCalls(env, policies, now, calls)) && forall p :: p in policies ==> WellFormed(p)
    ensures var end := RunEnd(RunPolicies(env, policies, now, calls));
            && now <= end
            && end - now <= SumTimeouts(policies)
            && (env.caller.deadline.Some? && now <= env.caller.deadline.value ==> end <= env.caller.deadline.value)
    decreases |policies|
  {
    hide RunDetectors, PolicyDeadline, CallsMade, InBudget;
    if policies != [] {
      SumNonNegative(policies);
      if !env.caller.Done(now) {
        var p := policies[0];
        var deadline := PolicyDeadline(env.caller, p, now);
        DeadlineAhead(env.caller, p, now);
        var made := CallsMade(env, p, 0, deadline, now, calls);
        assert forall m :: m in made ==> m in RunCalls(env, policies, now, calls);
        PolicyTimeExact(env, p, 0, deadline, now, calls);
        EndsLater(env, p, 0, deadline, now, calls);
        var run := RunDetectors(env, p, 0, deadline, now, calls);
        SumNonNegative(policies[1..]);
        if run.Ran? {
          var later := RunCalls(env, policies[1..], run.ended, run.calls);
          assert forall m :: m in later ==> m in RunCalls(env, policies, now, calls);
          RunInTime(env, policies[1..], run.ended, run.calls);
        }
      }
    }
  }

  lemma {:induction false} SumNonNegative(policies: seq<CompiledPolicy>)
    requires forall p :: p in policies ==> WellFormed(p)
    ensures SumTimeouts(policies) >= 0
  {
    if policies != [] {
      assert policies[0] in policies && forall p :: p in policies[1..] ==> p in policies;
      SumNonNegative(policies[1..]);
    }
  }

  /** The calls of a policy that ran through are its executed events, one by one and in order. */
  lemma {:induction false} CallsAreEvents(env: Env, p: CompiledPolicy, i: nat, deadline: int, now: nat, calls: nat)
    requires i <= |p.detectors| && RunDetectors(env, p, i, deadline, now, calls).Ran?
    ensures var made := CallsMade(env, p, i, deadline, now, calls);
            var es := RunDetectors(env, p, i, deadline, now, calls).events;
            && |made| <= |es|
            && (forall k :: 0 <= k < |made| ==> MadeBy(made[k], es[k]))
            && (forall k :: |made| <= k < |es| ==> Executed(es[k]).None?)
            && (forall m :: m in made ==>
                  m.left == Min(m.detector.timeout, m.deadline - m.at) && m.deadline == deadline)
    decreases |p.detectors| - i
  {
    hide Attempt, CallTo;
    if i < |p.detectors| && !env.caller.Done(now) && now < deadline {
      AttemptIsCall(env, p, p.detectors[i], deadline, now, calls);
      var a := Attempt(env, p, p.detectors[i], deadline, now, calls);
      if a.Happened? && !PolicyScoped(a.event) {
        CallsAreEvents(env, p, i + 1, deadline, a.event.ended, calls + 1);
        var made := CallsMade(env, p, i, deadline, now, calls);
        var es := RunDetectors(env, p, i, deadline, now, calls).events;
        assert made[1..] == CallsMade(env, p, i + 1, deadline, a.event.ended, calls + 1);
        assert es[1..] == RunDetectors(env, p, i + 1, deadline, a.event.ended, calls + 1).events;
        forall k | 0 <= k < |made| ensures MadeBy(made[k], es[k]) {
          if k > 0 { assert made[k] == made[1..][k - 1] && es[k] == es[1..][k - 1]; }
        }
        forall k | |made| <= k < |es| ensures Executed(es[k]).None? {
          assert es[k] == es[1..][k - 1];
        }
      }
    }
  }

  predicate MadeBy(m: Made, e: Event) {
    Executed(e) == Some(m.detector) && e.started == m.at && e.ended == m.at + m.elapsed
  }

  /**
   Step by step, for any executor. A policy is done by its deadline exactly when its executed events are. And
   the executor keeps to the contexts it is given exactly when each executed event takes no more than its
   detector's timeout and no more than what its policy has left; the policy is then done within its timeout.
   */
  lemma StepsInTime(env: Env, entry: PolicyLog, calls: nat)
    requires WellFormed(entry.policy) && Logs(env, entry, calls)
    ensures var p, es := entry.policy, entry.events;
            var deadline := PolicyDeadline(env.caller, p, entry.started);
            var made := CallsMade(env, p, 0, deadline, entry.started, calls);
            && (entry.ended <= deadline <==>
                  forall k :: 0 <= k < |es| && Executed(es[k]).Some? ==> es[k].ended <= deadline)
            && (AllPunctual(made) <==>
                  forall k :: 0 <= k < |es| && Executed(es[k]).Some? ==>
                    es[k].ended - es[k].started <= Min(Executed(es[k]).value.timeout, deadline - es[k].started))
            && (AllPunctual(made) ==> entry.ended <= entry.started + p.config.timeout)
  {
    hide RunDetectors, CallsMade, PolicyDeadline;
    var p, es := entry.policy, entry.events;
    var deadline := PolicyDeadline(env.caller, p, entry.started);
    var made := CallsMade(env, p, 0, deadline, entry.started, calls);
    DeadlineAhead(env.caller, p, entry.started);
    CallsAreEvents(env, p, 0, deadline, entry.started, calls);
    PolicyTimeExact(env, p, 0, deadline, entry.started, calls);
    forall k | 0 <= k < |es| && Executed(es[k]).Some?
      ensures k < |made| && made[k] in made && MadeBy(made[k], es[k])
    {
    }
  }

  lemma {:induction false} GaplessPlaces(events: seq<Event>, now: nat, ended: nat, k: nat)
    requires Gapless(events, now, ended) && k < |events|
    ensures now <= events[k].started <= events[k].ended <= ended
    ensures k + 1 < |events| ==> events[k].ended == events[k + 1].started
    ensures k == 0 ==> events[k].started == now
    ensures k + 1 == |events| ==> events[k].ended == ended
  {
    GaplessForward(events[1..], events[0].ended, ended);
    if k > 0 { GaplessPlaces(events[1..], events[0].ended, ended, k - 1); }
  }

  lemma {:induction false} GaplessOrder(events: seq<Event>, now: nat, ended: nat, k: nat, j: nat)
    requires Gapless(events, now, ended) && k < j < |events|
    ensures events[k].ended <= events[j].started
    decreases j
  {
    hide Gapless;
    GaplessPlaces(events, now, ended, j - 1);
    if k < j - 1 { GaplessOrder(events, now, ended, k, j - 1); }
  }

  /**
   Whatever the executor does, a policy overruns its deadline by one call at most: every call starts before
   the deadline, only the last call can end at or after it, and a run that ends late ends with that call.
   */
  lemma OverrunIsOneCall(env: Env, entry: PolicyLog)
    requires WellFormed(entry.policy) && Logged(env, entry)
    ensures var deadline, es := PolicyDeadline(env.caller, entry.policy, entry.started), entry.events;
            && (forall k :: 0 <= k < |es| && Executed(es[k]).Some? ==> es[k].started < deadline)
            && (forall k, j :: 0 <= k < j < |es| && Executed(es[j]).Some? ==> es[k].ended < deadline)
            && (deadline < entry.ended ==>
                  exists k :: 0 <= k < |es| && Executed(es[k]).Some? && es[k].ended == entry.ended)
  {
    hide RunDetectors, PolicyDeadline, Attempt, PolicyID, Gapless, WellFormed;
    var p, es := entry.policy, entry.events;
    var n :| Logs(env, entry, n);
    var deadline := PolicyDeadline(env.caller, p, entry.started);
    DeadlineAhead(env.caller, p, entry.started);
    EventsGapless(env, p, 0, deadline, entry.started, n);
    DetectorsConserved(env, p, 0, deadline, entry.started, n);
    forall k | 0 <= k < |es|
      ensures Executed(es[k]).Some? ==> es[k].started < deadline
      ensures Executed(es[k]).None? ==> deadline <= es[k].started == es[k].ended
    {
      var o := EventOrigin(env, p, 0, deadline, entry.started, n, k);
      if o.Called? { AttemptRuns(env, p, p.detectors[o.i], deadline, o.at, o.n); }
    }
    forall k, j | 0 <= k < j < |es| && Executed(es[j]).Some? ensures es[k].ended < deadline {
      GaplessOrder(es, entry.started, entry.ended, k, j);
    }
    if deadline < entry.ended {
      var last := |es| - 1;
      EndNeedsEvents(es, entry.started, entry.ended);
      GaplessPlaces(es, entry.started, entry.ended, last);
      if Executed(es[last]).None? {
        GaplessPlaces(es, entry.started, entry.ended, last - 1);
        assert Executed(es[last - 1]).Some? && es[last - 1].ended == entry.ended;
      }
    }
  }

  lemma EndNeedsEvents(events: seq<Event>, now: nat, ended: nat)
    requires Gapless(events, now, ended) && now < ended
    ensures events != []
  {
  }

  /** Whole milliseconds of a positive duration in nanoseconds, and 1 for less than one. */
  predicate InMilliseconds(nanoseconds: int, ms: int) {
    ms >= 1 && nanoseconds < (ms + 1) * 1_000_000 && (ms == 1 || ms * 1_000_000 <= nanoseconds)
  }

  lemma MillisecondsExact(d: int)
    requires d > 0
    ensures InMilliseconds(d, DurationMilliseconds(d))
  {
  }

  /** No other number of milliseconds will do. */
  lemma OneMillisecondValue(d: int, a: int, b: int)
    requires InMilliseconds(d, a) && InMilliseconds(d, b)
    ensures a == b
  {
  }

  /** At least 1 millisecond, and no more than the duration has unless that is less than one. */
  predicate AtMostMilliseconds(nanoseconds: int, ms: int) {
    ms >= 1 && (ms == 1 || ms * 1_000_000 <= nanoseconds)
  }

  lemma SmallerMilliseconds(a: int, b: int, ms: int)
    requires InMilliseconds(a, ms) && a <= b
    ensures AtMostMilliseconds(b, ms)
  {
  }

  /**
   Whatever error an executor answers with, a recorded failure has one of the six published codes, is
   policy-scoped exactly when its code is the policy timeout, and reports at least 1 millisecond and never
   more than the policy's timeout, which a policy timeout reports in whole milliseconds.
   */
  lemma FailuresAreBounded(env: Env, entry: PolicyLog, k: nat)
    requires WellFormed(entry.policy) && Logged(env, entry) && k < |entry.events| && entry.events[k].Failed?
    ensures var f := entry.events[k].failure;
            && !f.code.OtherCode?
            && (f.scope == PolicyScope <==> f.code == PolicyTimeout)
            && f.policyID == PolicyID(entry.policy.config) && f.failureMode == entry.policy.config.failureMode
            && 1 <= f.timeoutMS <= DurationMilliseconds(entry.policy.config.timeout)
            && AtMostMilliseconds(entry.policy.config.timeout, f.timeoutMS)
            && (f.code == PolicyTimeout ==> InMilliseconds(entry.policy.config.timeout, f.timeoutMS))
  {
    hide RunDetectors, PolicyDeadline, Attempt, PolicyID, DurationMilliseconds, InMilliseconds, AtMostMilliseconds;
    MillisecondsExact(entry.policy.config.timeout);
    SmallerMilliseconds(entry.policy.config.timeout, entry.policy.config.timeout,
                        DurationMilliseconds(entry.policy.config.timeout));
    PositiveMilliseconds(entry.policy.config.timeout, entry.policy.config.timeout);
    var p := entry.policy;
    var n :| Logs(env, entry, n);
    var deadline := PolicyDeadline(env.caller, p, entry.started);
    DeadlineAhead(env.caller, p, entry.started);
    var o := EventOrigin(env, p, 0, deadline, entry.started, n, k);
    if o.Called? { AttemptBounded(env, p, o.i, deadline, o.at, o.n); }
  }

  lemma PositiveMilliseconds(a: int, b: int)
    requires 0 < a <= b
    ensures 1 <= DurationMilliseconds(a) <= DurationMilliseconds(b)
  {
  }

  lemma AttemptBounded(env: Env, p: CompiledPolicy, i: nat, deadline: int, at: nat, n: nat)
    requires WellFormed(p) && i < |p.detectors| && at < deadline
    ensures var a := Attempt(env, p, p.detectors[i], deadline, at, n);
            a.Happened? && a.event.Failed? ==>
              var f := a.event.failure;
              && !f.code.OtherCode? && (f.scope == PolicyScope <==> f.code == PolicyTimeout)
              && f.policyID == PolicyID(p.config) && f.failureMode == p.config.failureMode
              && 1 <= f.timeoutMS <= DurationMilliseconds(p.config.timeout)
              && AtMostMilliseconds(p.config.timeout, f.timeoutMS)
              && (f.code == PolicyTimeout ==> InMilliseconds(p.config.timeout, f.timeoutMS))
  {
    hide PolicyID, DurationMilliseconds, InMilliseconds, AtMostMilliseconds;
    var d := p.detectors[i];
    assert d in p.detectors;
    var least := Min(d.timeout, deadline - at);
    PositiveMilliseconds(least, p.config.timeout);
    PositiveMilliseconds(p.config.timeout, p.config.timeout);
    MillisecondsExact(least);
    MillisecondsExact(p.config.timeout);
    SmallerMilliseconds(least, p.config.timeout, DurationMilliseconds(least));
    SmallerMilliseconds(p.config.timeout, p.config.timeout, DurationMilliseconds(p.config.timeout));
  }

  // ----- Completed runs beat the caller -----

  lemma {:induction false} LogGapless(env: Env, policies: seq<CompiledPolicy>, now: nat, calls: nat)
    requires !env.caller.Done(now)
    ensures var run := RunPolicies(env, policies, now, calls);
            run.Completed? ==> PoliciesGapless(run.log, now, run.ended) && !env.caller.Done(run.ended)
    decreases |policies|
  {
    hide RunDetectors, PolicyDeadline;
    if policies != [] {
      var p := policies[0];
      EventsGapless(env, p, 0, PolicyDeadline(env.caller, p, now), now, calls);
      var run := RunDetectors(env, p, 0, PolicyDeadline(env.caller, p, now), now, calls);
      if run.Ran? {
        LogGapless(env, policies[1..], run.ended, run.calls);
        var rest := RunPolicies(env, policies[1..], run.ended, run.calls);
        GaplessForward(run.events, now, run.ended);
        if rest.Completed? { assert ([PolicyLog(p, run.events, now, run.ended)] + rest.log)[1..] == rest.log; }
      }
    }
  }

  lemma {:induction false} GaplessForward(events: seq<Event>, now: nat, ended: nat)
    requires Gapless(events, now, ended)
    ensures now <= ended
  {
    if events != [] { GaplessForward(events[1..], events[0].ended, ended); }
  }

  /** Policies that follow one another without a gap, each filled by its events. */
  ghost predicate PoliciesGapless(log: seq<PolicyLog>, now: nat, ended: nat) {
    if log == [] then now == ended
    else
      && log[0].started == now <= log[0].ended && Gapless(log[0].events, now, log[0].ended)
      && PoliciesGapless(log[1..], log[0].ended, ended)
  }

  /** Whatever the executor does, a run that completes does so before the caller's context is done. */
  lemma CompletedBeforeCaller(env: Env, policies: seq<CompiledPolicy>, now: nat, calls: nat)
    requires !env.caller.Done(now) && RunPolicies(env, policies, now, calls).Completed?
    ensures var ended := RunPolicies(env, policies, now, calls).ended;
            && !env.caller.Done(ended)
            && (env.caller.deadline.Some? ==> ended < env.caller.deadline.value)
            && (env.caller.cancelled.Some? ==> ended < env.caller.cancelled.value)
  {
    LogGapless(env, policies, now, calls);
  }

  // ----- Timings nest -----

  ghost function Total(clock: Clock): nat {
    if clock == map[] then 0
    else
      var id :| id in clock;
      clock[id] + Total(clock - {id})
  }

  /** The total does not depend on the order the ids are taken in. */
  lemma {:induction false} TotalWithout(clock: Clock, id: string)
    requires id in clock
    ensures Total(clock) == clock[id] + Total(clock - {id})
    decreases |clock|
  {
    var first :| first in clock && Total(clock) == clock[first] + Total(clock - {first});
    if first != id {
      var a, b := clock - {first}, clock - {id};
      TotalWithout(a, id);
      TotalWithout(b, first);
      assert a - {id} == b - {first};
    }
  }

  lemma TotalAdds(clock: Clock, id: string, elapsed: nat)
    ensures Total(AddTime(clock, id, elapsed)) == Total(clock) + elapsed / MILLISECOND
  {
    var after := AddTime(clock, id, elapsed);
    TotalWithout(after, id);
    assert after - {id} == clock - {id};
    if id in clock {
      TotalWithout(clock, id);
    } else {
      assert clock - {id} == clock;
    }
  }

  ghost function EventMS(events: seq<Event>): nat {
    if events == [] then 0
    else
      var last := events[|events| - 1];
      EventMS(events[..|events| - 1]) +
      if Executed(last).None? || last.ended < last.started then 0 else (last.ended - last.started) / MILLISECOND
  }

  lemma {:induction false} DetectorTotal(entries: seq<Entry>, p: CompiledPolicy, events: seq<Event>)
    ensures Total(DetectorTimes(entries + EntriesOf(p, events))) == Total(DetectorTimes(entries)) + EventMS(events)
  {
    hide AddTime, Total, DetectorTimes, Judge, FindingsIn, FailuresIn, ReplacementsIn, Redacts, Absorb;
    if events == [] {
      assert entries + EntriesOf(p, events) == entries;
    } else {
      var last := |events| - 1;
      var e := events[last];
      var before := entries + EntriesOf(p, events[..last]);
      assert entries + EntriesOf(p, events) == before + [Entry(p, e)];
      DetectorTotal(entries, p, events[..last]);
      EntryStep(before, Entry(p, e));
      if Executed(e).Some? && e.started <= e.ended {
        TotalAdds(DetectorTimes(before), Executed(e).value.id, e.ended - e.started);
      }
    }
  }

  lemma {:induction false} GaplessLast(events: seq<Event>, now: nat, ended: nat)
    requires events != [] && Gapless(events, now, ended)
    ensures var last := |events| - 1;
            Gapless(events[..last], now, events[last].started) && events[last].started <= events[last].ended == ended
  {
    if |events| > 1 {
      GaplessLast(events[1..], events[0].ended, ended);
      assert events[1..][..|events| - 2] == events[..|events| - 1][1..];
    }
  }

  lemma {:induction false} EventsWithin(events: seq<Event>, now: nat, ended: nat)
    requires Gapless(events, now, ended)
    ensures now <= ended && EventMS(events) <= (ended - now) / MILLISECOND
  {
    if events != [] {
      GaplessLast(events, now, ended);
      var last := events[|events| - 1];
      EventsWithin(events[..|events| - 1], now, last.started);
    }
  }

  ghost function PolicyMS(log: seq<PolicyLog>): nat {
    if log == [] then 0
    else
      var last := log[|log| - 1];
      PolicyMS(log[..|log| - 1]) + if last.ended < last.started then 0 else (last.ended - last.started) / MILLISECOND
  }

  lemma {:induction false} PoliciesGaplessLast(log: seq<PolicyLog>, now: nat, ended: nat)
    requires log != [] && PoliciesGapless(log, now, ended)
    ensures var last := log[|log| - 1];
            && PoliciesGapless(log[..|log| - 1], now, last.started)
            && last.started <= last.ended == ended && Gapless(last.events, last.started, last.ended)
  {
    hide Gapless;
    if |log| > 1 {
      PoliciesGaplessLast(log[1..], log[0].ended, ended);
      assert log[1..][..|log| - 2] == log[..|log| - 1][1..];
    }
  }

  lemma {:induction false} LogTotals(log: seq<PolicyLog>, now: nat, ended: nat)
    requires PoliciesGapless(log, now, ended)
    ensures now <= ended
    ensures Total(DetectorTimes(Entries(log))) <= Total(PolicyTimes(log)) <= (ended - now) / MILLISECOND
  {
    hide AddTime, Total, DetectorTimes, Gapless, PolicyID, EntriesOf;
    if log == [] {
      EmptyTotals();
    } else {
      var last := log[|log| - 1];
      var before := log[..|log| - 1];
      PoliciesGaplessLast(log, now, ended);
      LogTotals(before, now, last.started);
      DetectorTotal(Entries(before), last.policy, last.events);
      EventsWithin(last.events, last.started, last.ended);
      TotalAdds(PolicyTimes(before), PolicyID(last.policy.config), last.ended - last.started);
    }
  }

  lemma EmptyTotals()
    ensures Total(DetectorTimes(Entries([]))) == 0 && Total(PolicyTimes([])) == 0
  {
  }

  /**
   The reported timings nest in every completed run: detectors within policies within the total, although
   every interval is cut down to whole milliseconds on its own and ids may repeat.
   */
  lemma TimingsNest(env: Env, policies: seq<CompiledPolicy>, started: nat, calls: nat)
    requires !env.caller.Done(started) && RunPolicies(env, policies, started, calls).Completed?
    ensures var run := RunPolicies(env, policies, started, calls);
            && started <= run.ended
            && Total(DetectorTimes(Entries(run.log))) <= Total(PolicyTimes(run.log))
            && Total(PolicyTimes(run.log)) <= (run.ended - started) / MILLISECOND
  {
    hide RunPolicies, Total, DetectorTimes, PolicyTimes, Entries;
    LogGapless(env, policies, started, calls);
    var run := RunPolicies(env, policies, started, calls);
    LogTotals(run.log, started, run.ended);
  }
}
