/** How one executor call ends, what a failure records, and what the reported times are worth. */
module Failures {
  import opened Common
  import opened Content
  import opened Policy
  import opened Evaluation
  import opened RunFacts

  /** The error is an expired deadline: the executor says so, or its answer came when the context was done. */
  predicate Expired(call: Call, left: int) {
    if call.reply.Refusal? then call.reply.error.deadlineExceeded else left <= call.elapsed
  }

  /** The failure that an expired deadline is recorded as. */
  predicate TimedOut(f: DetectorFailure, p: CompiledPolicy, d: Detector, remaining: int) {
    && f.policyID == PolicyID(p.config) && f.detectorID == d.id && f.failureMode == p.config.failureMode && f.retryable
    && (if remaining <= d.timeout
        then f.scope == PolicyScope && f.code == PolicyTimeout && InMilliseconds(p.config.timeout, f.timeoutMS)
        else f.scope == DetectorScope && f.code == DetectorTimeout && InMilliseconds(d.timeout, f.timeoutMS))
  }

  /** The failure that any other executor error is recorded as. */
  predicate Reported(f: DetectorFailure, p: CompiledPolicy, d: Detector, left: int, error: ExecError) {
    && f.policyID == PolicyID(p.config) && f.detectorID == d.id && f.failureMode == p.config.failureMode
    && f.scope == DetectorScope && InMilliseconds(left, f.timeoutMS)
    && (f.retryable <==> error.typed.Some? && error.typed.value.retryable)
    && (if error.typed.Some? && PublishedCode(error.typed.value.code)
        then f.code == error.typed.value.code else f.code == DetectorInternal)
  }

  predicate PublishedCode(code: FailureCode) {
    code.DetectorUnavailable? || code.DetectorInvalidResponse? || code.DetectorUnsupported? || code.DetectorInternal?
  }

  /**
   How an executor call ends, in terms of the call alone. It is given what is left of its policy's time or its
   detector's timeout, whichever is less. If the caller's context is done when it returns, the evaluation is
   over. Otherwise an answer in time is taken as it is; an expired deadline is a policy timeout exactly when the
   policy had no more time left than the detector was allowed, also when the two are equal; and any other error
   keeps its code when it is one of the published ones.
   */
  lemma CallOutcome(env: Env, p: CompiledPolicy, d: Detector, deadline: int, now: nat, n: nat)
    requires now < deadline && 0 < d.timeout && 0 < p.config.timeout
    ensures var remaining := deadline - now;
            var left := if remaining <= d.timeout then remaining else d.timeout;
            var call := env.exec(env.content, n, d, left);
            var ended := now + call.elapsed;
            var a := Attempt(env, p, d, deadline, now, n);
            if env.caller.Done(ended) then a == CallerGone(ended)
            else if call.reply.Answer? && call.elapsed < left then
              a == Happened(Answered(d, call.reply.findings, call.reply.replacements, now, ended))
            else
              && a.Happened? && a.event.Failed? && a.event.hit == Some(d)
              && a.event.started == now && a.event.ended == ended
              && (if Expired(call, left) then TimedOut(a.event.failure, p, d, remaining)
                  else Reported(a.event.failure, p, d, left, call.reply.error))
  {
    hide PolicyID, DurationMilliseconds, InMilliseconds;
    var left := Min(d.timeout, deadline - now);
    MillisecondsExact(left);
    MillisecondsExact(d.timeout);
    MillisecondsExact(p.config.timeout);
  }

  /** Before a call is made at all: the caller's context, and then the policy's time. */
  lemma TurnOutcome(env: Env, p: CompiledPolicy, i: nat, deadline: int, now: nat, n: nat)
    requires i < |p.detectors| && 0 < p.config.timeout
    ensures var run := RunDetectors(env, p, i, deadline, now, n);
            && (env.caller.Done(now) ==> run == Halted(now))
            && (!env.caller.Done(now) && deadline <= now ==>
                  && run.Ran? && run.ended == now && run.calls == n && |run.events| == 1
                  && var e := run.events[0];
                     e.Failed? && e.hit == None && e.started == e.ended == now &&
                     e.failure.policyID == PolicyID(p.config) && e.failure.detectorID == "" &&
                     e.failure.scope == PolicyScope && e.failure.code == PolicyTimeout && e.failure.retryable &&
                     e.failure.failureMode == p.config.failureMode &&
                     InMilliseconds(p.config.timeout, e.failure.timeoutMS))
  {
    hide PolicyID, DurationMilliseconds, InMilliseconds;
    MillisecondsExact(p.config.timeout);
  }

  /** The scope and value of every recorded timeout, from the time at which its call was made. */
  ghost predicate TimeoutExact(p: CompiledPolicy, deadline: int, e: Event) {
    e.Failed? && e.failure.code in {PolicyTimeout, DetectorTimeout} ==>
      && (e.failure.scope == PolicyScope <==>
            e.hit.None? || deadline - e.started <= e.hit.value.timeout)
      && (e.failure.scope == PolicyScope ==> InMilliseconds(p.config.timeout, e.failure.timeoutMS))
      && (e.failure.scope == DetectorScope ==> e.hit.Some? && InMilliseconds(e.hit.value.timeout, e.failure.timeoutMS))
  }

  /** And of every answer: it came before its deadlines and before the caller's context was done. */
  ghost predicate AnswerInTime(env: Env, deadline: int, e: Event) {
    e.Answered? ==>
      e.ended < deadline && e.ended - e.started < e.detector.timeout && !env.caller.Done(e.ended)
  }

  /**
   In every run, whatever the executor does: a timeout is policy-scoped exactly when the policy had no more time
   left than the detector was allowed, and reports the timeout of its scope in milliseconds; an answer counts
   only if it came in time.
   */
  lemma LoggedOutcomes(env: Env, entry: PolicyLog, k: nat)
    requires WellFormed(entry.policy) && Logged(env, entry) && k < |entry.events|
    ensures var deadline := PolicyDeadline(env.caller, entry.policy, entry.started);
            TimeoutExact(entry.policy, deadline, entry.events[k]) && AnswerInTime(env, deadline, entry.events[k])
  {
    hide RunDetectors, PolicyDeadline, Attempt, PolicyID, OutOfTime, InMilliseconds;
    var p := entry.policy;
    var n :| Logs(env, entry, n);
    var deadline := PolicyDeadline(env.caller, p, entry.started);
    var o := EventOrigin(env, p, 0, deadline, entry.started, n, k);
    match o {
      case Late(at) => LateIsExact(p, at);
      case Called(i, at, m) =>
        assert p.detectors[i] in p.detectors;
        CallOutcome(env, p, p.detectors[i], deadline, at, m);
    }
  }

  lemma LateIsExact(p: CompiledPolicy, at: nat)
    requires 0 < p.config.timeout
    ensures var e := OutOfTime(p, at);
            e.Failed? && e.hit.None? && e.failure.scope == PolicyScope &&
            InMilliseconds(p.config.timeout, e.failure.timeoutMS)
  {
    hide PolicyID, DurationMilliseconds, InMilliseconds;
    MillisecondsExact(p.config.timeout);
  }

  // ----- Reported times -----

  /** The nanoseconds that the executed events of a detector took, and how many there are. */
  ghost function Spent(entries: seq<Entry>, id: string): nat {
    if entries == [] then 0
    else
      var e := entries[|entries| - 1].event;
      Spent(entries[..|entries| - 1], id) +
      if Executed(e).Some? && Executed(e).value.id == id && e.started <= e.ended then e.ended - e.started else 0
  }

  ghost function Calls(entries: seq<Entry>, id: string): nat {
    if entries == [] then 0
    else
      var e := entries[|entries| - 1].event;
      Calls(entries[..|entries| - 1], id) +
      if Executed(e).Some? && Executed(e).value.id == id && e.started <= e.ended then 1 else 0
  }

  /** A sum of `count` durations, each cut down to whole milliseconds. */
  predicate CutDown(ms: nat, nanoseconds: nat, count: nat) {
    ms * 1_000_000 <= nanoseconds && nanoseconds <= ms * 1_000_000 + count * 999_999
  }

  lemma CutOne(ms: nat, nanoseconds: nat, count: nat, more: nat)
    requires CutDown(ms, nanoseconds, count)
    ensures CutDown(ms + more / MILLISECOND, nanoseconds + more, count + 1)
  {
  }

  /**
   The reported time of a detector is the time its calls took, each cut down to whole milliseconds; and a
   detector has a time exactly when it was called.
   */
  lemma {:induction false} DetectorTimesExact(entries: seq<Entry>, id: string)
    ensures id in DetectorTimes(entries) <==> Calls(entries, id) > 0
    ensures id in DetectorTimes(entries) ==> CutDown(DetectorTimes(entries)[id], Spent(entries, id), Calls(entries, id))
    ensures id !in DetectorTimes(entries) ==> Spent(entries, id) == 0
  {
    hide CutDown;
    if entries != [] {
      var last := |entries| - 1;
      var e := entries[last].event;
      DetectorTimesExact(entries[..last], id);
      if Executed(e).Some? && Executed(e).value.id == id && e.started <= e.ended {
        var before := DetectorTimes(entries[..last]);
        CutNothing();
        CutOne(if id in before then before[id] else 0, Spent(entries[..last], id), Calls(entries[..last], id),
               e.ended - e.started);
      }
    }
  }

  lemma CutNothing()
    ensures CutDown(0, 0, 0)
  {
  }

  ghost function SpentBy(log: seq<PolicyLog>, id: string): nat {
    if log == [] then 0
    else
      var p := log[|log| - 1];
      SpentBy(log[..|log| - 1], id) +
      if PolicyID(p.policy.config) == id && p.started <= p.ended then p.ended - p.started else 0
  }

  ghost function RunsOf(log: seq<PolicyLog>, id: string): nat {
    if log == [] then 0
    else
      var p := log[|log| - 1];
      RunsOf(log[..|log| - 1], id) + if PolicyID(p.policy.config) == id && p.started <= p.ended then 1 else 0
  }

  /** The same for the reported time of a policy. */
  lemma {:induction false} PolicyTimesExact(log: seq<PolicyLog>, id: string)
    ensures id in PolicyTimes(log) <==> RunsOf(log, id) > 0
    ensures id in PolicyTimes(log) ==> CutDown(PolicyTimes(log)[id], SpentBy(log, id), RunsOf(log, id))
    ensures id !in PolicyTimes(log) ==> SpentBy(log, id) == 0
  {
    hide CutDown, PolicyID;
    if log != [] {
      var last := |log| - 1;
      var p := log[last];
      PolicyTimesExact(log[..last], id);
      if PolicyID(p.policy.config) == id && p.started <= p.ended {
        var before := PolicyTimes(log[..last]);
        CutNothing();
        CutOne(if id in before then before[id] else 0, SpentBy(log[..last], id), RunsOf(log[..last], id),
               p.ended - p.started);
      }
    }
  }

  /** And the total of a response: the whole milliseconds between its start and its end. */
  lemma TotalExact(r: Response, run: Run, started: nat, original: Content)
    requires run.Completed? && Reflects(r, run, started, original)
    ensures CutDown(r.timing.totalMS, run.ended - started, 1)
  {
    hide Judge, FindingsIn, FailuresIn, ReplacementsIn, DetectorTimes, PolicyTimes, PolicyIDs, Entries;
  }
}
