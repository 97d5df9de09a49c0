/**
 One evaluation as a timed run. Time is in nanoseconds and passes only inside executor calls;
 a context is done from the moment its deadline or cancellation is reached.
 */
module Evaluation {
  import opened Common
  import opened Content
  import opened Splicing
  import opened Redaction
  import opened Policy
  import opened Detectors

  datatype FailureScope = PolicyScope | DetectorScope

  datatype FailureCode =
    | PolicyTimeout | DetectorTimeout
    | DetectorUnavailable | DetectorInvalidResponse | DetectorUnsupported | DetectorInternal
    | OtherCode(raw: string)

  datatype DetectorFailure = DetectorFailure(
    policyID: string, detectorID: string, scope: FailureScope, code: FailureCode,
    failureMode: FailureMode, timeoutMS: int, retryable: bool)

  /** An executor's typed error. */
  datatype DetectorError = DetectorError(code: FailureCode, retryable: bool)

  /** An error as the evaluator inspects it: whether it is an expired deadline, and the typed error in it. */
  datatype ExecError = ExecError(deadlineExceeded: bool, typed: Option<DetectorError>)

  datatype Reply = Answer(findings: seq<Finding>, replacements: seq<Replacement>) | Refusal(error: ExecError)

  datatype Call = Call(elapsed: nat, reply: Reply)

  /** What the n-th executor call does, given the content, the detector and the time its context has left. */
  type Executor = (Content, nat, Detector, nat) -> Call

  /** Every replacement an executor answers with runs forward, as those of the built-in detectors do. */
  ghost predicate AnswersForward(exec: Executor) {
    forall c, n, d, left :: exec(c, n, d, left).reply.Answer? ==> AllForward(exec(c, n, d, left).reply.replacements)
  }

  /** The caller's context: its deadline, and the moment it is cancelled, if there are any. */
  datatype Caller = Caller(deadline: Option<nat>, cancelled: Option<nat>) {
    predicate Done(now: nat) {
      (deadline.Some? && deadline.value <= now) || (cancelled.Some? && cancelled.value <= now)
    }
  }

  // ----- Actions and failures -----

  function ActionPriority(action: Action): int {
    match action
    case Block => 4
    case Redact => 3
    case Monitor => 2
    case _ => 1
  }

  function FailureAction(mode: FailureMode): Action {
    match mode
    case Closed => Block
    case MonitorFailure => Monitor
    case _ => Allow
  }

  function Milliseconds(duration: int): int {
    if duration >= 0 then duration / MILLISECOND else -(-duration / MILLISECOND)
  }

  function DurationMilliseconds(duration: int): int {
    if Milliseconds(duration) == 0 && duration > 0 then 1 else Milliseconds(duration)
  }

  function NewFailure(policyID: string, detectorID: string, scope: FailureScope, code: FailureCode,
                      mode: FailureMode, timeout: int, retryable: bool): DetectorFailure {
    DetectorFailure(policyID, detectorID, scope, code, mode, DurationMilliseconds(timeout), retryable)
  }

  predicate ValidExecutorFailureCode(code: FailureCode) {
    code in {DetectorUnavailable, DetectorInvalidResponse, DetectorUnsupported, DetectorInternal}
  }

  function FailureFrom(policyID: string, detectorID: string, scope: FailureScope, mode: FailureMode,
                       timeout: int, error: ExecError): DetectorFailure {
    if error.deadlineExceeded then
      NewFailure(policyID, detectorID, scope,
                 if scope == PolicyScope then PolicyTimeout else DetectorTimeout, mode, timeout, true)
    else
      NewFailure(policyID, detectorID, DetectorScope,
                 if error.typed.Some? && ValidExecutorFailureCode(error.typed.value.code)
                 then error.typed.value.code else DetectorInternal,
                 mode, timeout, error.typed.Some? && error.typed.value.retryable)
  }

  function EffectiveDetectorTimeout(remaining: int, configured: int): (FailureScope, int) {
    if configured < remaining then (DetectorScope, configured) else (PolicyScope, remaining)
  }

  /** The deadline of a policy's context: its own timeout, or the caller's deadline when that is earlier. */
  function PolicyDeadline(caller: Caller, p: CompiledPolicy, started: nat): int {
    var own := started + p.config.timeout;
    if caller.deadline.Some? then Min(caller.deadline.value, own) else own
  }

  // ----- The trace of a run -----

  datatype Env = Env(exec: Executor, caller: Caller, content: Content)

  /** One turn of the detector loop: a detector's answer, or a failure with the detector it hit, if any. */
  datatype Event =
    | Answered(detector: Detector, findings: seq<Finding>, replacements: seq<Replacement>, started: nat, ended: nat)
    | Failed(hit: Option<Detector>, failure: DetectorFailure, started: nat, ended: nat)

  predicate PolicyScoped(e: Event) {
    e.Failed? && e.failure.scope == PolicyScope
  }

  datatype Attempted = CallerGone(at: nat) | Happened(event: Event)

  /** The error a call ends with: the executor's own, or its context's when the answer came too late. */
  function CallError(env: Env, call: Call, timeout: int, ended: nat): Option<ExecError> {
    if call.reply.Refusal? then Some(call.reply.error)
    else if timeout <= call.elapsed then Some(ExecError(true, None))
    else if env.caller.Done(ended) then Some(ExecError(false, None))
    else None
  }

  /** One executor call, made while the policy still has time. */
  function Attempt(env: Env, p: CompiledPolicy, d: Detector, deadline: int, now: nat, calls: nat): Attempted {
    var (scope, timeout) := EffectiveDetectorTimeout(deadline - now, d.timeout);
    var call := env.exec(env.content, calls, d, Max(0, timeout));
    var ended := now + call.elapsed;
    var error := CallError(env, call, timeout, ended);
    if error.None? then Happened(Answered(d, call.reply.findings, call.reply.replacements, now, ended))
    else if env.caller.Done(ended) then CallerGone(ended)
    else
      var evidence := if scope == PolicyScope && error.value.deadlineExceeded then p.config.timeout else timeout;
      Happened(Failed(Some(d),
        FailureFrom(PolicyID(p.config), d.id, scope, p.config.failureMode, evidence, error.value), now, ended))
  }

  /** The failure recorded when the policy's time is up before the next detector starts. */
  function OutOfTime(p: CompiledPolicy, now: nat): Event {
    Failed(None, NewFailure(PolicyID(p.config), "", PolicyScope, PolicyTimeout,
                            p.config.failureMode, p.config.timeout, true), now, now)
  }

  datatype PolicyRun = Halted(at: nat) | Ran(events: seq<Event>, ended: nat, calls: nat)

  function After(events: seq<Event>, rest: PolicyRun): PolicyRun {
    if rest.Halted? then rest else rest.(events := events + rest.events)
  }

  /** A policy's detectors from the `i`-th on. */
  function RunDetectors(env: Env, p: CompiledPolicy, i: nat, deadline: int, now: nat, calls: nat): PolicyRun
    requires i <= |p.detectors|
    decreases |p.detectors| - i
  {
    if i == |p.detectors| then Ran([], now, calls)
    else if env.caller.Done(now) then Halted(now)
    else if deadline <= now then Ran([OutOfTime(p, now)], now, calls)
    else
      var attempt := Attempt(env, p, p.detectors[i], deadline, now, calls);
      if attempt.CallerGone? then Halted(attempt.at)
      else if PolicyScoped(attempt.event) then Ran([attempt.event], attempt.event.ended, calls + 1)
      else After([attempt.event], RunDetectors(env, p, i + 1, deadline, attempt.event.ended, calls + 1))
  }

  /** What one policy did. */
  datatype PolicyLog = PolicyLog(policy: CompiledPolicy, events: seq<Event>, started: nat, ended: nat)

  datatype Run = Aborted(at: nat) | Completed(log: seq<PolicyLog>, ended: nat)

  function Following(log: seq<PolicyLog>, rest: Run): Run {
    if rest.Aborted? then rest else rest.(log := log + rest.log)
  }

  function RunPolicies(env: Env, policies: seq<CompiledPolicy>, now: nat, calls: nat): Run {
    if policies == [] then Completed([], now)
    else if env.caller.Done(now) then Aborted(now)
    else
      var p := policies[0];
      var run := RunDetectors(env, p, 0, PolicyDeadline(env.caller, p, now), now, calls);
      if run.Halted? then Aborted(run.at)
      else Following([PolicyLog(p, run.events, now, run.ended)], RunPolicies(env, policies[1..], run.ended, run.calls))
  }

  // ----- What a run adds up to -----

  /** An event together with the policy it happened in. */
  datatype Entry = Entry(policy: CompiledPolicy, event: Event)

  function EntriesOf(p: CompiledPolicy, events: seq<Event>): (entries: seq<Entry>)
    ensures |entries| == |events| && forall i :: 0 <= i < |events| ==> entries[i] == Entry(p, events[i])
  {
    seq(|events|, i requires 0 <= i < |events| => Entry(p, events[i]))
  }

  function Entries(log: seq<PolicyLog>): seq<Entry> {
    if log == [] then []
    else Entries(log[..|log| - 1]) + EntriesOf(log[|log| - 1].policy, log[|log| - 1].events)
  }

  function FindingReason(p: CompiledPolicy): string {
    "matched policy " + PolicyID(p.config)
  }

  function CodeText(code: FailureCode): string {
    match code
    case PolicyTimeout => "POLICY_TIMEOUT"
    case DetectorTimeout => "DETECTOR_TIMEOUT"
    case DetectorUnavailable => "DETECTOR_UNAVAILABLE"
    case DetectorInvalidResponse => "DETECTOR_INVALID_RESPONSE"
    case DetectorUnsupported => "DETECTOR_UNSUPPORTED_INPUT"
    case DetectorInternal => "DETECTOR_INTERNAL_ERROR"
    case OtherCode(raw) => raw
  }

  function ModeText(mode: FailureMode): string {
    match mode
    case Open => "open"
    case Closed => "closed"
    case MonitorFailure => "monitor"
    case Unset => ""
    case OtherMode(raw) => raw
  }

  function FailureReason(f: DetectorFailure): string {
    CodeText(f.code) + " in policy " + f.policyID + " handled with failure mode " + ModeText(f.failureMode)
  }

  datatype Verdict = Verdict(action: Action, winningReason: string)

  function AbsorbFailure(v: Verdict, f: DetectorFailure): Verdict {
    var action := FailureAction(f.failureMode);
    if ActionPriority(action) > ActionPriority(v.action) then Verdict(action, FailureReason(f))
    else if action == Allow && v.action == Allow && v.winningReason == "" then v.(winningReason := FailureReason(f))
    else v
  }

  function Absorb(v: Verdict, e: Entry): Verdict {
    match e.event
    case Failed(_, f, _, _) => AbsorbFailure(v, f)
    case Answered(_, findings, _, _, _) =>
      if findings != [] && ActionPriority(e.policy.config.action) > ActionPriority(v.action)
      then Verdict(e.policy.config.action, FindingReason(e.policy)) else v
  }

  function Judge(entries: seq<Entry>): Verdict {
    if entries == [] then Verdict(Allow, "") else Absorb(Judge(entries[..|entries| - 1]), entries[|entries| - 1])
  }

  function FindingsIn(entries: seq<Entry>): seq<Finding> {
    if entries == [] then []
    else
      var last := entries[|entries| - 1].event;
      FindingsIn(entries[..|entries| - 1]) + if last.Answered? then last.findings else []
  }

  function FailuresIn(entries: seq<Entry>): seq<DetectorFailure> {
    if entries == [] then []
    else
      var last := entries[|entries| - 1].event;
      FailuresIn(entries[..|entries| - 1]) + if last.Failed? then [last.failure] else []
  }

  /** The entry's replacements count: its policy redacts and its detector found something. */
  predicate Redacts(e: Entry) {
    e.event.Answered? && e.event.findings != [] && e.policy.config.action == Redact
  }

  function ReplacementsIn(entries: seq<Entry>): seq<Replacement> {
    if entries == [] then []
    else
      var last := entries[|entries| - 1];
      ReplacementsIn(entries[..|entries| - 1]) + if Redacts(last) then last.event.replacements else []
  }

  type Clock = map<string, nat>

  function AddTime(clock: Clock, id: string, elapsed: nat): Clock {
    clock[id := (if id in clock then clock[id] else 0) + elapsed / MILLISECOND]
  }

  /** The detector an event ran, if any. */
  function Executed(e: Event): Option<Detector> {
    if e.Answered? then Some(e.detector) else e.hit
  }

  function DetectorTimes(entries: seq<Entry>): Clock {
    if entries == [] then map[]
    else
      var last := entries[|entries| - 1].event;
      var before := DetectorTimes(entries[..|entries| - 1]);
      if Executed(last).None? || last.ended < last.started then before
      else AddTime(before, Executed(last).value.id, last.ended - last.started)
  }

  function PolicyTimes(log: seq<PolicyLog>): Clock {
    if log == [] then map[]
    else
      var last := log[|log| - 1];
      var before := PolicyTimes(log[..|log| - 1]);
      if last.ended < last.started then before
      else AddTime(before, PolicyID(last.policy.config), last.ended - last.started)
  }

  function PolicyIDs(log: seq<PolicyLog>): (ids: seq<string>)
    ensures |ids| == |log| && forall i :: 0 <= i < |log| ==> ids[i] == PolicyID(log[i].policy.config)
  {
    seq(|log|, i requires 0 <= i < |log| => PolicyID(log[i].policy.config))
  }

  lemma EntryStep(entries: seq<Entry>, e: Entry)
    ensures var all := entries + [e];
            && Judge(all) == Absorb(Judge(entries), e)
            && FindingsIn(all) == FindingsIn(entries) + (if e.event.Answered? then e.event.findings else [])
            && FailuresIn(all) == FailuresIn(entries) + (if e.event.Failed? then [e.event.failure] else [])
            && ReplacementsIn(all) == ReplacementsIn(entries) + (if Redacts(e) then e.event.replacements else [])
            && DetectorTimes(all) ==
                 (if Executed(e.event).None? || e.event.ended < e.event.started then DetectorTimes(entries)
                  else AddTime(DetectorTimes(entries), Executed(e.event).value.id, e.event.ended - e.event.started))
  {
    hide Absorb, Redacts, AddTime;
    assert (entries + [e])[..|entries + [e]| - 1] == entries;
  }

  const DEFAULT_REASON: string := "no policy findings"

  datatype Timing = Timing(totalMS: nat, detectors: Clock, policies: Clock)

  datatype Response = Response(
    requestID: string, action: Action, reason: string, transformed: Option<Envelope>,
    appliedPolicies: seq<string>, findings: seq<Finding>, failures: seq<DetectorFailure>, timing: Timing)

  datatype EvaluateError = CallerDone | Unresolved(error: ResolveError)

  datatype Request = Request(
    requestID: string, stage: string, tenantID: string, profile: string, selected: seq<string>, content: Envelope)

  /** The response says exactly what the completed run adds up to. */
  ghost predicate Reflects(r: Response, run: Run, started: nat, original: Content)
    requires run.Completed?
    reads if r.transformed.Some? then {r.transformed.value.messages} else {}
  {
    var entries := Entries(run.log);
    var verdict := Judge(entries);
    var items := ReplacementsIn(entries);
    && r.action == verdict.action
    && r.reason == (if verdict.winningReason != "" then verdict.winningReason else DEFAULT_REASON)
    && r.appliedPolicies == PolicyIDs(run.log)
    && r.findings == FindingsIn(entries)
    && r.failures == FailuresIn(entries)
    && started <= run.ended
    && r.timing == Timing((run.ended - started) / MILLISECOND, DetectorTimes(entries), PolicyTimes(run.log))
    && (r.transformed.Some? <==> verdict.action == Redact && items != [])
    && (r.transformed.Some? ==> View(r.transformed.value) == RedactedContent(original, items))
  }

  // ----- The program -----

  /** The variables the two loops of an evaluation update. */
  class Progress {
    var now: nat
    var calls: nat
    var action: Action
    var winningReason: string
    var findings: seq<Finding>
    var failures: seq<DetectorFailure>
    var replacements: seq<Replacement>
    var detectorTimes: Clock
    ghost var entries: seq<Entry>

    ghost predicate Valid()
      reads `action, `winningReason, `findings, `failures, `replacements, `detectorTimes, `entries
    {
      && Verdict(action, winningReason) == Judge(entries)
      && findings == FindingsIn(entries)
      && failures == FailuresIn(entries)
      && replacements == ReplacementsIn(entries)
      && detectorTimes == DetectorTimes(entries)
    }

    constructor (started: nat)
      ensures Valid() && entries == [] && now == started && calls == 0
    {
      now, calls := started, 0;
      action, winningReason := Allow, "";
      findings, failures, replacements, detectorTimes := [], [], [], map[];
      entries := [];
    }

    method ApplyFailureDecision(failure: DetectorFailure)
      modifies this`action, this`winningReason
      ensures Verdict(action, winningReason) == AbsorbFailure(old(Verdict(action, winningReason)), failure)
    {
      var effect := Allow;
      match failure.failureMode {
        case Closed => effect := Block;
        case MonitorFailure => effect := Monitor;
        case _ =>
      }
      if ActionPriority(effect) > ActionPriority(action) {
        action := effect;
        winningReason := FailureReason(failure);
      } else if effect == Allow && action == Allow && winningReason == "" {
        winningReason := FailureReason(failure);
      }
    }

    /** Records a failed turn of the detector loop. */
    method RecordFailure(p: CompiledPolicy, e: Event)
      requires Valid() && e.Failed? && e.started <= e.ended
      modifies this
      ensures Valid() && entries == old(entries) + [Entry(p, e)]
      ensures now == old(now) && calls == old(calls)
    {
      hide Judge, FindingsIn, FailuresIn, ReplacementsIn, DetectorTimes, AbsorbFailure, AddTime;
      EntryStep(entries, Entry(p, e));
      entries := entries + [Entry(p, e)];
      if e.hit.Some? {
        detectorTimes := AddTime(detectorTimes, e.hit.value.id, e.ended - e.started);
      }
      failures := failures + [e.failure];
      ApplyFailureDecision(e.failure);
    }

    /** Records a detector's answer. */
    method RecordAnswer(p: CompiledPolicy, e: Event)
      requires Valid() && e.Answered? && e.started <= e.ended
      modifies this
      ensures Valid() && entries == old(entries) + [Entry(p, e)]
      ensures now == old(now) && calls == old(calls)
    {
      hide Judge, FindingsIn, FailuresIn, ReplacementsIn, DetectorTimes, FindingReason, AddTime;
      EntryStep(entries, Entry(p, e));
      entries := entries + [Entry(p, e)];
      detectorTimes := AddTime(detectorTimes, e.detector.id, e.ended - e.started);
      findings := findings + e.findings;
      if |e.findings| == 0 {
        return;
      }
      if ActionPriority(p.config.action) > ActionPriority(action) {
        action := p.config.action;
        winningReason := FindingReason(p);
      }
      if p.config.action == Redact {
        replacements := replacements + e.replacements;
      }
    }
  }

  class Evaluator {
    const resolver: Resolver
    const executor: Executor

    constructor (resolver: Resolver, executor: Executor)
      ensures this.resolver == resolver && this.executor == executor
    {
      this.resolver, this.executor := resolver, executor;
    }

    /** One turn of the detector loop once its deadline checks have passed. */
    method TryDetector(env: Env, p: CompiledPolicy, detector: Detector, deadline: int, s: Progress)
      returns (event: Option<Event>)
      requires env.exec == executor && s.Valid()
      modifies s
      ensures var attempt := Attempt(env, p, detector, deadline, old(s.now), old(s.calls));
              && (event.None? <==> attempt.CallerGone?)
              && (event.Some? ==>
                    s.Valid() && attempt == Happened(event.value) && old(s.now) <= s.now == event.value.ended &&
                    s.calls == old(s.calls) + 1 && s.entries == old(s.entries) + [Entry(p, event.value)])
    {
      hide Progress.Valid, FailureFrom, PolicyID;
      var (scope, timeout) := EffectiveDetectorTimeout(deadline - s.now, detector.timeout);
      var detectorStart := s.now;
      var call := executor(env.content, s.calls, detector, Max(0, timeout));
      s.now, s.calls := s.now + call.elapsed, s.calls + 1;
      var error := CallError(env, call, timeout, s.now);
      if error.Some? {
        if env.caller.Done(s.now) {
          return None;
        }
        var evidence := timeout;
        if scope == PolicyScope && error.value.deadlineExceeded {
          evidence := p.config.timeout;
        }
        var failure :=
          FailureFrom(PolicyID(p.config), detector.id, scope, p.config.failureMode, evidence, error.value);
        var e := Failed(Some(detector), failure, detectorStart, s.now);
        s.RecordFailure(p, e);
        return Some(e);
      }
      var e := Answered(detector, call.reply.findings, call.reply.replacements, detectorStart, s.now);
      s.RecordAnswer(p, e);
      event := Some(e);
    }

    /** The detector loop of one policy; it reports whether the caller's context ended the evaluation. */
    method EvaluatePolicy(env: Env, p: CompiledPolicy, s: Progress)
      returns (aborted: bool)
      requires env.exec == executor && s.Valid()
      modifies s
      ensures var run := RunDetectors(env, p, 0, PolicyDeadline(env.caller, p, old(s.now)), old(s.now), old(s.calls));
              && (aborted <==> run.Halted?)
              && (!aborted ==>
                    s.Valid() && s.now == run.ended && s.calls == run.calls && old(s.now) <= s.now &&
                    s.entries == old(s.entries) + EntriesOf(p, run.events))
    {
      hide Progress.Valid, PolicyID, PolicyDeadline, Attempt, EntriesOf, OutOfTime;
      EntriesOfNothing(p);
      var deadline := PolicyDeadline(env.caller, p, s.now);
      ghost var events: seq<Event> := [];
      ghost var whole := RunDetectors(env, p, 0, deadline, s.now, s.calls);
      AfterNothing(whole);
      for i := 0 to |p.detectors|
        invariant s.Valid() && old(s.now) <= s.now
        invariant s.entries == old(s.entries) + EntriesOf(p, events)
        invariant whole == After(events, RunDetectors(env, p, i, deadline, s.now, s.calls))
      {
        if env.caller.Done(s.now) {
          return true;
        }
        if deadline <= s.now {
          EntriesOfStep(p, events, OutOfTime(p, s.now));
          IsOutOfTime(p, s.now);
          s.RecordFailure(p, OutOfTime(p, s.now));
          return false;
        }
        var event := TryDetector(env, p, p.detectors[i], deadline, s);
        if event.None? {
          return true;
        }
        AfterOne(events, event.value, RunDetectors(env, p, i + 1, deadline, s.now, s.calls));
        EntriesOfStep(p, events, event.value);
        if PolicyScoped(event.value) {
          return false;
        }
        events := events + [event.value];
      }
      assert events + [] == events;
      return false;
    }

    method Evaluate(req: Request, caller: Caller, started: nat) returns (out: Result<Response, EvaluateError>)
      requires AnswersForward(executor)
      modifies req.content.messages
      ensures var original := old(View(req.content));
              var policies := Resolved(old(resolver.Value()), req.tenantID, req.profile, req.selected, req.stage);
              if caller.Done(started) then out == Failure(CallerDone)
              else if policies.Failure? then out == Failure(Unresolved(policies.error))
              else
                var run := RunPolicies(Env(executor, caller, original), policies.value, started, 0);
                if run.Aborted? then out == Failure(CallerDone)
                else
                  && out.Success? && out.value.requestID == req.requestID
                  && Reflects(out.value, run, started, original)
                  && (out.value.transformed.Some? ==> out.value.transformed.value.messages == req.content.messages)
                  && (out.value.transformed.None? ==> View(req.content) == original)
    {
      if caller.Done(started) {
        return Failure(CallerDone);
      }
      var resolution := resolver.Resolve(req.tenantID, req.profile, req.selected, req.stage);
      if resolution.Failure? {
        return Failure(Unresolved(resolution.error));
      }
      out := EvaluateResolved(req, caller, started, resolution.value);
    }

    method EvaluateResolved(req: Request, caller: Caller, started: nat, policies: seq<CompiledPolicy>)
      returns (out: Result<Response, EvaluateError>)
      requires AnswersForward(executor)
      modifies req.content.messages
      ensures var original := old(View(req.content));
              var run := RunPolicies(Env(executor, caller, original), policies, started, 0);
              if run.Aborted? then out == Failure(CallerDone)
              else
                && out.Success? && out.value.requestID == req.requestID
                && Reflects(out.value, run, started, original)
                && (out.value.transformed.Some? ==> out.value.transformed.value.messages == req.content.messages)
                && (out.value.transformed.None? ==> View(req.content) == original)
    {
      hide RunDetectors, PolicyDeadline, PolicyID, AddTime, Progress.Valid, Entries, PolicyIDs, PolicyTimes;
      hide AnswersForward, Reflects, EntriesOf;
      var env := Env(executor, caller, View(req.content));
      var s := new Progress(started);
      var applied: seq<string> := [];
      var policyTimes: Clock := map[];
      ghost var log: seq<PolicyLog> := [];
      ghost var whole := RunPolicies(env, policies, started, 0);
      assert policies[0..] == policies;
      FollowingNothing(whole);
      LogEmpty();
      for k := 0 to |policies|
        invariant View(req.content) == env.content
        invariant s.Valid() && started <= s.now && s.entries == Entries(log)
        invariant applied == PolicyIDs(log) && policyTimes == PolicyTimes(log)
        invariant whole == Following(log, RunPolicies(env, policies[k..], s.now, s.calls))
      {
        var p := policies[k];
        assert policies[k..][0] == p && policies[k..][1..] == policies[k + 1..];
        if caller.Done(s.now) {
          return Failure(CallerDone);
        }
        var policyID := PolicyID(p.config);
        applied := applied + [policyID];
        var policyStart := s.now;
        ghost var run := RunDetectors(env, p, 0, PolicyDeadline(caller, p, policyStart), policyStart, s.calls);
        var aborted := EvaluatePolicy(env, p, s);
        if aborted {
          return Failure(CallerDone);
        }
        policyTimes := AddTime(policyTimes, policyID, s.now - policyStart);
        ghost var entry := PolicyLog(p, run.events, policyStart, s.now);
        FollowingOne(log, entry, RunPolicies(env, policies[k + 1..], s.now, s.calls));
        LogStep(log, entry);
        log := log + [entry];
      }
      assert log + [] == log;
      assert whole == Completed(log, s.now);
      ReplacementsForward(env, policies, started, 0);
      var response := Respond(req, s, started, applied, policyTimes, log);
      out := Success(response);
    }

    /** Puts the response together, transforming the content when the decision is to redact. */
    method Respond(req: Request, s: Progress, started: nat, applied: seq<string>, policyTimes: Clock,
                   ghost log: seq<PolicyLog>)
      returns (response: Response)
      requires s.Valid() && s.entries == Entries(log) && started <= s.now
      requires applied == PolicyIDs(log) && policyTimes == PolicyTimes(log)
      requires AllForward(ReplacementsIn(s.entries))
      modifies req.content.messages
      ensures response.requestID == req.requestID
      ensures Reflects(response, Completed(log, old(s.now)), started, old(View(req.content)))
      ensures response.transformed.Some? ==> response.transformed.value.messages == req.content.messages
      ensures response.transformed.None? ==> View(req.content) == old(View(req.content))
    {
      hide Judge, FindingsIn, FailuresIn, ReplacementsIn, DetectorTimes, PolicyTimes, PolicyIDs, Entries;
      hide RedactedContent;
      var reason := if s.winningReason != "" then s.winningReason else DEFAULT_REASON;
      var transformed: Option<Envelope> := None;
      if s.action == Redact && |s.replacements| > 0 {
        var content := ApplyReplacements(req.content, s.replacements);
        transformed := Some(content);
      }
      response := Response(req.requestID, s.action, reason, transformed, applied, s.findings, s.failures,
                           Timing((s.now - started) / MILLISECOND, s.detectorTimes, policyTimes));
    }
  }

  lemma EntriesOfStep(p: CompiledPolicy, events: seq<Event>, e: Event)
    ensures EntriesOf(p, events + [e]) == EntriesOf(p, events) + [Entry(p, e)]
  {
  }

  lemma EntriesOfNothing(p: CompiledPolicy)
    ensures EntriesOf(p, []) == []
  {
  }

  lemma IsOutOfTime(p: CompiledPolicy, now: nat)
    ensures var e := OutOfTime(p, now); e.Failed? && e.started == e.ended == now
  {
  }

  lemma LogStep(log: seq<PolicyLog>, p: PolicyLog)
    ensures Entries(log + [p]) == Entries(log) + EntriesOf(p.policy, p.events)
    ensures PolicyIDs(log + [p]) == PolicyIDs(log) + [PolicyID(p.policy.config)]
    ensures PolicyTimes(log + [p]) ==
      if p.ended < p.started then PolicyTimes(log)
      else AddTime(PolicyTimes(log), PolicyID(p.policy.config), p.ended - p.started)
  {
    hide PolicyID, AddTime, EntriesOf;
    assert (log + [p])[..|log + [p]| - 1] == log;
  }

  lemma LogEmpty()
    ensures Entries([]) == [] && PolicyIDs([]) == [] && PolicyTimes([]) == map[]
  {
  }

  lemma AfterNothing(run: PolicyRun)
    ensures After([], run) == run
  {
    assert run.Ran? ==> [] + run.events == run.events;
  }

  lemma AfterOne(events: seq<Event>, e: Event, rest: PolicyRun)
    ensures After(events, After([e], rest)) == After(events + [e], rest)
  {
    assert rest.Ran? ==> events + ([e] + rest.events) == events + [e] + rest.events;
  }

  lemma FollowingNothing(run: Run)
    ensures Following([], run) == run
  {
    assert run.Completed? ==> [] + run.log == run.log;
  }

  lemma FollowingOne(log: seq<PolicyLog>, entry: PolicyLog, rest: Run)
    ensures Following(log, Following([entry], rest)) == Following(log + [entry], rest)
  {
    assert rest.Completed? ==> log + ([entry] + rest.log) == log + [entry] + rest.log;
  }

  // ----- Replacements that reach the splicer run forward -----

  ghost predicate ForwardEvents(events: seq<Event>) {
    forall e :: e in events && e.Answered? ==> AllForward(e.replacements)
  }

  lemma {:induction false} RunForward(env: Env, p: CompiledPolicy, i: nat, deadline: int, now: nat, calls: nat)
    requires AnswersForward(env.exec) && i <= |p.detectors|
    ensures var run := RunDetectors(env, p, i, deadline, now, calls); run.Ran? ==> ForwardEvents(run.events)
    decreases |p.detectors| - i
  {
    if i < |p.detectors| && !env.caller.Done(now) && now < deadline {
      var attempt := Attempt(env, p, p.detectors[i], deadline, now, calls);
      if attempt.Happened? {
        RunForward(env, p, i + 1, deadline, attempt.event.ended, calls + 1);
      }
    }
  }

  lemma {:induction false} LogForward(env: Env, policies: seq<CompiledPolicy>, now: nat, calls: nat)
    requires AnswersForward(env.exec)
    ensures var run := RunPolicies(env, policies, now, calls);
            run.Completed? ==> forall k :: 0 <= k < |run.log| ==> ForwardEvents(run.log[k].events)
  {
    if policies != [] && !env.caller.Done(now) {
      var p := policies[0];
      RunForward(env, p, 0, PolicyDeadline(env.caller, p, now), now, calls);
      var run := RunDetectors(env, p, 0, PolicyDeadline(env.caller, p, now), now, calls);
      if run.Ran? { LogForward(env, policies[1..], run.ended, run.calls); }
    }
  }

  lemma {:induction false} EntriesForward(entries: seq<Entry>)
    requires forall e :: e in entries && e.event.Answered? ==> AllForward(e.event.replacements)
    ensures AllForward(ReplacementsIn(entries))
  {
    if entries != [] {
      var last := |entries| - 1;
      assert entries[last] in entries && forall e :: e in entries[..last] ==> e in entries;
      EntriesForward(entries[..last]);
    }
  }

  /** Every entry of a log is an event of one of its policies. */
  lemma {:induction false} EntryOrigin(log: seq<PolicyLog>, i: nat) returns (k: nat, j: nat)
    requires i < |Entries(log)|
    ensures k < |log| && j < |log[k].events| && Entries(log)[i] == Entry(log[k].policy, log[k].events[j])
  {
    var last := |log| - 1;
    var before := Entries(log[..last]);
    if i < |before| {
      k, j := EntryOrigin(log[..last], i);
    } else {
      k, j := last, i - |before|;
    }
  }

  lemma ReplacementsForward(env: Env, policies: seq<CompiledPolicy>, now: nat, calls: nat)
    requires AnswersForward(env.exec)
    ensures var run := RunPolicies(env, policies, now, calls);
            run.Completed? ==> AllForward(ReplacementsIn(Entries(run.log)))
  {
    var run := RunPolicies(env, policies, now, calls);
    if run.Completed? {
      LogForward(env, policies, now, calls);
      var entries := Entries(run.log);
      forall i | 0 <= i < |entries| && entries[i].event.Answered? ensures AllForward(entries[i].event.replacements) {
        var k, j := EntryOrigin(run.log, i);
        assert run.log[k].events[j] in run.log[k].events;
      }
      EntriesForward(entries);
    }
  }
}
