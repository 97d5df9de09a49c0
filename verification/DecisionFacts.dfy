/** What the decision of an evaluation means, and what the built-in executor adds to that. */
module DecisionFacts {
  import opened Common
  import opened Content
  import opened Splicing
  import opened Policy
  import opened Detectors
  import opened DetectorFacts
  import opened Evaluation
  import opened RunFacts

  // ----- The action is the maximum, the reason is its first cause -----

  /** The action an event asks for: its policy's when something was found, the failure mode's on a failure. */
  function Asked(e: Entry): Action {
    match e.event
    case Failed(_, f, _, _) => FailureAction(f.failureMode)
    case Answered(_, findings, _, _, _) => if findings != [] then e.policy.config.action else Allow
  }

  function Because(e: Entry): string {
    match e.event
    case Failed(_, f, _, _) => FailureReason(f)
    case Answered(_, _, _, _, _) => FindingReason(e.policy)
  }

  /** `i` is the first entry that asks for an action of the highest priority. */
  ghost predicate FirstHighest(entries: seq<Entry>, i: nat) {
    && i < |entries|
    && (forall j :: 0 <= j < |entries| ==> ActionPriority(Asked(entries[j])) <= ActionPriority(Asked(entries[i])))
    && (forall j :: 0 <= j < i ==> ActionPriority(Asked(entries[j])) < ActionPriority(Asked(entries[i])))
  }

  predicate FailedOpen(e: Entry) {
    e.event.Failed? && FailureAction(e.event.failure.failureMode) == Allow
  }

  ghost predicate FirstFailedOpen(entries: seq<Entry>, i: nat) {
    i < |entries| && FailedOpen(entries[i]) && forall j :: 0 <= j < i ==> !FailedOpen(entries[j])
  }

  /** Nothing in the run asked for more than `allow`. */
  ghost predicate Quiet(entries: seq<Entry>) {
    forall j :: 0 <= j < |entries| ==> ActionPriority(Asked(entries[j])) == 1
  }

  ghost predicate Explained(entries: seq<Entry>, v: Verdict) {
    if Quiet(entries) then
      && v.action == Allow
      && ((v.winningReason == "" && forall j :: 0 <= j < |entries| ==> !FailedOpen(entries[j])) ||
          exists i: nat :: FirstFailedOpen(entries, i) && v.winningReason == FailureReason(entries[i].event.failure))
    else
      exists i: nat :: FirstHighest(entries, i) && v == Verdict(Asked(entries[i]), Because(entries[i]))
  }

  lemma PriorityRange(action: Action)
    ensures 1 <= ActionPriority(action) <= 4
    ensures ActionPriority(action) > 1 ==> action in {Block, Redact, Monitor}
  {
  }

  lemma ReasonsSpeak(e: Entry)
    ensures Because(e) != ""
  {
    hide PolicyID, CodeText, ModeText;
    assert |"matched policy "| > 0 && |" in policy "| > 0;
  }

  /**
   The final action has the highest priority that any finding-producing detector or any failure asked for,
   and the reason is that of the first event asking for it. When nothing asked for more than `allow`, the
   reason is the first fail-open failure's, or none.
   */
  lemma {:induction false} DecisionExplained(entries: seq<Entry>)
    ensures Explained(entries, Judge(entries))
  {
    hide Explained, Judge, Asked, ActionPriority;
    if entries == [] {
      NothingExplained();
    } else {
      var last := |entries| - 1;
      var before, e := entries[..last], entries[last];
      assert before + [e] == entries;
      DecisionExplained(before);
      PriorityRange(Asked(e));
      if !Quiet(before) {
        StaysLoud(before, e);
      } else if ActionPriority(Asked(e)) == 1 {
        StaysQuiet(before, e);
      } else {
        TurnsLoud(before, e);
      }
    }
  }

  lemma NothingExplained()
    ensures Explained([], Judge([]))
  {
  }

  /** Absorbing an event, in terms of what it asks for. */
  lemma AbsorbAsked(v: Verdict, e: Entry)
    ensures Absorb(v, e) ==
      if ActionPriority(Asked(e)) > ActionPriority(v.action) then Verdict(Asked(e), Because(e))
      else if FailedOpen(e) && v.action == Allow && v.winningReason == "" then v.(winningReason := Because(e))
      else v
    ensures FailedOpen(e) ==> Because(e) == FailureReason(e.event.failure)
  {
    hide FailureReason, FindingReason;
  }

  lemma StaysQuiet(before: seq<Entry>, e: Entry)
    requires Quiet(before) && ActionPriority(Asked(e)) == 1 && Explained(before, Judge(before))
    ensures Explained(before + [e], Judge(before + [e]))
  {
    hide FailureReason, Judge, Absorb, Asked, Because;
    var entries, v := before + [e], Judge(before);
    EntryStep(before, e);
    AbsorbAsked(v, e);
    assert Quiet(entries);
    if i: nat :| FirstFailedOpen(before, i) && v.winningReason == FailureReason(before[i].event.failure) {
      AbsorbAsked(v, before[i]);
      ReasonsSpeak(before[i]);
      assert FirstFailedOpen(entries, i);
    } else if FailedOpen(e) {
      assert FirstFailedOpen(entries, |before|);
    }
  }

  lemma TurnsLoud(before: seq<Entry>, e: Entry)
    requires Quiet(before) && ActionPriority(Asked(e)) > 1 && Explained(before, Judge(before))
    ensures Explained(before + [e], Judge(before + [e]))
  {
    hide FailedOpen, Judge, Absorb, Asked, Because, ActionPriority;
    var entries, v := before + [e], Judge(before);
    EntryStep(before, e);
    AbsorbAsked(v, e);
    AllowIsLowest();
    assert FirstHighest(entries, |before|);
    assert !Quiet(entries) by { assert entries[|before|] == e; }
  }

  lemma StaysLoud(before: seq<Entry>, e: Entry)
    requires !Quiet(before) && Explained(before, Judge(before))
    ensures Explained(before + [e], Judge(before + [e]))
  {
    hide FailedOpen, Judge, Absorb, Asked, Because, ActionPriority;
    var entries, v := before + [e], Judge(before);
    EntryStep(before, e);
    AbsorbAsked(v, e);
    var i: nat :| FirstHighest(before, i) && v == Verdict(Asked(before[i]), Because(before[i]));
    var j :| 0 <= j < |before| && ActionPriority(Asked(before[j])) != 1;
    assert entries[j] == before[j] && entries[i] == before[i];
    PriorityRange(Asked(before[j]));
    PriorityRange(Allow);
    AllowIsLowest();
    if ActionPriority(Asked(e)) > ActionPriority(v.action) {
      assert FirstHighest(entries, |before|);
    } else {
      assert FirstHighest(entries, i);
    }
  }

  lemma AllowIsLowest()
    ensures ActionPriority(Allow) == 1
  {
  }

  // ----- Which action it is -----

  /**
   The entry calls for this action: something was found under a policy with that action, or a detector failed
   under a fail-closed policy (`block`) or one that monitors failures (`monitor`).
   */
  predicate CallsFor(e: Entry, action: Action) {
    match e.event
    case Answered(_, findings, _, _, _) => findings != [] && e.policy.config.action == action
    case Failed(_, f, _, _) =>
      (action == Block && f.failureMode == Closed) || (action == Monitor && f.failureMode == MonitorFailure)
  }

  ghost predicate AnyCallsFor(entries: seq<Entry>, action: Action) {
    exists i :: 0 <= i < |entries| && CallsFor(entries[i], action)
  }

  lemma AskedIsCalledFor(e: Entry, action: Action)
    requires action in {Block, Redact, Monitor}
    ensures Asked(e) == action <==> CallsFor(e, action)
  {
  }

  /** A decided action above `allow` was called for, and nothing that was called for ranks above the decision. */
  lemma DecisionIsHighest(entries: seq<Entry>, action: Action)
    requires action in {Block, Redact, Monitor}
    ensures Judge(entries).action == action ==> AnyCallsFor(entries, action)
    ensures AnyCallsFor(entries, action) ==> ActionPriority(action) <= ActionPriority(Judge(entries).action)
    ensures Judge(entries).action in {Allow, Monitor, Redact, Block}
  {
    hide Judge, Because, Asked, CallsFor;
    DecisionExplained(entries);
    if i :| 0 <= i < |entries| && CallsFor(entries[i], action) {
      AskedIsCalledFor(entries[i], action);
      assert !Quiet(entries);
    }
    if !Quiet(entries) {
      var k: nat :| FirstHighest(entries, k) && Judge(entries) == Verdict(Asked(entries[k]), Because(entries[k]));
      AskedIsCalledFor(entries[k], action);
      var j :| 0 <= j < |entries| && ActionPriority(Asked(entries[j])) != 1;
      PriorityRange(Asked(entries[j]));
      PriorityRange(Asked(entries[k]));
    }
  }

  /**
   Which action an evaluation decides on, exactly, whatever the order of events: `block` when anything calls
   for it; otherwise `redact` when a redacting policy's detector found something; otherwise `monitor` when
   anything calls for that; otherwise `allow`.
   */
  lemma DecisionExact(entries: seq<Entry>)
    ensures var action := Judge(entries).action;
            && (action == Block <==> AnyCallsFor(entries, Block))
            && (action == Redact <==>
                  (exists i :: 0 <= i < |entries| && Redacts(entries[i])) && !AnyCallsFor(entries, Block))
            && (action == Monitor <==>
                  AnyCallsFor(entries, Monitor) && !AnyCallsFor(entries, Redact) && !AnyCallsFor(entries, Block))
            && (action == Allow <==>
                  !AnyCallsFor(entries, Monitor) && !AnyCallsFor(entries, Redact) && !AnyCallsFor(entries, Block))
  {
    hide Judge;
    DecisionIsHighest(entries, Block);
    DecisionIsHighest(entries, Redact);
    DecisionIsHighest(entries, Monitor);
    forall i | 0 <= i < |entries| ensures Redacts(entries[i]) <==> CallsFor(entries[i], Redact) {}
  }

  // ----- More policies never weaken a decision -----

  lemma {:induction false} JudgeGrows(entries: seq<Entry>, more: seq<Entry>)
    ensures ActionPriority(Judge(entries).action) <= ActionPriority(Judge(entries + more).action)
  {
    hide FailureReason, FindingReason;
    if more == [] {
      assert entries + more == entries;
    } else {
      var last := |more| - 1;
      var all := entries + more;
      assert all[..|all| - 1] == entries + more[..last];
      JudgeGrows(entries, more[..last]);
    }
  }

  /** Running more policies after some repeats the run of those exactly. */
  lemma {:induction false} LongerRunExtends(env: Env, first: seq<CompiledPolicy>, more: seq<CompiledPolicy>,
                                            now: nat, calls: nat)
    requires RunPolicies(env, first + more, now, calls).Completed?
    ensures RunPolicies(env, first, now, calls).Completed?
    ensures RunPolicies(env, first, now, calls).log <= RunPolicies(env, first + more, now, calls).log
    decreases |first|
  {
    hide RunDetectors, PolicyDeadline;
    if first != [] {
      var all := first + more;
      assert all[0] == first[0] && all[1..] == first[1..] + more;
      var run := RunDetectors(env, first[0], 0, PolicyDeadline(env.caller, first[0], now), now, calls);
      LongerRunExtends(env, first[1..], more, run.ended, run.calls);
    }
  }

  lemma {:induction false} EntriesPrefix(log: seq<PolicyLog>, more: seq<PolicyLog>)
    ensures Entries(log) <= Entries(log + more)
  {
    hide EntriesOf;
    if more == [] {
      assert log + more == log;
    } else {
      var last := |more| - 1;
      var all := log + more;
      assert all[..|all| - 1] == log + more[..last];
      EntriesPrefix(log, more[..last]);
    }
  }

  /**
   Caller choice cannot weaken a decision. Whatever profile and policies the caller selects, when the
   evaluation completes, the evaluation of the mandatory policies alone completes too, sees the same
   events first, and decides on an action of no higher priority.
   */
  lemma CallerCannotWeaken(c: Catalog, env: Env, tenant: string, profile: string, selected: seq<string>,
                           stage: string, started: nat)
    requires Resolved(c, tenant, profile, selected, stage).Success?
    requires RunPolicies(env, Resolved(c, tenant, profile, selected, stage).value, started, 0).Completed?
    ensures var mandatory := Resolved(c, tenant, "", [], stage);
            && mandatory.Success?
            && var run := RunPolicies(env, mandatory.value, started, 0);
               var full := RunPolicies(env, Resolved(c, tenant, profile, selected, stage).value, started, 0);
               && run.Completed? && Entries(run.log) <= Entries(full.log)
               && ActionPriority(Judge(Entries(run.log)).action) <= ActionPriority(Judge(Entries(full.log)).action)
  {
    hide RunPolicies, Resolved, Entries, Judge;
    MandatoryFirst(c, tenant, profile, selected, stage);
    var own := Resolved(c, tenant, "", [], stage).value;
    var all := Resolved(c, tenant, profile, selected, stage).value;
    var more := all[|own|..];
    assert all == own + more;
    LongerRunExtends(env, own, more, started, 0);
    var run, full := RunPolicies(env, own, started, 0).log, RunPolicies(env, all, started, 0).log;
    var rest := full[|run|..];
    assert full == run + rest;
    EntriesPrefix(run, rest);
    var tail := Entries(full)[|Entries(run)|..];
    assert Entries(full) == Entries(run) + tail;
    JudgeGrows(Entries(run), tail);
  }

  // ----- The built-in executor -----

  /** It checks its context before and after detecting: late calls fail with an expired deadline. */
  ghost predicate RunsBuiltins(exec: Executor, sc: Scanner)
    requires Sound(sc)
  {
    forall c, n, d, left :: BuiltinCall(exec(c, n, d, left), c, d, left, sc)
  }

  ghost predicate BuiltinCall(call: Call, c: Content, d: Detector, left: nat, sc: Scanner)
    requires Sound(sc)
  {
    match call.reply
    case Refusal(error) => left <= call.elapsed && error.deadlineExceeded
    case Answer(f, r) => call.elapsed < left && (f, r) == Detected(d, sc, c)
  }

  /** The built-in executor, given how long each detection takes. */
  ghost function BuiltinExecutor(sc: Scanner, duration: (Content, nat, Detector) -> nat): Executor
    requires Sound(sc)
  {
    (c: Content, n: nat, d: Detector, left: nat) =>
      if left == 0 then Call(0, Refusal(ExecError(true, None)))
      else if left <= duration(c, n, d) then Call(duration(c, n, d), Refusal(ExecError(true, None)))
      else Call(duration(c, n, d), Answer(Detected(d, sc, c).0, Detected(d, sc, c).1))
  }

  lemma BuiltinExecutorRuns(sc: Scanner, duration: (Content, nat, Detector) -> nat)
    requires Sound(sc)
    ensures RunsBuiltins(BuiltinExecutor(sc, duration), sc)
  {
    hide Detected;
    var exec := BuiltinExecutor(sc, duration);
    forall c, n, d, left ensures BuiltinCall(exec(c, n, d, left), c, d, left, sc) {}
  }

  /** What a built-in event looks like: a detector's own answer, or a timeout of the right scope. */
  ghost predicate BuiltinEvent(env: Env, sc: Scanner, p: CompiledPolicy, e: Event)
    requires Sound(sc)
  {
    match e
    case Answered(d, f, r, _, _) => d in p.detectors && (f, r) == Detected(d, sc, env.content)
    case Failed(hit, f, _, _) =>
      && f.policyID == PolicyID(p.config) && f.failureMode == p.config.failureMode && f.retryable
      && (f.scope == PolicyScope <==> f.code == PolicyTimeout)
      && (f.scope == PolicyScope ==> f.timeoutMS == DurationMilliseconds(p.config.timeout))
      && (f.scope == PolicyScope ==> InMilliseconds(p.config.timeout, f.timeoutMS))
      && (f.scope == DetectorScope ==>
            f.code == DetectorTimeout && hit.Some? && hit.value in p.detectors && f.detectorID == hit.value.id &&
            f.timeoutMS == DurationMilliseconds(hit.value.timeout) && InMilliseconds(hit.value.timeout, f.timeoutMS) &&
            hit.value.timeout < p.config.timeout)
      && 1 <= f.timeoutMS <= DurationMilliseconds(p.config.timeout)
  }

  lemma BuiltinAttempt(env: Env, sc: Scanner, p: CompiledPolicy, i: nat, deadline: int, at: nat, n: nat)
    requires Sound(sc) && RunsBuiltins(env.exec, sc) && WellFormed(p) && i < |p.detectors|
    requires at < deadline <= at + p.config.timeout
    ensures var a := Attempt(env, p, p.detectors[i], deadline, at, n);
            a.Happened? ==> BuiltinEvent(env, sc, p, a.event)
  {
    hide Detected, PolicyID, DurationMilliseconds, InMilliseconds, RunsBuiltins;
    var d := p.detectors[i];
    assert d in p.detectors;
    var left := Max(0, EffectiveDetectorTimeout(deadline - at, d.timeout).1);
    assert BuiltinCall(env.exec(env.content, n, d, left), env.content, d, left, sc) by {
      CallIsBuiltin(env.exec, sc, env.content, n, d, left);
    }
    PositiveMilliseconds(d.timeout, p.config.timeout);
    PositiveMilliseconds(p.config.timeout, p.config.timeout);
    MillisecondsExact(d.timeout);
    MillisecondsExact(p.config.timeout);
  }

  lemma CallIsBuiltin(exec: Executor, sc: Scanner, c: Content, n: nat, d: Detector, left: nat)
    requires Sound(sc) && RunsBuiltins(exec, sc)
    ensures BuiltinCall(exec(c, n, d, left), c, d, left, sc)
  {
    hide BuiltinCall;
  }

  lemma EventsAreBuiltin(env: Env, sc: Scanner, entry: PolicyLog, k: nat)
    requires Sound(sc) && RunsBuiltins(env.exec, sc) && WellFormed(entry.policy) && Logged(env, entry)
    requires k < |entry.events|
    ensures BuiltinEvent(env, sc, entry.policy, entry.events[k])
  {
    hide RunsBuiltins, RunDetectors, PolicyDeadline, Attempt, PolicyID, Detected, DurationMilliseconds, InMilliseconds;
    var p := entry.policy;
    var n :| Logs(env, entry, n);
    var deadline := PolicyDeadline(env.caller, p, entry.started);
    var o := EventOrigin(env, p, 0, deadline, entry.started, n, k);
    PositiveMilliseconds(p.config.timeout, p.config.timeout);
    MillisecondsExact(p.config.timeout);
    if o.Called? {
      DeadlineAhead(env.caller, p, entry.started);
      AttemptRuns(env, p, p.detectors[o.i], deadline, o.at, o.n);
      EventsGapless(env, p, 0, deadline, entry.started, n);
      GaplessPlaces(entry.events, entry.started, entry.ended, k);
      BuiltinAttempt(env, sc, p, o.i, deadline, o.at, o.n);
    }
  }

  /** The entries of a completed run with the built-in executor. */
  ghost predicate BuiltinEntries(env: Env, sc: Scanner, entries: seq<Entry>)
    requires Sound(sc)
  {
    forall e :: e in entries ==> WellFormed(e.policy) && BuiltinEvent(env, sc, e.policy, e.event)
  }

  /**
   With the built-in executor every recorded failure is a timeout: policy-scoped exactly when its code is
   the policy timeout, reporting the timeout of its own scope in whole milliseconds, at least 1 and never more
   than the policy's; and detector-scoped only for a detector with less time than its policy. Every answer is
   the detector's own.
   */
  lemma BuiltinRunEntries(env: Env, sc: Scanner, policies: seq<CompiledPolicy>, now: nat, calls: nat)
    requires Sound(sc) && RunsBuiltins(env.exec, sc) && forall p :: p in policies ==> WellFormed(p)
    requires RunPolicies(env, policies, now, calls).Completed?
    ensures BuiltinEntries(env, sc, Entries(RunPolicies(env, policies, now, calls).log))
  {
    hide RunPolicies, RunsBuiltins, BuiltinEvent, Entries, WellFormed, Logged;
    var log := RunPolicies(env, policies, now, calls).log;
    LogRecords(env, policies, now, calls);
    forall i | 0 <= i < |Entries(log)|
      ensures WellFormed(Entries(log)[i].policy) && BuiltinEvent(env, sc, Entries(log)[i].policy, Entries(log)[i].event)
    {
      var k, j := EntryOrigin(log, i);
      assert policies[k] in policies;
      EventsAreBuiltin(env, sc, log[k], j);
    }
  }

  /**
   The built-in executor does not give up at its deadline, it only notices afterwards: a policy with a
   detector can take any amount of time beyond its timeout.
   */
  lemma BuiltinsCanOverrun(sc: Scanner, c: Content, p: CompiledPolicy, started: nat, late: nat)
    requires Sound(sc) && WellFormed(p) && p.detectors != [] && p.config.timeout <= late
    ensures var slow := BuiltinExecutor(sc, (c, n, d) => late);
            var env := Env(slow, Caller(None, None), c);
            && RunsBuiltins(slow, sc)
            && var run := RunDetectors(env, p, 0, PolicyDeadline(env.caller, p, started), started, 0);
               run.Ran? && run.ended >= started + late
  {
    hide Detected, PolicyID, RunsBuiltins, DurationMilliseconds;
    var slow := BuiltinExecutor(sc, (c, n, d) => late);
    BuiltinExecutorRuns(sc, (c, n, d) => late);
    var env := Env(slow, Caller(None, None), c);
    var d, deadline := p.detectors[0], PolicyDeadline(env.caller, p, started);
    assert d in p.detectors;
    var a := Attempt(env, p, d, deadline, started, 0);
    assert a.Happened? && a.event.ended == started + late;
    if !PolicyScoped(a.event) {
      NoCallerNoHalt(env, p, 1, deadline, started + late, 1);
    }
  }

  lemma {:induction false} NoCallerNoHalt(env: Env, p: CompiledPolicy, i: nat, deadline: int, now: nat, calls: nat)
    requires env.caller == Caller(None, None) && i <= |p.detectors|
    ensures var run := RunDetectors(env, p, i, deadline, now, calls); run.Ran? && now <= run.ended
    decreases |p.detectors| - i
  {
    hide FailureFrom, PolicyID, OutOfTime;
    if i < |p.detectors| && now < deadline {
      var a := Attempt(env, p, p.detectors[i], deadline, now, calls);
      NoCallerNoHalt(env, p, i + 1, deadline, a.event.ended, calls + 1);
    }
  }

  // ----- A redact decision carries content -----

  lemma {:induction false} ReplacementsHold(entries: seq<Entry>, i: nat, r: Replacement)
    requires i < |entries| && Redacts(entries[i]) && r in entries[i].event.replacements
    ensures r in ReplacementsIn(entries)
  {
    hide Redacts;
    var last := |entries| - 1;
    if i < last {
      assert entries[..last][i] == entries[i];
      ReplacementsHold(entries[..last], i, r);
    }
  }

  /** A `redact` decision is due to a redacting policy whose detector found something, never to a failure. */
  lemma RedactHasCause(entries: seq<Entry>) returns (i: nat)
    requires Judge(entries).action == Redact
    ensures i < |entries| && Redacts(entries[i])
  {
    hide Judge, AnyCallsFor, Redacts;
    DecisionExact(entries);
    i :| 0 <= i < |entries| && Redacts(entries[i]);
  }

  /**
   With the built-in executor a `redact` decision always comes with replacements, so the response always
   carries transformed content: redacting policies hold only detectors whose findings bring replacements,
   and no failure asks for `redact`.
   */
  lemma RedactCarriesContent(env: Env, sc: Scanner, entries: seq<Entry>)
    requires Sound(sc) && BuiltinEntries(env, sc, entries) && Judge(entries).action == Redact
    ensures ReplacementsIn(entries) != []
  {
    hide Judge, ReplacementsIn, Detected, PolicyID, DurationMilliseconds, Spanless;
    var i := RedactHasCause(entries);
    var e := entries[i];
    assert e in entries;
    DetectedAligned(e.event.detector, sc, env.content);
    ReplacementsHold(entries, i, e.event.replacements[0]);
  }
}
