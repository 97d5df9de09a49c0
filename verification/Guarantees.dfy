/** From an accepted configuration to the response: what holds of every evaluation the service completes. */
module Guarantees {
  import opened Common
  import opened Content
  import opened Splicing
  import opened Keywords
  import opened Policy
  import opened Detectors
  import opened DetectorFacts
  import opened Evaluation
  import opened RunFacts
  import opened DecisionFacts

  /** The built-in executor meets what the evaluator asks of an executor: its replacements run forward. */
  lemma BuiltinsAnswerForward(exec: Executor, sc: Scanner)
    requires Sound(sc) && RunsBuiltins(exec, sc)
    ensures AnswersForward(exec)
  {
    hide Detected, RunsBuiltins, Fits;
    forall c, n, d, left | exec(c, n, d, left).reply.Answer?
      ensures AllForward(exec(c, n, d, left).reply.replacements)
    {
      CallIsBuiltin(exec, sc, c, n, d, left);
      DetectedForward(d, sc, c);
    }
  }

  lemma DetectedForward(d: Detector, sc: Scanner, c: Content)
    requires Sound(sc)
    ensures AllForward(Detected(d, sc, c).1)
  {
    hide Hits, StringLeaves;
    if !Spanless(d) { DetectedAligned(d, sc, c); }
  }

  /**
   For every accepted configuration, every request that resolves and every run of it that completes with the
   built-in executor: each policy accounts for its detectors; the run ends before the caller's context does;
   failures are timeouts and answers are the detectors' own; the reported timings nest; the decision is
   explained by its first strongest cause; and a `redact` decision has replacements to carry out.
   */
  lemma AcceptedConfigurationsRun(cfg: Config, lib: Compilers, sc: Scanner, env: Env, tenant: string, profile: string,
                                  selected: seq<string>, stage: string, started: nat)
    requires Accepted(cfg, lib) && Sound(sc) && RunsBuiltins(env.exec, sc) && !env.caller.Done(started)
    requires Resolved(CatalogOf(cfg), tenant, profile, selected, stage).Success?
    requires RunPolicies(env, Resolved(CatalogOf(cfg), tenant, profile, selected, stage).value, started, 0).Completed?
    ensures var policies := Resolved(CatalogOf(cfg), tenant, profile, selected, stage).value;
            var run := RunPolicies(env, policies, started, 0);
            var entries := Entries(run.log);
            && |run.log| == |policies|
            && (forall k :: 0 <= k < |policies| ==>
                  run.log[k].policy == policies[k] && Conserved(policies[k], 0, run.log[k].events))
            && started <= run.ended && !env.caller.Done(run.ended)
            && BuiltinEntries(env, sc, entries)
            && Total(DetectorTimes(entries)) <= Total(PolicyTimes(run.log)) <= (run.ended - started) / MILLISECOND
            && Explained(entries, Judge(entries))
            && (Judge(entries).action == Redact ==> ReplacementsIn(entries) != [])
  {
    hide Accepted, CatalogOf, CatalogValid, Resolved, RunPolicies, RunsBuiltins, WellFormed, Entries, Judge;
    hide ReplacementsIn;
    hide Total, DetectorTimes, PolicyTimes, BuiltinEntries, Explained, Conserved;
    var policies := Resolved(CatalogOf(cfg), tenant, profile, selected, stage).value;
    AcceptedIsValid(cfg, lib);
    ResolvedWellFormed(CatalogOf(cfg), tenant, profile, selected, stage);
    RunsConserveDetectors(env, policies, started, 0);
    CompletedBeforeCaller(env, policies, started, 0);
    BuiltinRunEntries(env, sc, policies, started, 0);
    TimingsNest(env, policies, started, 0);
    var entries := Entries(RunPolicies(env, policies, started, 0).log);
    DecisionExplained(entries);
    if Judge(entries).action == Redact { RedactCarriesContent(env, sc, entries); }
  }

  // ----- What is there is found, and what is found is acted on -----

  lemma {:induction false} KeywordHitsReach(id: string, cfg: KeywordsConfig, leaf: Leaf, w: nat, count: nat)
    requires w < count <= |cfg.values| && KeywordSpans(leaf.text, cfg.values[w], cfg.caseSensitive) != []
    ensures KeywordHits(id, cfg, leaf, count) != []
  {
    hide KeywordSpans;
    if w < count - 1 { KeywordHitsReach(id, cfg, leaf, w, count - 1); }
  }

  lemma {:induction false} HitsReach(d: Detector, sc: Scanner, leaves: seq<Leaf>, l: nat)
    requires l < |leaves| && TextHits(d, sc, leaves[l]) != []
    ensures HitsOver(d, sc, leaves) != []
  {
    hide TextHits;
    var last := |leaves| - 1;
    if l < last {
      assert leaves[..last][l] == leaves[l];
      HitsReach(d, sc, leaves[..last], l);
    }
  }

  /** A keyword detector reports something whenever one of its keywords occurs in the text or a message. */
  lemma KeywordFound(d: Detector, sc: Scanner, c: Content, l: nat, w: nat)
    requires Sound(sc) && CountConfigured(d) == 1 && d.keywords.Some?
    requires l < |TextLeaves(c)| && w < |d.keywords.value.values| && d.keywords.value.values[w] != ""
    requires var cfg := d.keywords.value;
             Contains(Folded(TextLeaves(c)[l].text, cfg.caseSensitive), Folded(cfg.values[w], cfg.caseSensitive))
    ensures Detected(d, sc, c).0 != []
  {
    hide TextLeaves, Contains, Folded, HitsOver, KeywordHits;
    var cfg, leaf := d.keywords.value, TextLeaves(c)[l];
    OccurrenceHasSpan(leaf.text, cfg.values[w], cfg.caseSensitive);
    KeywordHitsReach(d.id, cfg, leaf, w, |cfg.values|);
    HitsReach(d, sc, TextLeaves(c), l);
  }

  lemma OccurrenceHasSpan(text: string, keyword: string, caseSensitive: bool)
    requires keyword != "" && Contains(Folded(text, caseSensitive), Folded(keyword, caseSensitive))
    ensures KeywordSpans(text, keyword, caseSensitive) != []
  {
    hide KeywordSpans, Folded, OccursAt;
    MatchesAreExact(text, keyword, caseSensitive);
    var i :| OccursAt(Folded(text, caseSensitive), Folded(keyword, caseSensitive), i);
    assert StartsInside(KeywordSpans(text, keyword, caseSensitive), i);
  }

  function NoTime(c: Content, n: nat, d: Detector): nat {
    0
  }

  /** The built-in executor when detection takes no measurable time. */
  ghost function Instant(sc: Scanner, c: Content): Env
    requires Sound(sc)
  {
    Env(BuiltinExecutor(sc, NoTime), Caller(None, None), c)
  }

  lemma InstantAnswers(sc: Scanner, c: Content, p: CompiledPolicy, d: Detector, started: nat, n: nat) returns (e: Event)
    requires Sound(sc) && WellFormed(p) && p.detectors == [d]
    ensures e == Answered(d, Detected(d, sc, c).0, Detected(d, sc, c).1, started, started)
    ensures RunDetectors(Instant(sc, c), p, 0, started + p.config.timeout, started, n) == Ran([e], started, n + 1)
  {
    hide Detected, PolicyID, FailureFrom, OutOfTime;
    var env, deadline := Instant(sc, c), started + p.config.timeout;
    assert d in p.detectors;
    e := Answered(d, Detected(d, sc, c).0, Detected(d, sc, c).1, started, started);
    assert NoTime(c, n, d) == 0;
    assert Attempt(env, p, d, deadline, started, n) == Happened(e);
    assert RunDetectors(env, p, 1, deadline, started, n + 1) == Ran([], started, n + 1);
    assert [e] + [] == [e];
  }

  lemma OnlyEntry(p: CompiledPolicy, e: Event, started: nat)
    ensures Judge(Entries([PolicyLog(p, [e], started, started)])) == Absorb(Verdict(Allow, ""), Entry(p, e))
  {
    hide Absorb, EntriesOf, PolicyIDs, PolicyTimes, PolicyID;
    LogStep([], PolicyLog(p, [e], started, started));
    LogEmpty();
    assert [] + [PolicyLog(p, [e], started, started)] == [PolicyLog(p, [e], started, started)];
    EntriesOfOne(p, e);
    EntryStep([], Entry(p, e));
    assert [] + [Entry(p, e)] == [Entry(p, e)];
  }

  /** A redacting policy whose detector finds something and takes no time ends in a `redact` decision. */
  lemma RedactionHappens(sc: Scanner, c: Content, p: CompiledPolicy, d: Detector, started: nat)
    requires Sound(sc) && WellFormed(p) && p.config.action == Redact && p.detectors == [d]
    requires Detected(d, sc, c).0 != []
    ensures var run := RunPolicies(Instant(sc, c), [p], started, 0);
            run.Completed? && Judge(Entries(run.log)).action == Redact
  {
    hide Detected, PolicyID, FindingReason, RunDetectors, Judge, Entries;
    var e := InstantAnswers(sc, c, p, d, started, 0);
    var entry := PolicyLog(p, [e], started, started);
    assert [p][1..] == [];
    assert [entry] + [] == [entry];
    assert RunPolicies(Instant(sc, c), [], started, 1) == Completed([], started);
    assert RunPolicies(Instant(sc, c), [p], started, 0) == Completed([entry], started);
    OnlyEntry(p, e, started);
  }

  lemma EntriesOfOne(p: CompiledPolicy, e: Event)
    ensures [] + EntriesOf(p, [e]) == [Entry(p, e)]
  {
  }
}
