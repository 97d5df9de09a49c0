/** Which policies a request is judged by, and with which settings, in terms of the configuration alone. */
module Effective {
  import opened Common
  import opened Policy
  import opened Evaluation
  import opened RunFacts
  import opened DecisionFacts

  // ----- Which policies apply -----

  /** The policy named by an id takes part in the resolution: it exists, and is found when it supports the stage. */
  ghost predicate TakesPart(c: Catalog, id: string, stage: string, found: seq<CompiledPolicy>) {
    id in c.policies && (stage in c.policies[id].config.stages ==> c.policies[id] in found)
  }

  /** A policy found is the one that some id of the list names, and it supports the stage. */
  ghost predicate NamedBy(c: Catalog, ids: seq<string>, stage: string, p: CompiledPolicy) {
    stage in p.config.stages && exists id :: id in ids && id in c.policies && c.policies[id] == p
  }

  /** The platform's policies, then the tenant's, then the profile's, then those the caller selects. */
  function Sources(c: Catalog, tenant: string, profile: string, selected: seq<string>): seq<string> {
    c.platform +
    (if tenant in c.tenants then c.tenants[tenant] else []) +
    (if profile != "" && profile in c.profiles then c.profiles[profile] else []) +
    selected
  }

  /**
   The effective policies of a request. Resolution succeeds exactly when the profile and all ids are known. Then
   every policy that the platform demands, that the tenant demands, that the profile lists or that the caller
   selects is found if it supports the stage; nothing else is; and they come in this order, each once.
   */
  lemma EffectivePolicies(c: Catalog, tenant: string, profile: string, selected: seq<string>, stage: string)
    requires Keyed(c)
    ensures var out := Resolved(c, tenant, profile, selected, stage);
            var ids := Sources(c, tenant, profile, selected);
            && (out.Success? <==>
                  (profile == "" || profile in c.profiles) && forall id :: id in ids ==> id in c.policies)
            && (out.Success? ==>
                  && (forall id :: id in c.platform ==> TakesPart(c, id, stage, out.value))
                  && (tenant in c.tenants ==>
                        forall id :: id in c.tenants[tenant] ==> TakesPart(c, id, stage, out.value))
                  && (profile != "" ==>
                        forall id :: id in c.profiles[profile] ==> TakesPart(c, id, stage, out.value))
                  && (forall id :: id in selected ==> TakesPart(c, id, stage, out.value))
                  && (forall p :: p in out.value ==> NamedBy(c, ids, stage, p))
                  && (forall i, j :: 0 <= i < j < |out.value| ==> Earlier(ids, IDAt(out.value, i), IDAt(out.value, j))))
  {
    hide Resolved, Keyed, Earlier, PolicyID;
    SourcesAreRequested(c, tenant, profile, selected);
    ResolutionExact(c, tenant, profile, selected, stage);
    if Resolved(c, tenant, profile, selected, stage).Success? {
      ProfileKnown(c, tenant, profile, selected, stage);
    }
  }

  lemma SourcesAreRequested(c: Catalog, tenant: string, profile: string, selected: seq<string>)
    ensures Sources(c, tenant, profile, selected) == RequestIDs(c, tenant, profile, selected)
  {
  }

  lemma ProfileKnown(c: Catalog, tenant: string, profile: string, selected: seq<string>, stage: string)
    requires Resolved(c, tenant, profile, selected, stage).Success?
    ensures profile == "" || profile in c.profiles
  {
  }

  /** Which error a failed resolution reports: the unknown profile, or the first id that names no policy. */
  lemma ResolutionErrors(c: Catalog, tenant: string, profile: string, selected: seq<string>, stage: string)
    requires Resolved(c, tenant, profile, selected, stage).Failure?
    ensures var error := Resolved(c, tenant, profile, selected, stage).error;
            var ids := Sources(c, tenant, profile, selected);
            if profile != "" && profile !in c.profiles then error == UnknownProfile(profile)
            else exists k :: 0 <= k < |ids| && FirstUnknown(c, ids, k) && error == UnknownPolicy(ids[k])
  {
    hide Walk;
    SourcesAreRequested(c, tenant, profile, selected);
    if profile == "" || profile in c.profiles {
      var ids := Sources(c, tenant, profile, selected);
      var k := WalkError(c, ids, {}, stage);
    }
  }

  ghost predicate FirstUnknown(c: Catalog, ids: seq<string>, k: nat) {
    k < |ids| && ids[k] !in c.policies && forall j :: 0 <= j < k ==> ids[j] in c.policies
  }

  lemma {:induction false} WalkError(c: Catalog, ids: seq<string>, seen: set<string>, stage: string) returns (k: nat)
    requires Walk(c, ids, seen, stage).Failure? && forall id :: id in seen ==> id in c.policies
    ensures FirstUnknown(c, ids, k) && Walk(c, ids, seen, stage).error == UnknownPolicy(ids[k])
  {
    if ids[0] !in seen && ids[0] !in c.policies {
      k := 0;
    } else {
      var later := WalkError(c, ids[1..], if ids[0] in seen then seen else seen + {ids[0]}, stage);
      k := later + 1;
      forall j | 0 <= j < k ensures ids[j] in c.policies {
        if j > 0 { assert ids[j] == ids[1..][j - 1]; }
      }
    }
  }

  // ----- From the configuration -----

  /** The last profile of the configuration with this canonical id. */
  ghost predicate LastProfile(profiles: seq<ProfileConfig>, k: nat) {
    && k < |profiles|
    && forall j :: k < j < |profiles| ==>
         CanonicalID(profiles[j].id, profiles[j].version) != CanonicalID(profiles[k].id, profiles[k].version)
  }

  lemma {:induction false} ProfileCataloged(profiles: seq<ProfileConfig>, k: nat)
    requires LastProfile(profiles, k)
    ensures var id := CanonicalID(profiles[k].id, profiles[k].version);
            id in ProfilesByID(profiles) && ProfilesByID(profiles)[id] == profiles[k].policies
  {
    hide CanonicalID;
    var last := |profiles| - 1;
    if k < last {
      assert profiles[..last][k] == profiles[k];
      ProfileCataloged(profiles[..last], k);
    }
  }

  /**
   The catalog of an accepted configuration holds what the configuration says: the platform's and the tenants'
   lists as they are, every profile under its canonical id, and every policy, with its defaults, under its own.
   */
  lemma CatalogHolds(cfg: Config, lib: Compilers)
    requires Accepted(cfg, lib)
    ensures var c := CatalogOf(cfg);
            && c.platform == cfg.platform && c.tenants == cfg.tenants
            && (forall k :: 0 <= k < |cfg.profiles| && LastProfile(cfg.profiles, k) ==>
                  var id := CanonicalID(cfg.profiles[k].id, cfg.profiles[k].version);
                  id in c.profiles && c.profiles[id] == cfg.profiles[k].policies)
            && (forall i :: 0 <= i < |cfg.policies| ==>
                  var id := CanonicalID(cfg.policies[i].id, cfg.policies[i].version);
                  id in c.policies && c.policies[id] == Compile(cfg.policies[i]))
  {
    hide CanonicalID, Compile, PolicyAccepted, ProfilesByID, CompiledPolicies, LastProfile;
    var c := CatalogOf(cfg);
    forall k: nat | k < |cfg.profiles| && LastProfile(cfg.profiles, k)
      ensures var id := CanonicalID(cfg.profiles[k].id, cfg.profiles[k].version);
              id in c.profiles && c.profiles[id] == cfg.profiles[k].policies
    {
      ProfileCataloged(cfg.profiles, k);
    }
    forall i | 0 <= i < |cfg.policies|
      ensures var id := CanonicalID(cfg.policies[i].id, cfg.policies[i].version);
              id in c.policies && c.policies[id] == Compile(cfg.policies[i])
    {
      CompiledKeys(cfg.policies, i);
      var id := PolicyID(cfg.policies[i]);
      var j := CompiledSource(cfg.policies, id);
    }
  }

  // ----- Which configurations start the service -----

  /** Exactly one type of detector is configured. */
  predicate OneType(d: Detector) {
    var (r, k, l, a, j, s) :=
      (d.regex.Some?, d.keywords.Some?, d.requestLimits.Some?, d.allowDeny.Some?, d.jsonSchema.Some?, d.secrets.Some?);
    || (r && !k && !l && !a && !j && !s)
    || (!r && k && !l && !a && !j && !s)
    || (!r && !k && l && !a && !j && !s)
    || (!r && !k && !l && a && !j && !s)
    || (!r && !k && !l && !a && j && !s)
    || (!r && !k && !l && !a && !j && s)
  }

  /** What the service asks of a configured detector. */
  predicate DetectorFit(d: Detector, raw: PolicyConfig, lib: Compilers) {
    && d.id != "" && OneType(d)
    && (raw.action == Redact ==> d.regex.Some? || d.keywords.Some? || d.secrets.Some?)
    && 0 <= d.timeout <= BudgetOf(raw)
    && (d.regex.Some? ==> lib.patternCompiles(d.regex.value.pattern))
    && (d.requestLimits.Some? ==> lib.settingsAccepted(d.requestLimits.value))
    && (d.allowDeny.Some? ==> lib.settingsAccepted(d.allowDeny.value))
    && (d.jsonSchema.Some? ==> lib.settingsAccepted(d.jsonSchema.value))
    && (d.secrets.Some? ==>
          && d.secrets.value.minEntropy >= 0.0 && d.secrets.value.minEntropyLength >= 0
          && forall t :: t in d.secrets.value.types ==>
               t in {"pem_private_key", "authorization", "connection_string", "known_token", "contextual_high_entropy"})
  }

  /** And of a configured policy. */
  predicate PolicyFit(raw: PolicyConfig, lib: Compilers) {
    && raw.id != "" && raw.version >= 1 && raw.timeout >= 0
    && raw.action in {Allow, Block, Redact, Monitor}
    && raw.failureMode in {Unset, Open, Closed, MonitorFailure}
    && forall i :: 0 <= i < |raw.detectors| ==> DetectorFit(raw.detectors[i], raw, lib)
  }

  lemma DetectorFits(d: Detector, raw: PolicyConfig, lib: Compilers)
    ensures DetectorAccepted(d, raw.action, WithPolicyDefaults(raw).timeout, lib) <==> DetectorFit(d, raw, lib)
  {
    OneTypeCounted(d);
    hide OneType, CountConfigured;
  }

  lemma OneTypeCounted(d: Detector)
    ensures CountConfigured(d) == 1 <==> OneType(d)
    ensures OneType(d) ==> (Spanless(d) <==> !d.regex.Some? && !d.keywords.Some? && !d.secrets.Some?)
    ensures OneType(d) && d.regex.Some? ==>
              !d.requestLimits.Some? && !d.allowDeny.Some? && !d.jsonSchema.Some? && !d.secrets.Some?
    ensures OneType(d) && d.requestLimits.Some? ==>
              !d.regex.Some? && !d.allowDeny.Some? && !d.jsonSchema.Some? && !d.secrets.Some?
    ensures OneType(d) && d.allowDeny.Some? ==>
              !d.regex.Some? && !d.requestLimits.Some? && !d.jsonSchema.Some? && !d.secrets.Some?
    ensures OneType(d) && d.jsonSchema.Some? ==>
              !d.regex.Some? && !d.requestLimits.Some? && !d.allowDeny.Some? && !d.secrets.Some?
    ensures OneType(d) && d.secrets.Some? ==>
              !d.regex.Some? && !d.requestLimits.Some? && !d.allowDeny.Some? && !d.jsonSchema.Some?
  {
  }

  lemma PolicyFits(raw: PolicyConfig, lib: Compilers)
    ensures PolicyAccepted(raw, lib) <==> PolicyFit(raw, lib)
  {
    hide DetectorAccepted, DetectorFit;
    forall i | 0 <= i < |raw.detectors|
      ensures DetectorAccepted(raw.detectors[i], raw.action, WithPolicyDefaults(raw).timeout, lib)
         <==> DetectorFit(raw.detectors[i], raw, lib)
    {
      DetectorFits(raw.detectors[i], raw, lib);
    }
  }

  /** No two policies share both their id and their version. */
  ghost predicate DifferentRevisions(policies: seq<PolicyConfig>) {
    forall i, j :: 0 <= i < j < |policies| ==>
      policies[i].id != policies[j].id || policies[i].version != policies[j].version
  }

  /**
   The configurations that start the service, from the settings themselves: every policy and detector fit, no
   revision of a policy given twice, and every policy that the platform demands there.
   */
  lemma AcceptedExactly(cfg: Config, lib: Compilers)
    ensures Accepted(cfg, lib) <==>
            ((forall i :: 0 <= i < |cfg.policies| ==> PolicyFit(cfg.policies[i], lib)) &&
             DifferentRevisions(cfg.policies) &&
             forall id :: id in cfg.platform ==>
               exists i :: 0 <= i < |cfg.policies| && CanonicalID(cfg.policies[i].id, cfg.policies[i].version) == id)
  {
    hide CanonicalID, PolicyAccepted, PolicyFit;
    forall i | 0 <= i < |cfg.policies|
      ensures PolicyAccepted(cfg.policies[i], lib) <==> PolicyFit(cfg.policies[i], lib)
    {
      PolicyFits(cfg.policies[i], lib);
    }
    if forall i :: 0 <= i < |cfg.policies| ==> PolicyFit(cfg.policies[i], lib) {
      RevisionsDiffer(cfg.policies, lib);
    }
    forall i | 0 <= i < |cfg.policies|
      ensures PolicyID(cfg.policies[i]) == CanonicalID(cfg.policies[i].id, cfg.policies[i].version)
    {
    }
  }

  lemma RevisionsDiffer(policies: seq<PolicyConfig>, lib: Compilers)
    requires forall i :: 0 <= i < |policies| ==> PolicyFit(policies[i], lib)
    ensures DistinctIDs(policies) <==> DifferentRevisions(policies)
  {
    hide CanonicalID, DetectorFit;
    forall i, j | 0 <= i < j < |policies|
      ensures PolicyID(policies[i]) == PolicyID(policies[j]) <==>
              policies[i].id == policies[j].id && policies[i].version == policies[j].version
    {
      if PolicyID(policies[i]) == PolicyID(policies[j]) {
        CanonicalIDInjective(policies[i].id, policies[i].version, policies[j].id, policies[j].version);
      }
    }
  }

  // ----- The settings a policy runs with -----

  /** The timeout a configured policy runs with, in nanoseconds: its own, or 100 milliseconds. */
  function BudgetOf(raw: PolicyConfig): int {
    if raw.timeout == 0 then 100_000_000 else raw.timeout
  }

  /** The timeout the `i`-th detector runs with: its own, or its policy's. */
  function BudgetOfDetector(raw: PolicyConfig, i: nat): int
    requires i < |raw.detectors|
  {
    if raw.detectors[i].timeout == 0 then BudgetOf(raw) else raw.detectors[i].timeout
  }

  /** Compiling an accepted policy changes nothing but what was omitted. */
  lemma CompiledSettings(raw: PolicyConfig)
    ensures var p := Compile(raw);
            && p.config == raw.(timeout := BudgetOf(raw), failureMode := p.config.failureMode)
            && (raw.failureMode != Unset ==> p.config.failureMode == raw.failureMode)
            && |p.detectors| == |raw.detectors|
            && forall i :: 0 <= i < |raw.detectors| ==>
                 p.detectors[i] == raw.detectors[i].(timeout := BudgetOfDetector(raw, i))
  {
  }

  /**
   What a failure does, whatever the executor: with the failure mode omitted or closed it calls for `block`, with
   the mode to monitor it calls for `monitor`, and with the open mode for nothing.
   */
  lemma FailureActsAsConfigured(raw: PolicyConfig, lib: Compilers, env: Env, entry: PolicyLog, k: nat)
    requires PolicyAccepted(raw, lib) && entry.policy == Compile(raw) && Logged(env, entry)
    requires k < |entry.events| && entry.events[k].Failed?
    ensures var e := Entry(entry.policy, entry.events[k]);
            && (CallsFor(e, Block) <==> raw.failureMode in {Unset, Closed})
            && (CallsFor(e, Monitor) <==> raw.failureMode == MonitorFailure)
            && !CallsFor(e, Redact)
  {
    hide Logged, PolicyID, DurationMilliseconds;
    CompileWellFormed(raw, lib);
    FailuresAreBounded(env, entry, k);
  }

  /** An omitted failure mode is the closed one: a run in which such a policy records a failure blocks. */
  lemma OmittedModeBlocks(raw: PolicyConfig, lib: Compilers, env: Env, entry: PolicyLog, k: nat, entries: seq<Entry>)
    requires PolicyAccepted(raw, lib) && raw.failureMode == Unset && entry.policy == Compile(raw) && Logged(env, entry)
    requires k < |entry.events| && entry.events[k].Failed? && Entry(entry.policy, entry.events[k]) in entries
    ensures Judge(entries).action == Block
  {
    hide Judge, Logged, CallsFor, PolicyAccepted;
    FailureActsAsConfigured(raw, lib, env, entry, k);
    var i :| 0 <= i < |entries| && entries[i] == Entry(entry.policy, entry.events[k]);
    assert CallsFor(entries[i], Block);
    DecisionExact(entries);
  }

  /**
   The time a policy and its detectors are given: the policy 100 milliseconds when it says nothing and otherwise
   what it says, each call the smaller of what is left of that and of the detector's own time, which is the
   policy's when it says nothing; and never more than the caller allows.
   */
  lemma BudgetsAsConfigured(raw: PolicyConfig, env: Env, started: nat, i: nat, at: nat, n: nat)
    requires i < |raw.detectors|
    ensures var p := Compile(raw);
            var own := started + BudgetOf(raw);
            var deadline := PolicyDeadline(env.caller, p, started);
            && deadline == (if env.caller.deadline.Some? && env.caller.deadline.value < own
                            then env.caller.deadline.value else own)
            && CallTo(env, p.detectors[i], deadline, at, n).left == Min(BudgetOfDetector(raw, i), deadline - at)
  {
    hide Compile;
    CompiledSettings(raw);
  }
}
