/** Policy configuration: compiling it into a resolver, and resolving the policies of a request. */
module Policy {
  import opened Common
  import opened Text

  datatype Action = Allow | Block | Redact | Monitor | OtherAction(raw: string)

  datatype FailureMode = Open | Closed | MonitorFailure | Unset | OtherMode(raw: string)

  datatype RegexConfig = RegexConfig(pattern: string, category: string, replacement: string, severity: string)

  datatype KeywordsConfig =
    KeywordsConfig(values: seq<string>, category: string, caseSensitive: bool, replacement: string, severity: string)

  datatype SecretsConfig =
    SecretsConfig(types: seq<string>, minEntropy: real, minEntropyLength: int,
                  categoryPrefix: string, replacement: string, severity: string)

  /** The settings of a detector that reports findings without text spans. */
  datatype Settings = Settings(raw: string)

  /** A configured detector; `timeout` is in nanoseconds and 0 when omitted. */
  datatype Detector = Detector(
    id: string,
    regex: Option<RegexConfig>,
    keywords: Option<KeywordsConfig>,
    requestLimits: Option<Settings>,
    allowDeny: Option<Settings>,
    jsonSchema: Option<Settings>,
    secrets: Option<SecretsConfig>,
    timeout: int)

  datatype PolicyConfig = PolicyConfig(
    id: string, version: int,
    stages: seq<string>, action: Action, failureMode: FailureMode, timeout: int, detectors: seq<Detector>)

  datatype ProfileConfig = ProfileConfig(id: string, version: int, policies: seq<string>)

  datatype Config = Config(
    platform: seq<string>, tenants: map<string, seq<string>>,
    policies: seq<PolicyConfig>, profiles: seq<ProfileConfig>)

  /** A policy with its defaults filled in, and its detectors with theirs. */
  datatype CompiledPolicy = CompiledPolicy(config: PolicyConfig, detectors: seq<Detector>)

  datatype ConfigError =
    | BadMetadata | BadAction | BadPolicyTimeout | BadFailureMode
    | MissingDetectorID | NotOneDetectorType | CannotRedact | BadDetectorTimeout | DetectorTimeoutTooLong
    | BadSettings | DuplicatePolicy(id: string) | UnknownPlatformPolicy(id: string)

  datatype ResolveError = UnknownProfile(id: string) | UnknownPolicy(id: string)

  /** What the libraries say: which patterns compile and which span-less settings are valid. */
  datatype Compilers = Compilers(patternCompiles: string -> bool, settingsAccepted: Settings -> bool)

  const MILLISECOND: int := 1_000_000
  const DEFAULT_TIMEOUT: int := 100 * MILLISECOND

  const SECRET_TYPES: set<string> :=
    {"pem_private_key", "authorization", "connection_string", "known_token", "contextual_high_entropy"}

  /** `%d` of a version. */
  function Version(version: int): string {
    if version < 0 then "-" + Decimal(-version) else Decimal(version)
  }

  function CanonicalID(id: string, version: int): string {
    id + ['@'] + Version(version)
  }

  /** Canonical identifiers are as good as the pair they print, even when an id holds an `@`. */
  lemma CanonicalIDInjective(a: string, m: int, b: string, n: int)
    requires m >= 1 && n >= 1 && CanonicalID(a, m) == CanonicalID(b, n)
    ensures a == b && m == n
  {
    SplitAtNumber(a, m, b, n, '@');
  }

  function PolicyID(p: PolicyConfig): string {
    CanonicalID(p.id, p.version)
  }

  // ----- Compiling -----

  function CountConfigured(d: Detector): nat {
    (if d.regex.Some? then 1 else 0) + (if d.keywords.Some? then 1 else 0) + (if d.requestLimits.Some? then 1 else 0) +
    (if d.allowDeny.Some? then 1 else 0) + (if d.jsonSchema.Some? then 1 else 0) + (if d.secrets.Some? then 1 else 0)
  }

  /** The detector reports findings without text spans. */
  predicate Spanless(d: Detector) {
    d.requestLimits.Some? || d.allowDeny.Some? || d.jsonSchema.Some?
  }

  predicate SettingsValid(d: Detector, lib: Compilers) {
    if d.regex.Some? then lib.patternCompiles(d.regex.value.pattern)
    else if d.requestLimits.Some? then lib.settingsAccepted(d.requestLimits.value)
    else if d.allowDeny.Some? then lib.settingsAccepted(d.allowDeny.value)
    else if d.jsonSchema.Some? then lib.settingsAccepted(d.jsonSchema.value)
    else if d.secrets.Some? then
      var s := d.secrets.value;
      s.minEntropy >= 0.0 && s.minEntropyLength >= 0 && forall t :: t in s.types ==> t in SECRET_TYPES
    else true
  }

  predicate DetectorAccepted(d: Detector, action: Action, policyTimeout: int, lib: Compilers) {
    && d.id != ""
    && CountConfigured(d) == 1
    && !(action == Redact && Spanless(d))
    && 0 <= d.timeout <= policyTimeout
    && SettingsValid(d, lib)
  }

  function WithPolicyDefaults(p: PolicyConfig): PolicyConfig {
    p.(timeout := if p.timeout == 0 then DEFAULT_TIMEOUT else p.timeout,
       failureMode := if p.failureMode == Unset then Closed else p.failureMode)
  }

  function WithDetectorDefaults(d: Detector, policyTimeout: int): Detector {
    if d.timeout == 0 then d.(timeout := policyTimeout) else d
  }

  function Compile(p: PolicyConfig): CompiledPolicy {
    var q := WithPolicyDefaults(p);
    CompiledPolicy(q, seq(|p.detectors|, i requires 0 <= i < |p.detectors| =>
      WithDetectorDefaults(p.detectors[i], q.timeout)))
  }

  predicate PolicyAccepted(p: PolicyConfig, lib: Compilers) {
    && p.id != "" && p.version >= 1
    && !p.action.OtherAction?
    && p.timeout >= 0
    && !p.failureMode.OtherMode?
    && forall i :: 0 <= i < |p.detectors| ==>
         DetectorAccepted(p.detectors[i], p.action, WithPolicyDefaults(p).timeout, lib)
  }

  function CompiledPolicies(policies: seq<PolicyConfig>): map<string, CompiledPolicy> {
    if policies == [] then map[]
    else
      var last := policies[|policies| - 1];
      CompiledPolicies(policies[..|policies| - 1])[PolicyID(last) := Compile(last)]
  }

  function ProfilesByID(profiles: seq<ProfileConfig>): map<string, seq<string>> {
    if profiles == [] then map[]
    else
      var last := profiles[|profiles| - 1];
      ProfilesByID(profiles[..|profiles| - 1])[CanonicalID(last.id, last.version) := last.policies]
  }

  ghost predicate AllAccepted(policies: seq<PolicyConfig>, lib: Compilers) {
    forall i :: 0 <= i < |policies| ==> PolicyAccepted(policies[i], lib)
  }

  ghost predicate DistinctIDs(policies: seq<PolicyConfig>) {
    forall i, j :: 0 <= i < j < |policies| ==> PolicyID(policies[i]) != PolicyID(policies[j])
  }

  /** The configurations that start the service. */
  ghost predicate Accepted(cfg: Config, lib: Compilers) {
    && AllAccepted(cfg.policies, lib) && DistinctIDs(cfg.policies)
    && (forall id :: id in cfg.platform ==> exists i :: 0 <= i < |cfg.policies| && PolicyID(cfg.policies[i]) == id)
  }

  /** The value of a resolver. */
  datatype Catalog = Catalog(
    platform: seq<string>, tenants: map<string, seq<string>>,
    policies: map<string, CompiledPolicy>, profiles: map<string, seq<string>>)

  function CatalogOf(cfg: Config): Catalog {
    Catalog(cfg.platform, cfg.tenants, CompiledPolicies(cfg.policies), ProfilesByID(cfg.profiles))
  }

  lemma {:induction false} CompiledKeys(policies: seq<PolicyConfig>, i: nat)
    requires i < |policies|
    ensures PolicyID(policies[i]) in CompiledPolicies(policies)
  {
    hide PolicyID, Compile;
    var last := |policies| - 1;
    if i < last {
      CompiledKeys(policies[..last], i);
      assert policies[..last][i] == policies[i];
    }
  }

  lemma {:induction false} CompiledSource(policies: seq<PolicyConfig>, id: string) returns (i: nat)
    requires id in CompiledPolicies(policies)
    ensures i < |policies| && PolicyID(policies[i]) == id && CompiledPolicies(policies)[id] == Compile(policies[i])
  {
    hide PolicyID, Compile;
    var last := |policies| - 1;
    if PolicyID(policies[last]) == id {
      i := last;
    } else {
      i := CompiledSource(policies[..last], id);
      assert policies[..last][i] == policies[i];
    }
  }

  lemma Listed(policies: seq<PolicyConfig>, id: string)
    ensures id in CompiledPolicies(policies) <==> exists i :: 0 <= i < |policies| && PolicyID(policies[i]) == id
  {
    if id in CompiledPolicies(policies) {
      var i := CompiledSource(policies, id);
    }
    if i :| 0 <= i < |policies| && PolicyID(policies[i]) == id { CompiledKeys(policies, i); }
  }

  /** Everything a run relies on about a compiled policy. */
  ghost predicate WellFormed(p: CompiledPolicy) {
    && p.config.timeout > 0
    && !p.config.action.OtherAction?
    && p.config.failureMode in {Open, Closed, MonitorFailure}
    && (forall d :: d in p.detectors ==>
          && 0 < d.timeout <= p.config.timeout && CountConfigured(d) == 1
          && !(p.config.action == Redact && Spanless(d)))
  }

  /** Every policy is filed under its own canonical id. */
  ghost predicate Keyed(c: Catalog) {
    forall id :: id in c.policies ==> PolicyID(c.policies[id].config) == id
  }

  ghost predicate CatalogValid(c: Catalog) {
    && Keyed(c)
    && (forall id :: id in c.policies ==> WellFormed(c.policies[id]))
    && (forall id :: id in c.platform ==> id in c.policies)
  }

  lemma CompileWellFormed(p: PolicyConfig, lib: Compilers)
    requires PolicyAccepted(p, lib)
    ensures WellFormed(Compile(p)) && PolicyID(Compile(p).config) == PolicyID(p)
  {
    var c := Compile(p);
    forall d | d in c.detectors
      ensures 0 < d.timeout <= c.config.timeout && CountConfigured(d) == 1
      ensures !(c.config.action == Redact && Spanless(d))
    {
      var i :| 0 <= i < |c.detectors| && c.detectors[i] == d;
      assert DetectorAccepted(p.detectors[i], p.action, c.config.timeout, lib);
    }
  }

  /** Every accepted configuration compiles into a catalog that runs can rely on. */
  lemma AcceptedIsValid(cfg: Config, lib: Compilers)
    requires Accepted(cfg, lib)
    ensures CatalogValid(CatalogOf(cfg))
  {
    var c := CatalogOf(cfg);
    forall id | id in c.policies ensures WellFormed(c.policies[id]) && PolicyID(c.policies[id].config) == id {
      var i := CompiledSource(cfg.policies, id);
      CompileWellFormed(cfg.policies[i], lib);
    }
    forall id | id in c.platform ensures id in c.policies {
      Listed(cfg.policies, id);
    }
  }

  // ----- Resolving -----

  predicate SupportsStage(p: CompiledPolicy, stage: string) {
    stage in p.config.stages
  }

  function MandatoryIDs(c: Catalog, tenant: string): seq<string> {
    c.platform + (if tenant in c.tenants then c.tenants[tenant] else [])
  }

  /** What was found so far, continued by the rest of the walk. */
  function Continued(found: seq<CompiledPolicy>, rest: Result<seq<CompiledPolicy>, ResolveError>)
    : Result<seq<CompiledPolicy>, ResolveError>
  {
    if rest.Failure? then rest else Success(found + rest.value)
  }

  lemma ContinuedTwice(a: seq<CompiledPolicy>, b: seq<CompiledPolicy>, rest: Result<seq<CompiledPolicy>, ResolveError>)
    ensures Continued(a, Continued(b, rest)) == Continued(a + b, rest)
  {
    assert rest.Success? ==> a + (b + rest.value) == a + b + rest.value;
  }

  /** The ids from `ids` on, skipping those seen, each looked up and kept if it supports the stage. */
  function Walk(c: Catalog, ids: seq<string>, seen: set<string>, stage: string)
    : Result<seq<CompiledPolicy>, ResolveError>
  {
    if ids == [] then Success([])
    else if ids[0] in seen then Walk(c, ids[1..], seen, stage)
    else if ids[0] !in c.policies then Failure(UnknownPolicy(ids[0]))
    else
      var p := c.policies[ids[0]];
      var rest := Walk(c, ids[1..], seen + {ids[0]}, stage);
      Continued(if SupportsStage(p, stage) then [p] else [], rest)
  }

  function Resolved(c: Catalog, tenant: string, profile: string, selected: seq<string>, stage: string)
    : Result<seq<CompiledPolicy>, ResolveError>
  {
    if profile != "" && profile !in c.profiles then Failure(UnknownProfile(profile))
    else
      var fromProfile := if profile != "" then c.profiles[profile] else [];
      Walk(c, MandatoryIDs(c, tenant) + fromProfile + selected, {}, stage)
  }

  class Resolver {
    var platform: seq<string>
    var tenants: map<string, seq<string>>
    var policies: map<string, CompiledPolicy>
    var profiles: map<string, seq<string>>

    function Value(): Catalog
      reads this
    {
      Catalog(platform, tenants, policies, profiles)
    }

    constructor Empty(cfg: Config)
      ensures Value() == Catalog(cfg.platform, cfg.tenants, map[], map[])
    {
      platform, tenants, policies, profiles := cfg.platform, cfg.tenants, map[], map[];
    }

    /** The effective policies of a request: platform, tenant, profile, then the caller's own. */
    method Resolve(tenant: string, profile: string, selected: seq<string>, stage: string)
      returns (out: Result<seq<CompiledPolicy>, ResolveError>)
      ensures out == Resolved(Value(), tenant, profile, selected, stage)
    {
      var ids := platform;
      if tenant in tenants {
        ids := ids + tenants[tenant];
      }
      assert ids == MandatoryIDs(Value(), tenant);
      if profile != "" {
        if profile !in profiles {
          return Failure(UnknownProfile(profile));
        }
        ids := ids + profiles[profile];
      }
      assert MandatoryIDs(Value(), tenant) + [] == MandatoryIDs(Value(), tenant);
      ids := ids + selected;
      ghost var expected := Walk(Value(), ids, {}, stage);
      var seen: set<string> := {};
      var resolved: seq<CompiledPolicy> := [];
      assert ids[0..] == ids;
      assert expected.Success? ==> [] + expected.value == expected.value;
      for i := 0 to |ids|
        invariant Continued(resolved, Walk(Value(), ids[i..], seen, stage)) == expected
      {
        var id := ids[i];
        assert ids[i..][0] == id && ids[i..][1..] == ids[i + 1..];
        if id in seen {
          continue;
        }
        if id !in policies {
          return Failure(UnknownPolicy(id));
        }
        ghost var kept := if SupportsStage(policies[id], stage) then [policies[id]] else [];
        ContinuedTwice(resolved, kept, Walk(Value(), ids[i + 1..], seen + {id}, stage));
        seen := seen + {id};
        if SupportsStage(policies[id], stage) {
          resolved := resolved + [policies[id]];
        } else {
          assert resolved + kept == resolved;
        }
      }
      assert resolved + [] == resolved;
      out := Success(resolved);
    }
  }

  method CompileDetector(d: Detector, p: PolicyConfig, lib: Compilers) returns (out: Result<Detector, ConfigError>)
    requires p.timeout > 0
    ensures out.Success? <==> DetectorAccepted(d, p.action, p.timeout, lib)
    ensures out.Success? ==> out.value == WithDetectorDefaults(d, p.timeout)
  {
    if d.id == "" { return Failure(MissingDetectorID); }
    if CountConfigured(d) != 1 { return Failure(NotOneDetectorType); }
    if p.action == Redact && Spanless(d) { return Failure(CannotRedact); }
    var detector := d;
    if detector.timeout == 0 {
      detector := detector.(timeout := p.timeout);
    }
    if detector.timeout < 0 { return Failure(BadDetectorTimeout); }
    if detector.timeout > p.timeout { return Failure(DetectorTimeoutTooLong); }
    if !SettingsValid(detector, lib) { return Failure(BadSettings); }
    out := Success(detector);
  }

  method CompilePolicy(raw: PolicyConfig, lib: Compilers) returns (out: Result<CompiledPolicy, ConfigError>)
    ensures out.Success? <==> PolicyAccepted(raw, lib)
    ensures out.Success? ==> out.value == Compile(raw)
  {
    var p := raw;
    if p.id == "" || p.version < 1 { return Failure(BadMetadata); }
    if p.action.OtherAction? { return Failure(BadAction); }
    if p.timeout == 0 {
      p := p.(timeout := DEFAULT_TIMEOUT);
    }
    if p.timeout < 0 { return Failure(BadPolicyTimeout); }
    if p.failureMode == Unset {
      p := p.(failureMode := Closed);
    }
    if p.failureMode.OtherMode? { return Failure(BadFailureMode); }
    assert p == WithPolicyDefaults(raw);
    var detectors: seq<Detector> := [];
    for i := 0 to |p.detectors|
      invariant forall j :: 0 <= j < i ==> DetectorAccepted(raw.detectors[j], raw.action, p.timeout, lib)
      invariant detectors == Compile(raw).detectors[..i]
    {
      var detector := CompileDetector(p.detectors[i], p, lib);
      if detector.Failure? { return Failure(detector.error); }
      assert Compile(raw).detectors[i] == detector.value;
      detectors := detectors + [detector.value];
    }
    out := Success(CompiledPolicy(p, detectors));
  }

  /** Compiles the policies into the resolver's map; it succeeds when all are accepted and none repeats an id. */
  method CompilePolicies(r: Resolver, policies: seq<PolicyConfig>, lib: Compilers) returns (error: Option<ConfigError>)
    requires r.policies == map[]
    modifies r`policies
    ensures error.None? <==> AllAccepted(policies, lib) && DistinctIDs(policies)
    ensures error.None? ==> r.policies == CompiledPolicies(policies)
  {
    hide PolicyAccepted, PolicyID, Compile;
    assert policies[..0] == [];
    for i := 0 to |policies|
      invariant r.policies == CompiledPolicies(policies[..i])
      invariant AllAccepted(policies[..i], lib) && DistinctIDs(policies[..i])
    {
      var p := policies[i];
      var upTo := policies[..i];
      assert policies[..i + 1] == upTo + [p];
      var compiled := CompilePolicy(p, lib);
      if compiled.Failure? { return Some(compiled.error); }
      Listed(upTo, PolicyID(p));
      if PolicyID(p) in r.policies {
        ghost var j :| 0 <= j < i && PolicyID(upTo[j]) == PolicyID(p);
        assert upTo[j] == policies[j];
        return Some(DuplicatePolicy(PolicyID(p)));
      }
      assert policies[..i + 1][..i] == upTo;
      r.policies := r.policies[PolicyID(p) := compiled.value];
    }
    assert policies[..|policies|] == policies;
    error := None;
  }

  /** Compiles a configuration; it succeeds for exactly the accepted ones. */
  method NewResolver(cfg: Config, lib: Compilers) returns (out: Result<Resolver, ConfigError>)
    ensures out.Success? <==> Accepted(cfg, lib)
    ensures out.Success? ==> fresh(out.value) && out.value.Value() == CatalogOf(cfg)
  {
    hide AllAccepted, DistinctIDs, CanonicalID, CompiledPolicies, PolicyID;
    var r := new Resolver.Empty(cfg);
    var error := CompilePolicies(r, cfg.policies, lib);
    if error.Some? { return Failure(error.value); }
    assert cfg.profiles[..0] == [];
    for i := 0 to |cfg.profiles|
      invariant r.Value() == Catalog(cfg.platform, cfg.tenants, CompiledPolicies(cfg.policies),
                                     ProfilesByID(cfg.profiles[..i]))
    {
      var profile := cfg.profiles[i];
      assert cfg.profiles[..i + 1][..i] == cfg.profiles[..i];
      r.profiles := r.profiles[CanonicalID(profile.id, profile.version) := profile.policies];
    }
    assert cfg.profiles[..|cfg.profiles|] == cfg.profiles;
    for i := 0 to |r.platform|
      invariant forall j :: 0 <= j < i ==> r.platform[j] in r.policies
    {
      if r.platform[i] !in r.policies {
        assert r.platform[i] in cfg.platform;
        Listed(cfg.policies, r.platform[i]);
        return Failure(UnknownPlatformPolicy(r.platform[i]));
      }
    }
    forall id | id in cfg.platform ensures exists i :: 0 <= i < |cfg.policies| && PolicyID(cfg.policies[i]) == id {
      Listed(cfg.policies, id);
    }
    out := Success(r);
  }

  // ----- What resolution guarantees -----

  lemma {:induction false} WalkSplits(c: Catalog, a: seq<string>, b: seq<string>, seen: set<string>, stage: string)
    ensures var first := Walk(c, a, seen, stage);
            var second := Walk(c, b, seen + (set id | id in a), stage);
            Walk(c, a + b, seen, stage) == (if first.Failure? then first else Continued(first.value, second))
  {
    if a == [] {
      assert a + b == b;
      assert seen + (set id | id in a) == seen;
      var second := Walk(c, b, seen, stage);
      assert second.Success? ==> [] + second.value == second.value;
    } else {
      assert (a + b)[0] == a[0] && (a + b)[1..] == a[1..] + b;
      if a[0] in seen {
        WalkSplits(c, a[1..], b, seen, stage);
        assert seen + (set id | id in a[1..]) == seen + (set id | id in a);
      } else if a[0] in c.policies {
        WalkSplits(c, a[1..], b, seen + {a[0]}, stage);
        var kept := if SupportsStage(c.policies[a[0]], stage) then [c.policies[a[0]]] else [];
        var first := Walk(c, a[1..], seen + {a[0]}, stage);
        if first.Success? {
          ContinuedTwice(kept, first.value, Walk(c, b, seen + {a[0]} + (set id | id in a[1..]), stage));
        }
        assert seen + {a[0]} + (set id | id in a[1..]) == seen + (set id | id in a);
      }
    }
  }

  /**
   Whatever profile and policies the caller selects, if the request resolves at all then so does the
   mandatory-only request, and its policies come first and in the same order.
   */
  lemma MandatoryFirst(c: Catalog, tenant: string, profile: string, selected: seq<string>, stage: string)
    requires Resolved(c, tenant, profile, selected, stage).Success?
    ensures var mandatory := Resolved(c, tenant, "", [], stage);
            mandatory.Success? && mandatory.value <= Resolved(c, tenant, profile, selected, stage).value
  {
    var own := MandatoryIDs(c, tenant);
    var chosen := (if profile != "" then c.profiles[profile] else []) + selected;
    WalkSplits(c, own, chosen, {}, stage);
    assert own + (if profile != "" then c.profiles[profile] else []) + selected == own + chosen;
    assert own + [] + [] == own;
  }

  /** Every policy a request resolves to is one that runs can rely on. */
  lemma {:induction false} WalkWellFormed(c: Catalog, ids: seq<string>, seen: set<string>, stage: string)
    requires CatalogValid(c) && Walk(c, ids, seen, stage).Success?
    ensures forall p :: p in Walk(c, ids, seen, stage).value ==> WellFormed(p)
  {
    hide WellFormed, Keyed, SupportsStage;
    if ids != [] {
      WalkWellFormed(c, ids[1..], if ids[0] in seen then seen else seen + {ids[0]}, stage);
    }
  }

  lemma ResolvedWellFormed(c: Catalog, tenant: string, profile: string, selected: seq<string>, stage: string)
    requires CatalogValid(c) && Resolved(c, tenant, profile, selected, stage).Success?
    ensures forall p :: p in Resolved(c, tenant, profile, selected, stage).value ==> WellFormed(p)
  {
    hide Walk, WellFormed, Keyed;
    var fromProfile := if profile != "" then c.profiles[profile] else [];
    WalkWellFormed(c, MandatoryIDs(c, tenant) + fromProfile + selected, {}, stage);
  }

  /** Resolution fails exactly on an id the catalog does not know. */
  lemma {:induction false} WalkFailsExactly(c: Catalog, ids: seq<string>, seen: set<string>, stage: string)
    ensures Walk(c, ids, seen, stage).Success? <==> forall id :: id in ids ==> id in seen || id in c.policies
  {
    if ids != [] {
      assert ids == [ids[0]] + ids[1..];
      WalkFailsExactly(c, ids[1..], if ids[0] in seen then seen else seen + {ids[0]}, stage);
    }
  }

  lemma {:induction false} WalkFinds(c: Catalog, ids: seq<string>, seen: set<string>, stage: string, p: CompiledPolicy)
    requires Keyed(c) && Walk(c, ids, seen, stage).Success?
    ensures p in Walk(c, ids, seen, stage).value <==>
      (var id := PolicyID(p.config);
       id in ids && id !in seen && id in c.policies && p == c.policies[id] && SupportsStage(p, stage))
  {
    if ids != [] {
      assert ids == [ids[0]] + ids[1..];
      WalkFinds(c, ids[1..], if ids[0] in seen then seen else seen + {ids[0]}, stage, p);
    }
  }

  /** Going through the ids, `a` is met before `b`, and `b` is met too. */
  ghost predicate Earlier(ids: seq<string>, a: string, b: string) {
    ids != [] && ids[0] != b && if ids[0] == a then b in ids else Earlier(ids[1..], a, b)
  }

  /** What a walk finds lies among its ids and has not been seen before. */
  lemma FoundAmong(c: Catalog, ids: seq<string>, seen: set<string>, stage: string, found: seq<CompiledPolicy>, i: nat)
    requires Keyed(c) && Walk(c, ids, seen, stage) == Success(found) && i < |found|
    ensures PolicyID(found[i].config) !in seen && PolicyID(found[i].config) in ids
  {
    hide PolicyID, Walk;
    WalkFinds(c, ids, seen, stage, found[i]);
  }

  function IDAt(found: seq<CompiledPolicy>, i: nat): string
    requires i < |found|
  {
    PolicyID(found[i].config)
  }

  /** The first id contributes its own policy or nothing; the rest is found by walking on. */
  lemma WalkStep(c: Catalog, ids: seq<string>, seen: set<string>, stage: string, found: seq<CompiledPolicy>)
    returns (after: set<string>, kept: bool)
    requires Keyed(c) && ids != [] && Walk(c, ids, seen, stage) == Success(found)
    ensures ids[0] in after
    ensures kept ==> found != [] && IDAt(found, 0) == ids[0]
                     && Walk(c, ids[1..], after, stage) == Success(found[1..])
    ensures !kept ==> Walk(c, ids[1..], after, stage) == Success(found)
  {
    after := if ids[0] in seen then seen else seen + {ids[0]};
    kept := ids[0] !in seen && SupportsStage(c.policies[ids[0]], stage);
    var rest := Walk(c, ids[1..], after, stage).value;
    if kept {
      assert found[1..] == rest;
    } else {
      assert found == rest;
    }
  }

  /** What follows in order after the first id follows in order. */
  lemma OrderBelow(c: Catalog, ids: seq<string>, after: set<string>, stage: string, rest: seq<CompiledPolicy>,
                   i: nat, j: nat)
    requires Keyed(c) && ids != [] && ids[0] in after && Walk(c, ids[1..], after, stage) == Success(rest)
    requires i < j < |rest| && Earlier(ids[1..], IDAt(rest, i), IDAt(rest, j))
    ensures Earlier(ids, IDAt(rest, i), IDAt(rest, j))
  {
    hide PolicyID, Walk, Keyed;
    FoundAmong(c, ids[1..], after, stage, rest, i);
    FoundAmong(c, ids[1..], after, stage, rest, j);
  }

  /** And after the first id's own policy everything else follows. */
  lemma OrderAtFirst(c: Catalog, ids: seq<string>, after: set<string>, stage: string, found: seq<CompiledPolicy>,
                     j: nat)
    requires Keyed(c) && ids != [] && found != [] && ids[0] in after && IDAt(found, 0) == ids[0]
    requires Walk(c, ids[1..], after, stage) == Success(found[1..]) && 0 < j < |found|
    ensures Earlier(ids, IDAt(found, 0), IDAt(found, j))
  {
    hide PolicyID, Walk, Keyed;
    FoundAmong(c, ids[1..], after, stage, found[1..], j - 1);
    assert found[1..][j - 1] == found[j];
  }

  lemma IDBelow(found: seq<CompiledPolicy>, i: nat)
    requires 0 < i < |found|
    ensures IDAt(found[1..], i - 1) == IDAt(found, i)
  {
  }

  lemma OrderPastFirst(c: Catalog, ids: seq<string>, after: set<string>, stage: string, found: seq<CompiledPolicy>,
                       i: nat, j: nat)
    requires Keyed(c) && ids != [] && found != [] && ids[0] in after
    requires Walk(c, ids[1..], after, stage) == Success(found[1..]) && 0 < i < j < |found|
    requires Earlier(ids[1..], IDAt(found[1..], i - 1), IDAt(found[1..], j - 1))
    ensures Earlier(ids, IDAt(found, i), IDAt(found, j))
  {
    hide *;
    OrderBelow(c, ids, after, stage, found[1..], i - 1, j - 1);
    IDBelow(found, i);
    IDBelow(found, j);
  }

  lemma FindingNeedsIDs(c: Catalog, ids: seq<string>, seen: set<string>, stage: string, found: seq<CompiledPolicy>)
    requires Walk(c, ids, seen, stage) == Success(found) && found != []
    ensures ids != []
  {
  }

  lemma {:induction false} WalkKeepsOrder(c: Catalog, ids: seq<string>, seen: set<string>, stage: string,
                                          found: seq<CompiledPolicy>, i: nat, j: nat)
    requires Keyed(c) && Walk(c, ids, seen, stage) == Success(found) && i < j < |found|
    ensures Earlier(ids, IDAt(found, i), IDAt(found, j))
    decreases |ids|
  {
    hide *;
    FindingNeedsIDs(c, ids, seen, stage, found);
    var after, kept := WalkStep(c, ids, seen, stage, found);
    if !kept {
      WalkKeepsOrder(c, ids[1..], after, stage, found, i, j);
      OrderBelow(c, ids, after, stage, found, i, j);
    } else if i == 0 {
      OrderAtFirst(c, ids, after, stage, found, j);
    } else {
      WalkKeepsOrder(c, ids[1..], after, stage, found[1..], i - 1, j - 1);
      OrderPastFirst(c, ids, after, stage, found, i, j);
    }
  }

  /** Every id a request draws policies from, in order. */
  function RequestIDs(c: Catalog, tenant: string, profile: string, selected: seq<string>): seq<string> {
    MandatoryIDs(c, tenant) + (if profile in c.profiles && profile != "" then c.profiles[profile] else []) + selected
  }

  /**
   Resolution succeeds exactly when the profile and every id are known. Its result then holds exactly the
   named policies that support the stage, each once, in the order their ids first appear.
   */
  lemma ResolutionExact(c: Catalog, tenant: string, profile: string, selected: seq<string>, stage: string)
    requires Keyed(c)
    ensures var ids := RequestIDs(c, tenant, profile, selected);
            var out := Resolved(c, tenant, profile, selected, stage);
            && (out.Success? <==>
                  (profile == "" || profile in c.profiles) && forall id :: id in ids ==> id in c.policies)
            && (out.Success? ==>
                  && (forall id :: id in ids && SupportsStage(c.policies[id], stage) ==> c.policies[id] in out.value)
                  && (forall p :: p in out.value ==> PolicyID(p.config) in ids && SupportsStage(p, stage)
                                                     && p == c.policies[PolicyID(p.config)])
                  && (forall i, j :: 0 <= i < j < |out.value| ==> Earlier(ids, IDAt(out.value, i), IDAt(out.value, j))))
  {
    var ids := RequestIDs(c, tenant, profile, selected);
    var out := Resolved(c, tenant, profile, selected, stage);
    WalkFailsExactly(c, ids, {}, stage);
    if out.Success? {
      assert out == Walk(c, ids, {}, stage);
      forall p ensures p in out.value <==>
        (var id := PolicyID(p.config); id in ids && id in c.policies && p == c.policies[id] && SupportsStage(p, stage))
      {
        WalkFinds(c, ids, {}, stage, p);
      }
      forall i, j | 0 <= i < j < |out.value|
        ensures Earlier(ids, IDAt(out.value, i), IDAt(out.value, j))
      {
        WalkKeepsOrder(c, ids, {}, stage, out.value, i, j);
      }
    }
  }
}
