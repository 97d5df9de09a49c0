/**
 Two evaluations followed from an accepted configuration to the content: a policy of the caller's own uncovers
 what a mandatory policy redacts, and a redaction overwrites the caller's own message.
 */
module Witnesses {
  import opened Common
  import opened Text
  import opened Content
  import opened Splicing
  import opened Redaction
  import opened Keywords
  import opened Policy
  import opened Detectors
  import opened Evaluation
  import opened RunFacts
  import opened DecisionFacts
  import opened Failures
  import opened RedactedRun
  import opened Guarantees

  function KeywordPolicy(id: string, keyword: string, replacement: string): PolicyConfig {
    PolicyConfig(id, 1, ["pre_model"], Redact, Closed, MILLISECOND,
                 [Detector("words", None, Some(KeywordsConfig([keyword], "pii", true, replacement, "high")),
                           None, None, None, None, MILLISECOND)])
  }

  const SECRETS: PolicyConfig := KeywordPolicy("secrets", "secret", "<S>")
  const NAMES: PolicyConfig := KeywordPolicy("names", "my s", "X")

  /** The platform demands the first policy; the second is there to be selected. */
  const CONFIG: Config := Config(["secrets@1"], map[], [SECRETS, NAMES], [])

  const SAID: string := "my secret"

  /** The same words as text, and as the only message. */
  const AS_TEXT: Content := Content("text", SAID, [], None)
  const AS_MESSAGE: Content := Content("chat", "", [Message("user", SAID)], None)

  lemma OnlyLeaves()
    ensures TextLeaves(AS_TEXT) == [Leaf(TEXT_PATH, SAID)]
    ensures TextLeaves(AS_MESSAGE) == [Leaf(MessagePath(0), SAID)]
  {
    hide MessagePath;
  }

  // ----- One keyword, found once -----

  lemma FoundOnce(text: string, keyword: string, i: nat)
    requires keyword != "" && OccursAt(text, keyword, i) && forall j :: 0 <= j < i ==> !OccursAt(text, keyword, j)
    requires i + 2 * |keyword| > |text|
    ensures KeywordSpans(text, keyword, true) == [Span(i, i + |keyword|)]
  {
    hide OccursAt;
    IndexIsFirst(text, keyword, 0);
    assert IndexFrom(text, keyword, 0) == i;
    assert IndexFrom(text, keyword, i + |keyword|) == -1;
    assert SpansFrom(text, keyword, i + |keyword|) == [];
  }

  /** What the policy's detector hands over when its keyword occurs once in the only string there is. */
  lemma DetectsOnce(sc: Scanner, c: Content, path: string, p: PolicyConfig, id: string, keyword: string,
                    replacement: string, i: nat)
    requires Sound(sc) && p == KeywordPolicy(id, keyword, replacement) && replacement != ""
    requires TextLeaves(c) == [Leaf(path, SAID)] && KeywordSpans(SAID, keyword, true) == [Span(i, i + |keyword|)]
    ensures var found := Detected(p.detectors[0], sc, c);
            found.0 != [] && found.1 == [Replacement(path, replacement, i, i + |keyword|)]
  {
    hide KeywordSpans, TextHits, Items, Findings, TextLeaves, Detected, KeywordItems, Hits, Sound;
    var d, leaf := p.detectors[0], Leaf(path, SAID);
    var hits := TextHits(d, sc, leaf);
    KeywordHitItems(d, sc, leaf, keyword);
    OnlyItem(path, replacement, Span(i, i + |keyword|));
    DetectedInText(d, sc, c, leaf);
    assert |Findings(hits)| == |hits| == |Items(hits)|;
  }

  lemma OnlyItem(path: string, value: string, span: Span)
    ensures KeywordItems(path, value, [span]) == [Replacement(path, value, span.start, span.end)]
  {
  }

  lemma DetectedInText(d: Detector, sc: Scanner, c: Content, leaf: Leaf)
    requires Sound(sc) && d.secrets.None? && !Spanless(d) && TextLeaves(c) == [leaf]
    ensures Detected(d, sc, c) == (Findings(TextHits(d, sc, leaf)), Items(TextHits(d, sc, leaf)))
  {
    hide TextHits, Items, Findings, TextLeaves;
    var hits := TextHits(d, sc, leaf);
    assert [leaf][..0] == [];
    assert HitsOver(d, sc, []) == [];
    assert HitsOver(d, sc, [leaf]) == [] + hits == hits;
  }

  lemma SecretFound(sc: Scanner, c: Content, path: string)
    requires Sound(sc) && TextLeaves(c) == [Leaf(path, SAID)]
    ensures var found := Detected(SECRETS.detectors[0], sc, c);
            found.0 != [] && found.1 == [Replacement(path, "<S>", 3, 9)]
  {
    hide Detected, KeywordSpans, TextLeaves, Sound;
    SecretFoundOnce();
    DetectsOnce(sc, c, path, SECRETS, "secrets", "secret", "<S>", 3);
  }

  lemma SecretFoundOnce()
    ensures KeywordSpans(SAID, "secret", true) == [Span(3, 9)]
  {
    hide KeywordSpans;
    var text := SAID;
    assert text[3..9] == "secret";
    assert text[0] == 'm' && text[1] == 'y' && text[2] == ' ' && "secret"[0] == 's';
    forall j | 0 <= j < 3 ensures !OccursAt(text, "secret", j) {
      assert text[j..j + 6][0] == text[j];
    }
    FoundOnce(text, "secret", 3);
  }

  lemma NameFound(sc: Scanner)
    requires Sound(sc)
    ensures var found := Detected(NAMES.detectors[0], sc, AS_TEXT);
            found.0 != [] && found.1 == [Replacement(TEXT_PATH, "X", 0, 4)]
  {
    hide Detected, KeywordSpans, TextLeaves, Sound;
    OnlyLeaves();
    NameFoundOnce();
    DetectsOnce(sc, AS_TEXT, TEXT_PATH, NAMES, "names", "my s", "X", 0);
  }

  lemma NameFoundOnce()
    ensures KeywordSpans(SAID, "my s", true) == [Span(0, 4)]
  {
    var text := SAID;
    assert text[0..4] == "my s";
    assert IndexFrom(text, "my s", 0) == 0;
    assert text[4..8] == "ecre" && text[4] == 'e' && text[5] == 'c' && "my s"[0] == 'm';
    assert text[4..8][0] != "my s"[0] && text[5..9][0] != "my s"[0];
    assert !OccursAt(text, "my s", 4) && !OccursAt(text, "my s", 5);
    assert IndexFrom(text, "my s", 6) == -1;
    assert IndexFrom(text, "my s", 5) == -1;
    assert IndexFrom(text, "my s", 4) == -1;
    assert SpansFrom(text, "my s", 4) == [];
  }

  // ----- The configuration -----

  lemma IDs()
    ensures PolicyID(SECRETS) == "secrets@1" && PolicyID(NAMES) == "names@1"
  {
    assert Version(1) == Decimal(1) == "1";
    assert "secrets" + ['@'] + "1" == "secrets@1" && "names" + ['@'] + "1" == "names@1";
  }

  lemma Starts(lib: Compilers)
    ensures Accepted(CONFIG, lib)
  {
    hide PolicyID;
    IDs();
    assert "secrets@1"[0] != "names@1"[0];
    assert PolicyAccepted(SECRETS, lib) && PolicyAccepted(NAMES, lib);
    assert CONFIG.policies[0] == SECRETS && CONFIG.policies[1] == NAMES;
  }

  lemma WalksTwo(c: Catalog, a: string, b: string, p: CompiledPolicy, q: CompiledPolicy, stage: string)
    requires a in c.policies && b in c.policies && c.policies[a] == p && c.policies[b] == q && a != b
    requires SupportsStage(p, stage) && SupportsStage(q, stage)
    ensures Walk(c, [a], {}, stage) == Success([p]) && Walk(c, [a, b], {}, stage) == Success([p, q])
  {
    hide SupportsStage;
    var seen := {} + {a};
    assert [a][1..] == [] && [b][1..] == [] && [a, b][1..] == [b];
    assert Walk(c, [], seen, stage) == Success([]);
    assert Walk(c, [a], {}, stage) == Success([p] + []);
    assert Walk(c, [], seen + {b}, stage) == Success([]);
    assert Walk(c, [b], seen, stage) == Success([q] + []);
    assert [q] + [] == [q] && [p] + [] == [p] && [p] + [q] == [p, q];
    assert Walk(c, [a, b], {}, stage) == Continued([p], Walk(c, [b], seen, stage));
  }

  lemma Cataloged()
    ensures var c := CatalogOf(CONFIG);
            && c.platform == ["secrets@1"] && c.tenants == map[] && c.profiles == map[]
            && c.policies == map["secrets@1" := Compile(SECRETS), "names@1" := Compile(NAMES)]
  {
    hide PolicyID, Compile;
    IDs();
    assert CONFIG.policies[..1] == [SECRETS] && [SECRETS][..0] == [];
    assert CompiledPolicies([SECRETS]) == map["secrets@1" := Compile(SECRETS)];
  }

  lemma Supported()
    ensures SupportsStage(Compile(SECRETS), "pre_model") && SupportsStage(Compile(NAMES), "pre_model")
  {
  }

  /** With nothing selected the mandatory policy applies alone; selecting the other one adds it. */
  lemma Resolves()
    ensures Resolved(CatalogOf(CONFIG), "t", "", [], "pre_model") == Success([Compile(SECRETS)])
    ensures Resolved(CatalogOf(CONFIG), "t", "", ["names@1"], "pre_model")
         == Success([Compile(SECRETS), Compile(NAMES)])
  {
    hide Compile, CatalogOf, Walk, SupportsStage;
    var c := CatalogOf(CONFIG);
    Cataloged();
    Supported();
    assert "secrets@1"[0] != "names@1"[0];
    WalksTwo(c, "secrets@1", "names@1", Compile(SECRETS), Compile(NAMES), "pre_model");
    assert MandatoryIDs(c, "t") == ["secrets@1"] + [] == ["secrets@1"];
    assert ["secrets@1"] + [] + [] == ["secrets@1"];
    assert ["secrets@1"] + [] + ["names@1"] == ["secrets@1", "names@1"];
  }

  // ----- The two runs -----

  lemma EntriesOfTwo(p: CompiledPolicy, e: Event, q: CompiledPolicy, f: Event, at: nat)
    ensures Entries([PolicyLog(p, [e], at, at)]) == [Entry(p, e)]
    ensures Entries([PolicyLog(p, [e], at, at), PolicyLog(q, [f], at, at)]) == [Entry(p, e), Entry(q, f)]
  {
    hide PolicyIDs, PolicyTimes, PolicyID;
    var a, b := PolicyLog(p, [e], at, at), PolicyLog(q, [f], at, at);
    LogEmpty();
    LogStep([], a);
    LogStep([a], b);
    assert [] + [a] == [a] && [a] + [b] == [a, b];
    assert EntriesOf(p, [e]) == [Entry(p, e)] && EntriesOf(q, [f]) == [Entry(q, f)];
  }

  lemma ReplacementsOfTwo(a: Entry, b: Entry)
    requires Redacts(a) && Redacts(b)
    ensures ReplacementsIn([a]) == a.event.replacements
    ensures ReplacementsIn([a, b]) == a.event.replacements + b.event.replacements
    ensures Judge([a]).action == Redact && Judge([a, b]).action == Redact
    ensures Judge([a]).winningReason == FindingReason(a.policy)
  {
    hide FindingReason;
    assert [a][..0] == [] && [a, b][..1] == [a];
    assert ReplacementsIn([a]) == [] + a.event.replacements;
    assert Judge([a]).action == Redact;
  }

  ghost function Found(p: CompiledPolicy, sc: Scanner, c: Content): Entry
    requires Sound(sc) && |p.detectors| == 1
  {
    var d := p.detectors[0];
    Entry(p, Answered(d, Detected(d, sc, c).0, Detected(d, sc, c).1, 0, 0))
  }

  /** The built-in executor at work on policies with one detector each, in no measurable time. */
  lemma RunOfOne(sc: Scanner, c: Content, p: CompiledPolicy)
    requires Sound(sc) && WellFormed(p) && |p.detectors| == 1
    ensures var run := RunPolicies(Instant(sc, c), [p], 0, 0);
            run.Completed? && Entries(run.log) == [Found(p, sc, c)]
  {
    hide RunDetectors, Entries, Instant, Detected, WellFormed, Sound;
    var env := Instant(sc, c);
    InstantIsFree(sc, c);
    var e := InstantAnswers(sc, c, p, p.detectors[0], 0, 0);
    var log := PolicyLog(p, [e], 0, 0);
    assert [p][1..] == [] && [log] + [] == [log];
    assert RunPolicies(env, [], 0, 1) == Completed([], 0);
    assert RunPolicies(env, [p], 0, 0) == Completed([log], 0);
    EntriesOfTwo(p, e, p, e, 0);
  }

  lemma RunOfTwo(sc: Scanner, c: Content, p: CompiledPolicy, q: CompiledPolicy)
    requires Sound(sc) && WellFormed(p) && WellFormed(q) && |p.detectors| == 1 && |q.detectors| == 1
    ensures var run := RunPolicies(Instant(sc, c), [p, q], 0, 0);
            run.Completed? && Entries(run.log) == [Found(p, sc, c), Found(q, sc, c)]
  {
    hide RunDetectors, Entries, Instant, Detected, WellFormed, Sound;
    var env := Instant(sc, c);
    InstantIsFree(sc, c);
    var e := InstantAnswers(sc, c, p, p.detectors[0], 0, 0);
    var f := InstantAnswers(sc, c, q, q.detectors[0], 0, 1);
    var first, second := PolicyLog(p, [e], 0, 0), PolicyLog(q, [f], 0, 0);
    assert [q][1..] == [] && [p, q][1..] == [q];
    assert [second] + [] == [second] && [first] + [second] == [first, second];
    assert RunPolicies(env, [], 0, 2) == Completed([], 0);
    assert RunPolicies(env, [q], 0, 1) == Completed([second], 0);
    assert RunPolicies(env, [p, q], 0, 0) == Completed([first, second], 0);
    EntriesOfTwo(p, e, q, f, 0);
  }

  lemma InstantIsFree(sc: Scanner, c: Content)
    requires Sound(sc)
    ensures Instant(sc, c).caller == Caller(None, None)
  {
  }

  lemma CompiledWell()
    ensures WellFormed(Compile(SECRETS)) && WellFormed(Compile(NAMES))
    ensures Compile(SECRETS).detectors == SECRETS.detectors && Compile(NAMES).detectors == NAMES.detectors
    ensures |SECRETS.detectors| == 1 && |NAMES.detectors| == 1
    ensures Compile(SECRETS).config.action == Compile(NAMES).config.action == Redact
  {
    assert Compile(SECRETS).detectors[0] == SECRETS.detectors[0];
    assert Compile(NAMES).detectors[0] == NAMES.detectors[0];
  }

  // ----- What becomes of the text -----

  lemma RedactedText(replacements: seq<Replacement>)
    requires AllForward(replacements) && forall r :: r in replacements ==> r.path == TEXT_PATH
    ensures RedactedContent(AS_TEXT, replacements).text == Redacted(SAID, replacements)
  {
    RecordedAll(replacements, TEXT_PATH);
  }

  lemma SecretReplaced(path: string)
    ensures var items := [Replacement(path, "<S>", 3, 9)]; AllForward(items) && Redacted(SAID, items) == "my <S>"
  {
    hide Redacted;
    OneMatch(SAID, Replacement(path, "<S>", 3, 9));
    assert "my secret"[..3] + "<S>" + "my secret"[9..] == "my <S>";
  }

  lemma UncoveredText()
    ensures RedactedContent(AS_TEXT, [Replacement(TEXT_PATH, "<S>", 3, 9), Replacement(TEXT_PATH, "X", 0, 4)]).text
         == "Xecret"
  {
    hide RedactedContent, Redacted;
    var secret, name := Replacement(TEXT_PATH, "<S>", 3, 9), Replacement(TEXT_PATH, "X", 0, 4);
    OverlapDropsLater(SAID, name, secret);
    RedactedText([secret, name]);
    assert "my secret"[..0] + "X" + "my secret"[4..] == "Xecret";
  }

  lemma MandatoryRun(sc: Scanner)
    requires Sound(sc)
    ensures var run := RunPolicies(Instant(sc, AS_TEXT), [Compile(SECRETS)], 0, 0);
            && run.Completed? && Judge(Entries(run.log)) == Verdict(Redact, FindingReason(Compile(SECRETS)))
            && RedactedContent(AS_TEXT, ReplacementsIn(Entries(run.log))).text == "my <S>"
  {
    hide RunPolicies, Entries, Judge, ReplacementsIn, RedactedContent, Redacted, Instant, Detected, WellFormed, Compile;
    hide KeywordPolicy, TextLeaves, FindingReason, PolicyID;
    CompiledWell();
    OnlyLeaves();
    SecretFound(sc, AS_TEXT, TEXT_PATH);
    RunOfOne(sc, AS_TEXT, Compile(SECRETS));
    var a := Found(Compile(SECRETS), sc, AS_TEXT);
    ReplacementsOfTwo(a, a);
    SecretReplaced(TEXT_PATH);
    RedactedText(a.event.replacements);
  }

  lemma FullRun(sc: Scanner)
    requires Sound(sc)
    ensures var run := RunPolicies(Instant(sc, AS_TEXT), [Compile(SECRETS), Compile(NAMES)], 0, 0);
            && run.Completed? && Judge(Entries(run.log)).action == Redact
            && RedactedContent(AS_TEXT, ReplacementsIn(Entries(run.log))).text == "Xecret"
  {
    hide RunPolicies, Entries, Judge, ReplacementsIn, RedactedContent, Redacted, Instant, Detected, WellFormed, Compile;
    hide KeywordPolicy, TextLeaves, FindingReason, PolicyID;
    CompiledWell();
    OnlyLeaves();
    SecretFound(sc, AS_TEXT, TEXT_PATH);
    NameFound(sc);
    RunOfTwo(sc, AS_TEXT, Compile(SECRETS), Compile(NAMES));
    var a, b := Found(Compile(SECRETS), sc, AS_TEXT), Found(Compile(NAMES), sc, AS_TEXT);
    ReplacementsOfTwo(a, b);
    assert a.event.replacements + b.event.replacements
        == [Replacement(TEXT_PATH, "<S>", 3, 9), Replacement(TEXT_PATH, "X", 0, 4)];
    UncoveredText();
  }

  /**
   The mandatory policy alone returns "my <S>". When the caller also selects the second policy, whose match
   overlaps the secret from the left, both evaluations decide to redact, but the secret's replacement is
   dropped whole and the caller gets "Xecret".
   */
  lemma CallerUncoversSecret(sc: Scanner, lib: Compilers)
    requires Sound(sc)
    ensures Accepted(CONFIG, lib)
    ensures var own := Resolved(CatalogOf(CONFIG), "t", "", [], "pre_model");
            var all := Resolved(CatalogOf(CONFIG), "t", "", ["names@1"], "pre_model");
            && own.Success? && all.Success?
            && var ownRun := RunPolicies(Instant(sc, AS_TEXT), own.value, 0, 0);
               var fullRun := RunPolicies(Instant(sc, AS_TEXT), all.value, 0, 0);
               && ownRun.Completed? && fullRun.Completed?
               && Judge(Entries(ownRun.log)).action == Judge(Entries(fullRun.log)).action == Redact
               && Judge(Entries(ownRun.log)).winningReason == "matched policy " + "secrets@1"
               && RedactedContent(AS_TEXT, ReplacementsIn(Entries(ownRun.log))).text == "my <S>"
               && RedactedContent(AS_TEXT, ReplacementsIn(Entries(fullRun.log))).text == "Xecret"
  {
    hide Accepted, Resolved, RunPolicies, Entries, Judge, ReplacementsIn, RedactedContent, Instant, CatalogOf, Compile;
    hide FindingReason;
    Starts(lib);
    Resolves();
    MandatoryRun(sc);
    SecretsReason();
    FullRun(sc);
  }

  lemma SecretsReason()
    ensures FindingReason(Compile(SECRETS)) == "matched policy " + "secrets@1"
  {
    hide PolicyID;
    IDs();
    assert PolicyID(Compile(SECRETS).config) == PolicyID(SECRETS) by { SameID(); }
  }

  lemma SameID()
    ensures PolicyID(Compile(SECRETS).config) == PolicyID(SECRETS)
  {
  }

  // ----- What becomes of the caller's message -----

  lemma MessageRun(sc: Scanner)
    requires Sound(sc)
    ensures var run := RunPolicies(Instant(sc, AS_MESSAGE), [Compile(SECRETS)], 0, 0);
            && run.Completed? && Judge(Entries(run.log)).action == Redact && ReplacementsIn(Entries(run.log)) != []
            && RedactedContent(AS_MESSAGE, ReplacementsIn(Entries(run.log))).messages == [Message("user", "my <S>")]
  {
    hide RunPolicies, Entries, Judge, ReplacementsIn, RedactedContent, Redacted, Instant, Detected, WellFormed, Compile;
    hide KeywordPolicy, TextLeaves, MessagePath, FindingReason, PolicyID;
    CompiledWell();
    OnlyLeaves();
    SecretFound(sc, AS_MESSAGE, MessagePath(0));
    RunOfOne(sc, AS_MESSAGE, Compile(SECRETS));
    var a := Found(Compile(SECRETS), sc, AS_MESSAGE);
    ReplacementsOfTwo(a, a);
    RedactedMessage(a.event.replacements);
  }

  lemma RedactedMessage(items: seq<Replacement>)
    requires items == [Replacement(MessagePath(0), "<S>", 3, 9)]
    ensures RedactedContent(AS_MESSAGE, items).messages == [Message("user", "my <S>")]
  {
    hide MessagePath, Redacted;
    SecretReplaced(MessagePath(0));
    RecordedAll(items, MessagePath(0));
    assert RewriteBy(items)(MessagePath(0), SAID) == "my <S>";
  }

  lemma InstantIsBuiltin(sc: Scanner)
    requires Sound(sc)
    ensures RunsBuiltins(Instant(sc, AS_MESSAGE).exec, sc)
  {
    hide RunsBuiltins, BuiltinExecutor, Sound;
    BuiltinExecutorRuns(sc, NoTime);
  }

  lemma InstantMeets(sc: Scanner, executor: Executor)
    requires Sound(sc) && executor == Instant(sc, AS_MESSAGE).exec
    ensures AnswersForward(executor) && Env(executor, Caller(None, None), AS_MESSAGE) == Instant(sc, AS_MESSAGE)
  {
    hide AnswersForward, RunsBuiltins, BuiltinExecutor, Sound;
    InstantIsBuiltin(sc);
    BuiltinsAnswerForward(executor, sc);
  }

  /**
   The service itself, from starting with the configuration to answering a request with one message and nothing
   selected: it decides to redact, and the caller's own message is overwritten.
   */
  method EvaluationMutatesRequest(lib: Compilers, executor: Executor, ghost sc: Scanner)
    returns (content: Envelope, out: Result<Response, EvaluateError>)
    requires Sound(sc) && executor == Instant(sc, AS_MESSAGE).exec
    ensures out.Success? && out.value.action == Redact
    ensures content.messages.Length == 1 && content.messages[0] == Message("user", "my <S>")
  {
    hide Accepted, CatalogOf, Resolved, RunPolicies, Entries, Judge, ReplacementsIn, RedactedContent, Instant, Compile;
    hide AnswersForward, Sound, FindingsIn, FailuresIn, DetectorTimes, PolicyTimes, PolicyIDs;
    Starts(lib);
    Resolves();
    MessageRun(sc);
    InstantMeets(sc, executor);
    var messages := new Message[1](_ => Message("user", SAID));
    content := Envelope("chat", "", messages, None);
    assert View(content) == AS_MESSAGE;
    var resolver := NewResolver(CONFIG, lib);
    var evaluator := new Evaluator(resolver.value, executor);
    out := evaluator.Evaluate(Request("r", "pre_model", "t", "", [], content), Caller(None, None), 0);
    assert View(out.value.transformed.value).messages == content.messages[..];
  }

  // ----- Defaults at work -----

  /** A policy that says nothing about time or failures, with two detectors that say nothing about time. */
  const SLOW: PolicyConfig :=
    PolicyConfig("slow", 1, ["pre_model"], Redact, Unset, 0, [Unhurried("first"), Unhurried("second")])

  function Unhurried(id: string): Detector {
    Detector(id, None, Some(KeywordsConfig(["secret"], "pii", true, "", "high")), None, None, None, None, 0)
  }

  /** It is demanded by a tenant, and by nobody else. */
  const TENANT_CONFIG: Config := Config([], map["t" := ["slow@1"]], [SLOW], [])

  function Sluggish(c: Content, n: nat, d: Detector): nat {
    150_000_000
  }

  /** The built-in executor when every detection takes 150 milliseconds. */
  ghost function Late(sc: Scanner): Env
    requires Sound(sc)
  {
    Env(BuiltinExecutor(sc, Sluggish), Caller(None, None), AS_TEXT)
  }

  lemma SlowID()
    ensures PolicyID(SLOW) == "slow@1"
  {
    assert Version(1) == Decimal(1) == "1";
    assert "slow" + ['@'] + "1" == "slow@1";
  }

  lemma SlowAccepted(lib: Compilers)
    ensures PolicyAccepted(SLOW, lib) && Accepted(TENANT_CONFIG, lib)
  {
    hide PolicyID;
    SlowID();
    assert PolicyAccepted(SLOW, lib);
    assert TENANT_CONFIG.policies[0] == SLOW;
  }

  lemma SlowResolves()
    ensures Resolved(CatalogOf(TENANT_CONFIG), "t", "", [], "pre_model") == Success([Compile(SLOW)])
    ensures Resolved(CatalogOf(TENANT_CONFIG), "other", "", [], "pre_model") == Success([])
  {
    hide PolicyID, Compile;
    SlowID();
    SlowSupports();
    var c := CatalogOf(TENANT_CONFIG);
    assert [SLOW][..0] == [];
    assert CompiledPolicies([SLOW]) == map["slow@1" := Compile(SLOW)];
    var ids := ["slow@1"];
    assert MandatoryIDs(c, "t") == [] + ids == ids && ids + [] + [] == ids;
    assert ids[1..] == [];
    assert Walk(c, [], {} + {"slow@1"}, "pre_model") == Success([]);
    assert Walk(c, ids, {}, "pre_model") == Success([Compile(SLOW)] + []);
    assert [Compile(SLOW)] + [] == [Compile(SLOW)];
    var none: seq<string> := [];
    assert MandatoryIDs(c, "other") == none + none == none && none + none + none == none;
  }

  lemma SlowSupports()
    ensures SupportsStage(Compile(SLOW), "pre_model")
  {
  }

  /** What it runs with: 100 milliseconds for the policy and for each detector, and the closed mode. */
  lemma SlowCompiled()
    ensures var p := Compile(SLOW);
            && p.config.timeout == 100_000_000 && p.config.failureMode == Closed && PolicyID(p.config) == PolicyID(SLOW)
            && |p.detectors| == 2 && p.detectors[0] == Unhurried("first").(timeout := 100_000_000)
  {
    assert Compile(SLOW).detectors[0] == WithDetectorDefaults(SLOW.detectors[0], 100_000_000);
  }

  /** The one failure such a run records. */
  const OVERDUE: DetectorFailure :=
    DetectorFailure("slow@1", "first", PolicyScope, PolicyTimeout, Closed, 100, true)

  const OVERDUE_REASON: string :=
    "POLICY_TIMEOUT" + " in policy " + "slow@1" + " handled with failure mode " + "closed"

  /** The reason a failure gives, with the names under which codes and modes are published. */
  lemma PublishedReason(f: DetectorFailure)
    requires !f.code.OtherCode? && f.failureMode in {Open, Closed, MonitorFailure}
    ensures var mode := f.failureMode;
            var how := if mode == Open then "open" else if mode == Closed then "closed" else "monitor";
            FailureReason(f) == NameOf(f.code) + " in policy " + f.policyID + " handled with failure mode " + how
  {
  }

  function NameOf(code: FailureCode): string {
    if code == PolicyTimeout then "POLICY_TIMEOUT"
    else if code == DetectorTimeout then "DETECTOR_TIMEOUT"
    else if code == DetectorUnavailable then "DETECTOR_UNAVAILABLE"
    else if code == DetectorInvalidResponse then "DETECTOR_INVALID_RESPONSE"
    else if code == DetectorUnsupported then "DETECTOR_UNSUPPORTED_INPUT"
    else "DETECTOR_INTERNAL_ERROR"
  }

  lemma SlowCall(sc: Scanner)
    requires Sound(sc)
    ensures var p := Compile(SLOW);
            Attempt(Late(sc), p, p.detectors[0], 100_000_000, 0, 0) ==
            Happened(Failed(Some(p.detectors[0]), OVERDUE, 0, 150_000_000))
  {
    hide Compile, Detected, PolicyID, DurationMilliseconds, InMilliseconds, Sound;
    SlowID();
    SlowCompiled();
    var p := Compile(SLOW);
    assert Sluggish(AS_TEXT, 0, p.detectors[0]) == 150_000_000;
    CallOutcome(Late(sc), p, p.detectors[0], 100_000_000, 0, 0);
    var a := Attempt(Late(sc), p, p.detectors[0], 100_000_000, 0, 0);
    OneHundred();
    OneMillisecondValue(100_000_000, a.event.failure.timeoutMS, 100);
  }

  lemma OneHundred()
    ensures InMilliseconds(100_000_000, 100)
  {
  }

  lemma SlowRun(sc: Scanner)
    requires Sound(sc)
    ensures var run := RunPolicies(Late(sc), [Compile(SLOW)], 0, 0);
            var failed := Failed(Some(Compile(SLOW).detectors[0]), OVERDUE, 0, 150_000_000);
            run == Completed([PolicyLog(Compile(SLOW), [failed], 0, 150_000_000)], 150_000_000)
  {
    hide Compile, Attempt, BuiltinExecutor, Sound;
    SlowCompiled();
    SlowCall(sc);
    var env, p := Late(sc), Compile(SLOW);
    var failed := Failed(Some(p.detectors[0]), OVERDUE, 0, 150_000_000);
    assert PolicyDeadline(env.caller, p, 0) == 100_000_000;
    assert RunDetectors(env, p, 0, 100_000_000, 0, 0) == Ran([failed], 150_000_000, 1);
    var log := PolicyLog(p, [failed], 0, 150_000_000);
    assert [p][1..] == [] && [log] + [] == [log];
    assert RunPolicies(env, [], 150_000_000, 1) == Completed([], 150_000_000);
  }

  lemma OverdueBlocks(p: CompiledPolicy, failed: Event)
    requires failed.Failed? && failed.failure == OVERDUE
    ensures Judge([Entry(p, failed)]) == Verdict(Block, OVERDUE_REASON)
  {
    assert [Entry(p, failed)][..0] == [];
  }

  /**
   The defaults, all at once. A tenant demands a policy that omits its timeout and its failure mode, with two
   detectors that omit theirs, and detection takes 150 milliseconds. The first detector has exactly as much time
   as its policy, so its delay is the policy's: one policy-scoped failure of 100 milliseconds is recorded, the
   second detector is left out, and the decision is to block. A request of another tenant runs no policy.
   */
  lemma DefaultsAtWork(sc: Scanner, lib: Compilers)
    requires Sound(sc)
    ensures Accepted(TENANT_CONFIG, lib)
    ensures var own := Resolved(CatalogOf(TENANT_CONFIG), "t", "", [], "pre_model");
            && own.Success?
            && var run := RunPolicies(Late(sc), own.value, 0, 0);
               && run.Completed? && |Entries(run.log)| == 1 && Entries(run.log)[0].event.Failed?
               && Entries(run.log)[0].event.failure == OVERDUE
               && Judge(Entries(run.log)) == Verdict(Block, OVERDUE_REASON)
    ensures Resolved(CatalogOf(TENANT_CONFIG), "other", "", [], "pre_model") == Success([])
  {
    hide Accepted, CatalogOf, Resolved, RunPolicies, Judge, Compile, Sound, Entries;
    SlowAccepted(lib);
    SlowResolves();
    SlowRun(sc);
    SlowCompiled();
    var p := Compile(SLOW);
    var failed := Failed(Some(p.detectors[0]), OVERDUE, 0, 150_000_000);
    EntriesOfOneLog(p, failed, 0, 150_000_000);
    OverdueBlocks(p, failed);
  }

  lemma EntriesOfOneLog(p: CompiledPolicy, e: Event, started: nat, ended: nat)
    ensures Entries([PolicyLog(p, [e], started, ended)]) == [Entry(p, e)]
  {
    hide PolicyIDs, PolicyTimes, PolicyID;
    LogEmpty();
    LogStep([], PolicyLog(p, [e], started, ended));
    assert [] + [PolicyLog(p, [e], started, ended)] == [PolicyLog(p, [e], started, ended)];
    assert EntriesOf(p, [e]) == [Entry(p, e)];
  }

  /** And such a request is answered with the default decision and reason. */
  method QuietEvaluation(lib: Compilers, executor: Executor) returns (out: Result<Response, EvaluateError>)
    requires AnswersForward(executor)
    ensures out.Success? && out.value.action == Allow && out.value.reason == "no policy findings"
    ensures out.value.appliedPolicies == [] && out.value.findings == [] && out.value.failures == []
  {
    hide Accepted, CatalogOf, Resolved, AnswersForward, RedactedContent;
    SlowAccepted(lib);
    SlowResolves();
    LogEmpty();
    var messages := new Message[0];
    var content := Envelope("text", SAID, messages, None);
    var resolver := NewResolver(TENANT_CONFIG, lib);
    var evaluator := new Evaluator(resolver.value, executor);
    out := evaluator.Evaluate(Request("r", "pre_model", "other", "", [], content), Caller(None, None), 0);
  }
}
