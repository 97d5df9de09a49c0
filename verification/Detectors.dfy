/** The detectors that point at text: what they find, and the replacements that go with it. */
module Detectors {
  import opened Text
  import opened Content
  import opened Splicing
  import opened Keywords
  import opened Policy

  datatype Location = Location(path: string, start: int, end: int)

  datatype Finding =
    Finding(detectorID: string, category: string, severity: string,
            locations: seq<Location>, attributes: map<string, string>)

  /** What the libraries and the detectors without spans report. */
  datatype Scanner = Scanner(
    matches: (string, string) -> seq<Span>,
    secretMatches: (nat, string) -> seq<Span>,
    contextualMatches: string -> seq<Span>,
    entropy: string -> real,
    spanless: (Detector, Content) -> seq<Finding>)

  ghost predicate SpansIn(spans: seq<Span>, n: nat) {
    forall s :: s in spans ==> s.start <= s.end <= n
  }

  /** The promise of the regular expression library: spans lie in the text and do not run backwards. */
  ghost predicate Sound(sc: Scanner) {
    && (forall pattern, text :: SpansIn(sc.matches(pattern, text), |text|))
    && (forall which, text :: SpansIn(sc.secretMatches(which, text), |text|))
    && (forall text :: SpansIn(sc.contextualMatches(text), |text|))
  }

  /** One finding and the replacement that belongs to it. */
  datatype Hit = Hit(finding: Finding, item: Replacement)

  function Findings(hits: seq<Hit>): (f: seq<Finding>)
    ensures |f| == |hits| && forall i :: 0 <= i < |f| ==> f[i] == hits[i].finding
  {
    seq(|hits|, i requires 0 <= i < |hits| => hits[i].finding)
  }

  function Items(hits: seq<Hit>): (r: seq<Replacement>)
    ensures |r| == |hits| && forall i :: 0 <= i < |r| ==> r[i] == hits[i].item
  {
    seq(|hits|, i requires 0 <= i < |hits| => hits[i].item)
  }

  /** Two lists that are the two halves of the same hits. */
  ghost predicate Reports(findings: seq<Finding>, replacements: seq<Replacement>, hits: seq<Hit>) {
    findings == Findings(hits) && replacements == Items(hits)
  }

  lemma ReportsConcat(f: seq<Finding>, r: seq<Replacement>, a: seq<Hit>,
                      g: seq<Finding>, q: seq<Replacement>, b: seq<Hit>)
    requires Reports(f, r, a) && Reports(g, q, b)
    ensures Reports(f + g, r + q, a + b)
  {
  }

  function DefaultString(value: string, fallback: string): string {
    if value == "" then fallback else value
  }

  function TextHit(id: string, category: string, severity: string, path: string, value: string, span: Span): Hit {
    Hit(Finding(id, category, severity, [Location(path, span.start, span.end)], map[]),
        Replacement(path, value, span.start, span.end))
  }

  // ----- Patterns and keywords -----

  function SpanHits(id: string, category: string, severity: string, path: string, value: string, spans: seq<Span>)
    : (hits: seq<Hit>)
    ensures |hits| == |spans|
    ensures forall i :: 0 <= i < |hits| ==> hits[i] == TextHit(id, category, severity, path, value, spans[i])
  {
    seq(|spans|, i requires 0 <= i < |spans| => TextHit(id, category, severity, path, value, spans[i]))
  }

  function KeywordHits(id: string, cfg: KeywordsConfig, leaf: Leaf, count: nat): seq<Hit>
    requires count <= |cfg.values|
  {
    if count == 0 then []
    else
      KeywordHits(id, cfg, leaf, count - 1) +
      SpanHits(id, cfg.category, cfg.severity, leaf.path, DefaultString(cfg.replacement, "<REDACTED>"),
               KeywordSpans(leaf.text, cfg.values[count - 1], cfg.caseSensitive))
  }

  /** What a pattern or keyword detector finds in one string. */
  function TextHits(d: Detector, sc: Scanner, leaf: Leaf): seq<Hit> {
    if d.regex.Some? then
      var cfg := d.regex.value;
      SpanHits(d.id, cfg.category, cfg.severity, leaf.path, DefaultString(cfg.replacement, "<REDACTED>"),
               sc.matches(cfg.pattern, leaf.text))
    else if d.keywords.Some? then KeywordHits(d.id, d.keywords.value, leaf, |d.keywords.value.values|)
    else []
  }

  // ----- Secrets -----

  datatype Candidate = Candidate(path: string, typ: string, patternID: string, start: int, end: int)

  const SECRET_PATTERNS: seq<(string, string)> :=
    [("pem_private_key", "pem-private-key"), ("authorization", "authorization-header"),
     ("connection_string", "uri-userinfo"), ("known_token", "known-token-prefix")]

  predicate Enabled(cfg: SecretsConfig, typ: string) {
    cfg.types == [] || typ in cfg.types
  }

  function SpanCandidates(path: string, typ: string, patternID: string, spans: seq<Span>): (c: seq<Candidate>)
    ensures |c| == |spans|
    ensures forall i :: 0 <= i < |c| ==> c[i] == Candidate(path, typ, patternID, spans[i].start, spans[i].end)
  {
    seq(|spans|, i requires 0 <= i < |spans| => Candidate(path, typ, patternID, spans[i].start, spans[i].end))
  }

  /** The candidates of a list of fixed patterns, in the order of the list. */
  function PatternCandidates(cfg: SecretsConfig, sc: Scanner, leaf: Leaf, patterns: seq<(string, string)>)
    : seq<Candidate>
  {
    if patterns == [] then []
    else
      var last := |patterns| - 1;
      var (typ, id) := patterns[last];
      PatternCandidates(cfg, sc, leaf, patterns[..last]) +
      if Enabled(cfg, typ) then SpanCandidates(leaf.path, typ, id, sc.secretMatches(last, leaf.text)) else []
  }

  predicate HighEntropy(cfg: SecretsConfig, sc: Scanner, text: string, span: Span)
    requires span.start <= span.end <= |text|
  {
    var minLength := if cfg.minEntropyLength == 0 then 20 else cfg.minEntropyLength;
    var minEntropy := if cfg.minEntropy == 0.0 then 4.0 else cfg.minEntropy;
    span.end - span.start >= minLength && sc.entropy(text[span.start..span.end]) >= minEntropy
  }

  function ContextualCandidates(cfg: SecretsConfig, sc: Scanner, leaf: Leaf, spans: seq<Span>): seq<Candidate>
    requires SpansIn(spans, |leaf.text|)
  {
    if spans == [] then []
    else
      var last := |spans| - 1;
      ContextualCandidates(cfg, sc, leaf, spans[..last]) +
      if HighEntropy(cfg, sc, leaf.text, spans[last])
      then SpanCandidates(leaf.path, "contextual_high_entropy", "contextual-entropy", [spans[last]]) else []
  }

  function ContextCandidates(cfg: SecretsConfig, sc: Scanner, leaf: Leaf): seq<Candidate>
    requires Sound(sc)
  {
    if Enabled(cfg, "contextual_high_entropy")
    then ContextualCandidates(cfg, sc, leaf, sc.contextualMatches(leaf.text)) else []
  }

  function LeafCandidates(cfg: SecretsConfig, sc: Scanner, leaf: Leaf): seq<Candidate>
    requires Sound(sc)
  {
    PatternCandidates(cfg, sc, leaf, SECRET_PATTERNS) + ContextCandidates(cfg, sc, leaf)
  }

  predicate SamePlace(a: Candidate, b: Candidate) {
    a.path == b.path && a.start == b.start && a.end == b.end
  }

  predicate PlaceTaken(c: seq<Candidate>, x: Candidate) {
    exists y :: y in c && SamePlace(x, y)
  }

  /** The candidates without those whose place an earlier one has taken. */
  function FirstAtEachPlace(c: seq<Candidate>): seq<Candidate> {
    if c == [] then []
    else
      var last := c[|c| - 1];
      FirstAtEachPlace(c[..|c| - 1]) + if PlaceTaken(c[..|c| - 1], last) then [] else [last]
  }

  function SecretHit(d: Detector, cfg: SecretsConfig, c: Candidate): Hit {
    Hit(Finding(d.id, DefaultString(cfg.categoryPrefix, "secret") + "." + c.typ, cfg.severity,
                [Location(c.path, c.start, c.end)],
                map["secret_type" := c.typ, "pattern_id" := c.patternID]),
        Replacement(c.path, DefaultString(cfg.replacement, "<SECRET>"), c.start, c.end))
  }

  function SecretHits(d: Detector, cfg: SecretsConfig, c: seq<Candidate>): (hits: seq<Hit>)
    ensures |hits| == |c| && forall i :: 0 <= i < |hits| ==> hits[i] == SecretHit(d, cfg, c[i])
  {
    seq(|c|, i requires 0 <= i < |c| => SecretHit(d, cfg, c[i]))
  }

  /** The text the program uses to recognise a place it has already reported. */
  function PlaceKey(path: string, start: int, end: int): string {
    path + [':'] + Offset(start) + [':'] + Offset(end)
  }

  /** `%d` of an offset. */
  function Offset(n: int): string {
    if n < 0 then "-" + Decimal(-n) else Decimal(n)
  }

  /** The printed key is as good as the place itself, even for paths that hold colons. */
  lemma PlaceKeyInjective(a: Candidate, b: Candidate)
    requires 0 <= a.start && 0 <= a.end && 0 <= b.start && 0 <= b.end
    requires PlaceKey(a.path, a.start, a.end) == PlaceKey(b.path, b.start, b.end)
    ensures SamePlace(a, b)
  {
    SplitAtNumber(a.path + [':'] + Decimal(a.start), a.end, b.path + [':'] + Decimal(b.start), b.end, ':');
    SplitAtNumber(a.path, a.start, b.path, b.start, ':');
  }

  /** The variables that the secret detector's closure adds to. */
  class SecretCollector {
    const detector: Detector
    const cfg: SecretsConfig
    var findings: seq<Finding>
    var replacements: seq<Replacement>
    var seen: set<string>
    ghost var offered: seq<Candidate>

    ghost predicate Valid()
      reads this
    {
      && (forall c :: c in offered ==> 0 <= c.start && 0 <= c.end)
      && seen == (set c | c in offered :: PlaceKey(c.path, c.start, c.end))
      && Reports(findings, replacements, SecretHits(detector, cfg, FirstAtEachPlace(offered)))
    }

    constructor (detector: Detector, cfg: SecretsConfig)
      ensures Valid() && offered == [] && this.detector == detector && this.cfg == cfg
    {
      this.detector, this.cfg := detector, cfg;
      findings, replacements, seen, offered := [], [], {}, [];
    }

    method Add(path: string, typ: string, patternID: string, start: int, end: int)
      requires Valid() && 0 <= start && 0 <= end
      modifies this
      ensures Valid() && offered == old(offered) + [Candidate(path, typ, patternID, start, end)]
    {
      hide SecretHit, PlaceKey;
      ghost var c := Candidate(path, typ, patternID, start, end);
      var key := PlaceKey(path, start, end);
      assert key in seen <==> PlaceTaken(offered, c) by {
        forall y | y in offered && PlaceKey(y.path, y.start, y.end) == key ensures SamePlace(c, y) {
          PlaceKeyInjective(c, y);
        }
        if PlaceTaken(offered, c) {
          var y :| y in offered && SamePlace(c, y);
          assert PlaceKey(y.path, y.start, y.end) == key;
        }
      }
      ghost var before := offered;
      offered := offered + [c];
      assert offered[..|offered| - 1] == before;
      if key in seen {
        assert FirstAtEachPlace(offered) == FirstAtEachPlace(before);
        return;
      }
      seen := seen + {key};
      var hit := SecretHit(detector, cfg, Candidate(path, typ, patternID, start, end));
      findings := findings + [hit.finding];
      replacements := replacements + [hit.item];
    }
  }

  // ----- One detector over a request -----

  ghost function HitsOver(d: Detector, sc: Scanner, leaves: seq<Leaf>): seq<Hit> {
    if leaves == [] then []
    else HitsOver(d, sc, leaves[..|leaves| - 1]) + TextHits(d, sc, leaves[|leaves| - 1])
  }

  ghost function CandidatesOver(cfg: SecretsConfig, sc: Scanner, leaves: seq<Leaf>): seq<Candidate>
    requires Sound(sc)
  {
    if leaves == [] then []
    else CandidatesOver(cfg, sc, leaves[..|leaves| - 1]) + LeafCandidates(cfg, sc, leaves[|leaves| - 1])
  }

  ghost function Hits(d: Detector, sc: Scanner, c: Content): seq<Hit>
    requires Sound(sc)
  {
    if d.secrets.Some? then
      SecretHits(d, d.secrets.value, FirstAtEachPlace(CandidatesOver(d.secrets.value, sc, StringLeaves(c))))
    else HitsOver(d, sc, TextLeaves(c))
  }

  /** The findings and replacements of a detector. */
  ghost function Detected(d: Detector, sc: Scanner, c: Content): (seq<Finding>, seq<Replacement>)
    requires Sound(sc)
  {
    if Spanless(d) then (sc.spanless(d, c), [])
    else (Findings(Hits(d, sc, c)), Items(Hits(d, sc, c)))
  }

  method EvaluateSecrets(d: Detector, cfg: SecretsConfig, sc: Scanner, c: Content)
    returns (findings: seq<Finding>, replacements: seq<Replacement>)
    requires Sound(sc)
    ensures Reports(findings, replacements,
                    SecretHits(d, cfg, FirstAtEachPlace(CandidatesOver(cfg, sc, StringLeaves(c)))))
  {
    hide PatternCandidates, ContextCandidates, StringLeaves, SecretHits, FirstAtEachPlace, Reports, PlaceKey;
    NoCandidates(cfg, sc);
    hide CandidatesOver;
    var leaves := VisitStrings(c);
    assert leaves[..0] == [];
    var out := new SecretCollector(d, cfg);
    for l := 0 to |leaves|
      invariant out.Valid() && fresh(out) && out.offered == CandidatesOver(cfg, sc, leaves[..l])
    {
      CandidatesStep(cfg, sc, leaves, l);
      OfferPatterns(out, sc, leaves[l], SECRET_PATTERNS);
      OfferContextual(out, sc, leaves[l]);
    }
    assert leaves[..|leaves|] == leaves;
    findings, replacements := out.findings, out.replacements;
  }

  lemma NoCandidates(cfg: SecretsConfig, sc: Scanner)
    requires Sound(sc)
    ensures CandidatesOver(cfg, sc, []) == []
  {
  }

  lemma CandidatesStep(cfg: SecretsConfig, sc: Scanner, leaves: seq<Leaf>, l: nat)
    requires Sound(sc) && l < |leaves|
    ensures CandidatesOver(cfg, sc, leaves[..l + 1]) == CandidatesOver(cfg, sc, leaves[..l])
      + PatternCandidates(cfg, sc, leaves[l], SECRET_PATTERNS) + ContextCandidates(cfg, sc, leaves[l])
  {
    hide PatternCandidates, ContextCandidates, Sound;
    var before, own := CandidatesOver(cfg, sc, leaves[..l]), LeafCandidates(cfg, sc, leaves[l]);
    CandidatesLast(cfg, sc, leaves[..l], leaves[l]);
    assert leaves[..l + 1] == leaves[..l] + [leaves[l]];
    assert own == PatternCandidates(cfg, sc, leaves[l], SECRET_PATTERNS) + ContextCandidates(cfg, sc, leaves[l]);
  }

  lemma CandidatesLast(cfg: SecretsConfig, sc: Scanner, leaves: seq<Leaf>, leaf: Leaf)
    requires Sound(sc)
    ensures CandidatesOver(cfg, sc, leaves + [leaf])
         == CandidatesOver(cfg, sc, leaves) + LeafCandidates(cfg, sc, leaf)
  {
    hide LeafCandidates, Sound;
    assert (leaves + [leaf])[..|leaves + [leaf]| - 1] == leaves;
  }

  lemma PatternsLast(cfg: SecretsConfig, sc: Scanner, leaf: Leaf, patterns: seq<(string, string)>,
                     typ: string, id: string)
    ensures PatternCandidates(cfg, sc, leaf, patterns + [(typ, id)]) == PatternCandidates(cfg, sc, leaf, patterns)
      + if Enabled(cfg, typ) then SpanCandidates(leaf.path, typ, id, sc.secretMatches(|patterns|, leaf.text)) else []
  {
    hide Enabled, SpanCandidates;
    assert (patterns + [(typ, id)])[..|patterns + [(typ, id)]| - 1] == patterns;
  }

  /** The first half of the secret detector's visitor: the fixed patterns, in order. */
  method OfferPatterns(out: SecretCollector, sc: Scanner, leaf: Leaf, patterns: seq<(string, string)>)
    requires Sound(sc) && out.Valid()
    modifies out
    ensures out.Valid()
    ensures out.offered == old(out.offered) + PatternCandidates(out.cfg, sc, leaf, patterns)
  {
    hide Enabled, SpanCandidates, SecretCollector.Valid, Sound;
    assert PatternCandidates(out.cfg, sc, leaf, patterns[..0]) == [];
    hide PatternCandidates;
    for p := 0 to |patterns|
      invariant out.Valid() && out.offered == old(out.offered) + PatternCandidates(out.cfg, sc, leaf, patterns[..p])
    {
      var (typ, id) := patterns[p];
      assert patterns[..p + 1] == patterns[..p] + [(typ, id)];
      PatternsLast(out.cfg, sc, leaf, patterns[..p], typ, id);
      if Enabled(out.cfg, typ) {
        OfferAll(out, leaf.path, typ, id, sc.secretMatches(p, leaf.text));
      }
    }
    assert patterns[..|patterns|] == patterns;
  }

  lemma ContextualLast(cfg: SecretsConfig, sc: Scanner, leaf: Leaf, spans: seq<Span>, span: Span)
    requires SpansIn(spans + [span], |leaf.text|)
    ensures SpansIn(spans, |leaf.text|) && SpansIn([span], |leaf.text|) && span.start <= span.end <= |leaf.text|
    ensures ContextualCandidates(cfg, sc, leaf, spans + [span]) == ContextualCandidates(cfg, sc, leaf, spans)
      + if HighEntropy(cfg, sc, leaf.text, span)
        then SpanCandidates(leaf.path, "contextual_high_entropy", "contextual-entropy", [span]) else []
  {
    hide HighEntropy, SpanCandidates;
    var all := spans + [span];
    assert all[..|all| - 1] == spans && all[|all| - 1] == span && span in all;
    assert forall s :: s in spans ==> s in all;
  }

  /** Every contextual match with a high-entropy value, in order. */
  method OfferMatches(out: SecretCollector, sc: Scanner, leaf: Leaf, spans: seq<Span>)
    requires out.Valid() && SpansIn(spans, |leaf.text|)
    modifies out
    ensures out.Valid() && out.offered == old(out.offered) + ContextualCandidates(out.cfg, sc, leaf, spans)
  {
    hide HighEntropy, SpanCandidates, SecretCollector.Valid;
    assert ContextualCandidates(out.cfg, sc, leaf, spans[..0]) == [];
    hide ContextualCandidates;
    for i := 0 to |spans|
      invariant SpansIn(spans[..i], |leaf.text|)
      invariant out.Valid() && out.offered == old(out.offered) + ContextualCandidates(out.cfg, sc, leaf, spans[..i])
    {
      assert spans[..i + 1] == spans[..i] + [spans[i]];
      ContextualLast(out.cfg, sc, leaf, spans[..i], spans[i]);
      if HighEntropy(out.cfg, sc, leaf.text, spans[i]) {
        OfferAll(out, leaf.path, "contextual_high_entropy", "contextual-entropy", [spans[i]]);
      }
    }
    assert spans[..|spans|] == spans;
  }

  /** The second half: assignments with a high-entropy value. */
  method OfferContextual(out: SecretCollector, sc: Scanner, leaf: Leaf)
    requires Sound(sc) && out.Valid()
    modifies out
    ensures out.Valid() && out.offered == old(out.offered) + ContextCandidates(out.cfg, sc, leaf)
  {
    hide Enabled, ContextualCandidates, SecretCollector.Valid;
    if Enabled(out.cfg, "contextual_high_entropy") {
      OfferMatches(out, sc, leaf, sc.contextualMatches(leaf.text));
    }
  }

  method OfferAll(out: SecretCollector, path: string, typ: string, id: string, spans: seq<Span>)
    requires out.Valid()
    modifies out
    ensures out.Valid() && out.offered == old(out.offered) + SpanCandidates(path, typ, id, spans)
  {
    for i := 0 to |spans|
      invariant out.Valid() && out.offered == old(out.offered) + SpanCandidates(path, typ, id, spans)[..i]
    {
      out.Add(path, typ, id, spans[i].start, spans[i].end);
    }
  }

  method EvaluateDetector(d: Detector, sc: Scanner, c: Content)
    returns (findings: seq<Finding>, replacements: seq<Replacement>)
    requires Sound(sc)
    ensures (findings, replacements) == Detected(d, sc, c)
  {
    if Spanless(d) {
      return sc.spanless(d, c), [];
    }
    if d.secrets.Some? {
      findings, replacements := EvaluateSecrets(d, d.secrets.value, sc, c);
    } else {
      findings, replacements := EvaluateText(d, sc, c);
    }
  }

  method EvaluateText(d: Detector, sc: Scanner, c: Content)
    returns (findings: seq<Finding>, replacements: seq<Replacement>)
    ensures Reports(findings, replacements, HitsOver(d, sc, TextLeaves(c)))
  {
    hide TextHits, TextLeaves;
    findings, replacements := [], [];
    var leaves := VisitText(c);
    for l := 0 to |leaves|
      invariant Reports(findings, replacements, HitsOver(d, sc, leaves[..l]))
    {
      assert leaves[..l + 1][..l] == leaves[..l];
      var f, r := VisitLeafForText(d, sc, leaves[l]);
      ReportsConcat(findings, replacements, HitsOver(d, sc, leaves[..l]), f, r, TextHits(d, sc, leaves[l]));
      findings, replacements := findings + f, replacements + r;
    }
    assert leaves[..|leaves|] == leaves;
  }

  /** The body of the text visitor. */
  method VisitLeafForText(d: Detector, sc: Scanner, leaf: Leaf)
    returns (findings: seq<Finding>, replacements: seq<Replacement>)
    ensures Reports(findings, replacements, TextHits(d, sc, leaf))
  {
    findings, replacements := [], [];
    if d.regex.Some? {
      var cfg := d.regex.value;
      findings, replacements :=
        Report(d.id, cfg.category, cfg.severity, leaf.path, cfg.replacement, sc.matches(cfg.pattern, leaf.text));
    } else if d.keywords.Some? {
      findings, replacements := MatchKeywords(d.id, d.keywords.value, leaf);
    }
  }

  method MatchKeywords(id: string, cfg: KeywordsConfig, leaf: Leaf)
    returns (findings: seq<Finding>, replacements: seq<Replacement>)
    ensures Reports(findings, replacements, KeywordHits(id, cfg, leaf, |cfg.values|))
  {
    findings, replacements := [], [];
    for k := 0 to |cfg.values|
      invariant Reports(findings, replacements, KeywordHits(id, cfg, leaf, k))
    {
      var spans := MatchKeyword(leaf.text, cfg.values[k], cfg.caseSensitive);
      var f, r := Report(id, cfg.category, cfg.severity, leaf.path, cfg.replacement, spans);
      ReportsConcat(findings, replacements, KeywordHits(id, cfg, leaf, k), f, r,
        SpanHits(id, cfg.category, cfg.severity, leaf.path, DefaultString(cfg.replacement, "<REDACTED>"), spans));
      findings, replacements := findings + f, replacements + r;
    }
  }

  method Report(id: string, category: string, severity: string, path: string, value: string, spans: seq<Span>)
    returns (findings: seq<Finding>, replacements: seq<Replacement>)
    ensures Reports(findings, replacements,
                    SpanHits(id, category, severity, path, DefaultString(value, "<REDACTED>"), spans))
  {
    findings, replacements := [], [];
    for i := 0 to |spans|
      invariant var hits := SpanHits(id, category, severity, path, DefaultString(value, "<REDACTED>"), spans);
                findings == Findings(hits)[..i] && replacements == Items(hits)[..i]
    {
      findings := findings + [Finding(id, category, severity, [Location(path, spans[i].start, spans[i].end)], map[])];
      var replacementValue := value;
      if replacementValue == "" {
        replacementValue := "<REDACTED>";
      }
      replacements := replacements + [Replacement(path, replacementValue, spans[i].start, spans[i].end)];
    }
  }
}
