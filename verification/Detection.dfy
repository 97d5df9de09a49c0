/** What each kind of detector reports, in terms of the matches in each string and nothing else. */
module Detection {
  import opened Content
  import opened Splicing
  import opened Redaction
  import opened Keywords
  import opened Policy
  import opened Detectors
  import opened DetectorFacts

  /** A finding and the replacement with the same index. */
  ghost predicate Reported(d: Detector, sc: Scanner, c: Content, f: Finding, r: Replacement)
    requires Sound(sc)
  {
    var (findings, replacements) := Detected(d, sc, c);
    exists i :: 0 <= i < |findings| && i < |replacements| && findings[i] == f && replacements[i] == r
  }

  /** The finding and the replacement point at this span of this leaf. */
  predicate PointAt(f: Finding, r: Replacement, leaf: Leaf, span: Span) {
    f.locations == [Location(leaf.path, span.start, span.end)] &&
    r.path == leaf.path && r.start == span.start && r.end == span.end
  }

  lemma ReportedHits(d: Detector, sc: Scanner, c: Content, f: Finding, r: Replacement)
    requires Sound(sc) && !Spanless(d)
    ensures Reported(d, sc, c, f, r) <==> Hit(f, r) in Hits(d, sc, c)
  {
    hide Hits, Sound;
    var hits := Hits(d, sc, c);
    var findings, replacements := Findings(hits), Items(hits);
    assert Detected(d, sc, c) == (findings, replacements);
    if Hit(f, r) in hits {
      var i :| 0 <= i < |hits| && hits[i] == Hit(f, r);
      assert findings[i] == f && replacements[i] == r;
    }
    if i :| 0 <= i < |findings| && findings[i] == f && replacements[i] == r {
      assert hits[i] == Hit(f, r);
    }
  }

  lemma {:induction false} InHitsByLeaf(d: Detector, sc: Scanner, leaves: seq<Leaf>, h: Hit)
    requires Sound(sc)
    ensures h in HitsByLeaf(d, sc, leaves) <==> exists leaf :: leaf in leaves && h in LeafHits(d, sc, leaf)
  {
    hide LeafHits, Sound;
    if leaves != [] {
      var last := |leaves| - 1;
      InHitsByLeaf(d, sc, leaves[..last], h);
      assert leaves == leaves[..last] + [leaves[last]];
    }
  }

  lemma ReportedInLeaf(d: Detector, sc: Scanner, c: Content, f: Finding, r: Replacement)
    requires Sound(sc) && !Spanless(d)
    ensures Reported(d, sc, c, f, r) <==> exists leaf :: leaf in Visited(d, c) && Hit(f, r) in LeafHits(d, sc, leaf)
  {
    hide Reported, Hits, HitsByLeaf, LeafHits, Visited, Sound;
    ReportedHits(d, sc, c, f, r);
    HitsAreByLeaf(d, sc, c);
    InHitsByLeaf(d, sc, Visited(d, c), Hit(f, r));
  }

  // ----- Patterns -----

  /** The hit is the one a pattern detector has to report for a match. */
  ghost predicate PatternHit(d: Detector, sc: Scanner, leaf: Leaf, f: Finding, r: Replacement)
    requires d.regex.Some?
  {
    var cfg := d.regex.value;
    && (exists span :: span in sc.matches(cfg.pattern, leaf.text) && PointAt(f, r, leaf, span))
    && f.detectorID == d.id && f.category == cfg.category && f.severity == cfg.severity && f.attributes == map[]
    && r.value == (if cfg.replacement == "" then "<REDACTED>" else cfg.replacement)
  }

  lemma InSpanHits(id: string, category: string, severity: string, path: string, value: string, spans: seq<Span>,
                   f: Finding, r: Replacement)
    ensures Hit(f, r) in SpanHits(id, category, severity, path, value, spans) <==>
            ((exists span :: span in spans && PointAt(f, r, Leaf(path, ""), span)) && f.detectorID == id &&
             f.category == category && f.severity == severity && f.attributes == map[] && r.value == value)
  {
    var hits := SpanHits(id, category, severity, path, value, spans);
    if Hit(f, r) in hits {
      var i :| 0 <= i < |hits| && hits[i] == Hit(f, r);
      assert spans[i] in spans && PointAt(f, r, Leaf(path, ""), spans[i]);
    }
    if span :| span in spans && PointAt(f, r, Leaf(path, ""), span) {
      var i :| 0 <= i < |spans| && spans[i] == span;
      assert hits[i] == TextHit(id, category, severity, path, value, spans[i]);
    }
  }

  lemma PointsAnywhere(f: Finding, r: Replacement, leaf: Leaf, spans: seq<Span>)
    ensures (exists span :: span in spans && PointAt(f, r, Leaf(leaf.path, ""), span))
       <==> exists span :: span in spans && PointAt(f, r, leaf, span)
  {
    if span :| span in spans && PointAt(f, r, Leaf(leaf.path, ""), span) { assert PointAt(f, r, leaf, span); }
    if span :| span in spans && PointAt(f, r, leaf, span) { assert PointAt(f, r, Leaf(leaf.path, ""), span); }
  }

  /**
   A pattern detector reports exactly the matches of its pattern in the text and the messages: one finding and,
   at the same index, one replacement for each match, with the configured category, severity and placeholder.
   */
  lemma PatternsReported(d: Detector, sc: Scanner, c: Content, f: Finding, r: Replacement)
    requires Sound(sc) && CountConfigured(d) == 1 && d.regex.Some?
    ensures Reported(d, sc, c, f, r) <==> exists leaf :: leaf in TextLeaves(c) && PatternHit(d, sc, leaf, f, r)
  {
    hide Reported, TextLeaves, LeafHits, PatternHit, Sound;
    ReportedInLeaf(d, sc, c, f, r);
    forall leaf ensures Hit(f, r) in LeafHits(d, sc, leaf) <==> PatternHit(d, sc, leaf, f, r) {
      PatternInLeaf(d, sc, leaf, f, r);
    }
  }

  lemma PatternInLeaf(d: Detector, sc: Scanner, leaf: Leaf, f: Finding, r: Replacement)
    requires Sound(sc) && CountConfigured(d) == 1 && d.regex.Some?
    ensures Hit(f, r) in LeafHits(d, sc, leaf) <==> PatternHit(d, sc, leaf, f, r)
  {
    hide SpanHits, PointAt, Sound;
    var cfg := d.regex.value;
    InSpanHits(d.id, cfg.category, cfg.severity, leaf.path, DefaultString(cfg.replacement, "<REDACTED>"),
               sc.matches(cfg.pattern, leaf.text), f, r);
    PointsAnywhere(f, r, leaf, sc.matches(cfg.pattern, leaf.text));
  }

  lemma LeafItems(d: Detector, sc: Scanner, c: Content, l: nat)
    requires Sound(sc) && !Spanless(d) && d.secrets.None? && l < |TextLeaves(c)|
    ensures Recorded(Detected(d, sc, c).1, TextLeaves(c)[l].path) == Items(TextHits(d, sc, TextLeaves(c)[l]))
  {
    hide TextLeaves, TextHits, Detected, Items, Recorded, Sound;
    VisitedAreLeaves(d, c, l);
    DetectedForLeaf(d, sc, c, l);
  }

  /** And once each, in the order of the matches: a string's replacements are those of its matches, one by one. */
  lemma PatternsInOrder(d: Detector, sc: Scanner, c: Content, l: nat)
    requires Sound(sc) && CountConfigured(d) == 1 && d.regex.Some? && l < |TextLeaves(c)|
    ensures var cfg, leaf := d.regex.value, TextLeaves(c)[l];
            var value := if cfg.replacement == "" then "<REDACTED>" else cfg.replacement;
            Recorded(Detected(d, sc, c).1, leaf.path) ==
            KeywordItems(leaf.path, value, sc.matches(cfg.pattern, leaf.text))
  {
    hide TextLeaves, Detected, Recorded, Sound;
    LeafItems(d, sc, c, l);
    var cfg, leaf := d.regex.value, TextLeaves(c)[l];
    var value := DefaultString(cfg.replacement, "<REDACTED>");
    SpanItems(d.id, cfg.category, cfg.severity, leaf.path, value, sc.matches(cfg.pattern, leaf.text));
  }

  lemma SpanItems(id: string, category: string, severity: string, path: string, value: string, spans: seq<Span>)
    ensures Items(SpanHits(id, category, severity, path, value, spans)) == KeywordItems(path, value, spans)
  {
  }

  // ----- Keywords -----

  /** The hit is the one a keyword detector has to report for a match of one of its keywords. */
  ghost predicate KeywordHit(d: Detector, leaf: Leaf, f: Finding, r: Replacement)
    requires d.keywords.Some?
  {
    var cfg := d.keywords.value;
    && (exists w :: 0 <= w < |cfg.values| && FoundAt(cfg, cfg.values[w], leaf, f, r))
    && f.detectorID == d.id && f.category == cfg.category && f.severity == cfg.severity && f.attributes == map[]
    && r.value == (if cfg.replacement == "" then "<REDACTED>" else cfg.replacement)
  }

  ghost predicate FoundAt(cfg: KeywordsConfig, keyword: string, leaf: Leaf, f: Finding, r: Replacement) {
    exists span :: span in KeywordSpans(leaf.text, keyword, cfg.caseSensitive) && PointAt(f, r, leaf, span)
  }

  predicate KeywordLabels(id: string, cfg: KeywordsConfig, f: Finding, r: Replacement) {
    && f.detectorID == id && f.category == cfg.category && f.severity == cfg.severity && f.attributes == map[]
    && r.value == (if cfg.replacement == "" then "<REDACTED>" else cfg.replacement)
  }

  lemma KeywordStep(id: string, cfg: KeywordsConfig, leaf: Leaf, keyword: string, f: Finding, r: Replacement)
    ensures Hit(f, r) in SpanHits(id, cfg.category, cfg.severity, leaf.path,
                                  DefaultString(cfg.replacement, "<REDACTED>"),
                                  KeywordSpans(leaf.text, keyword, cfg.caseSensitive))
       <==> FoundAt(cfg, keyword, leaf, f, r) && KeywordLabels(id, cfg, f, r)
  {
    hide SpanHits, PointAt, KeywordSpans;
    var spans := KeywordSpans(leaf.text, keyword, cfg.caseSensitive);
    InSpanHits(id, cfg.category, cfg.severity, leaf.path, DefaultString(cfg.replacement, "<REDACTED>"), spans, f, r);
    PointsAnywhere(f, r, leaf, spans);
  }

  lemma {:induction false} InKeywordHits(id: string, cfg: KeywordsConfig, leaf: Leaf, count: nat,
                                         f: Finding, r: Replacement)
    requires count <= |cfg.values|
    ensures Hit(f, r) in KeywordHits(id, cfg, leaf, count) <==>
            ((exists w :: 0 <= w < count && FoundAt(cfg, cfg.values[w], leaf, f, r)) && KeywordLabels(id, cfg, f, r))
  {
    hide SpanHits, FoundAt, KeywordLabels, KeywordSpans, DefaultString;
    if count > 0 {
      InKeywordHits(id, cfg, leaf, count - 1, f, r);
      KeywordStep(id, cfg, leaf, cfg.values[count - 1], f, r);
    }
  }

  /**
   A keyword detector reports exactly the spans of its keywords in the text and the messages, with the
   configured category, severity and placeholder.
   */
  lemma KeywordsReported(d: Detector, sc: Scanner, c: Content, f: Finding, r: Replacement)
    requires Sound(sc) && CountConfigured(d) == 1 && d.keywords.Some?
    ensures Reported(d, sc, c, f, r) <==> exists leaf :: leaf in TextLeaves(c) && KeywordHit(d, leaf, f, r)
  {
    hide Reported, TextLeaves, LeafHits, KeywordHit, Sound;
    ReportedInLeaf(d, sc, c, f, r);
    forall leaf ensures Hit(f, r) in LeafHits(d, sc, leaf) <==> KeywordHit(d, leaf, f, r) {
      KeywordInLeaf(d, sc, leaf, f, r);
    }
  }

  lemma KeywordInLeaf(d: Detector, sc: Scanner, leaf: Leaf, f: Finding, r: Replacement)
    requires Sound(sc) && CountConfigured(d) == 1 && d.keywords.Some?
    ensures Hit(f, r) in LeafHits(d, sc, leaf) <==> KeywordHit(d, leaf, f, r)
  {
    hide KeywordHits, FoundAt, Sound;
    var cfg := d.keywords.value;
    InKeywordHits(d.id, cfg, leaf, |cfg.values|, f, r);
  }

  /** How many spans the first `count` keywords have in a text. */
  function SpanCount(cfg: KeywordsConfig, text: string, count: nat): nat
    requires count <= |cfg.values|
  {
    if count == 0 then 0
    else SpanCount(cfg, text, count - 1) + |KeywordSpans(text, cfg.values[count - 1], cfg.caseSensitive)|
  }

  lemma {:induction false} KeywordHitCount(id: string, cfg: KeywordsConfig, leaf: Leaf, count: nat)
    requires count <= |cfg.values|
    ensures |KeywordHits(id, cfg, leaf, count)| == SpanCount(cfg, leaf.text, count)
  {
    hide KeywordSpans;
    if count > 0 { KeywordHitCount(id, cfg, leaf, count - 1); }
  }

  /** And once each: a string gets as many replacements as its keywords have spans in it. */
  lemma KeywordsCounted(d: Detector, sc: Scanner, c: Content, l: nat)
    requires Sound(sc) && CountConfigured(d) == 1 && d.keywords.Some? && l < |TextLeaves(c)|
    ensures var cfg, leaf := d.keywords.value, TextLeaves(c)[l];
            |Recorded(Detected(d, sc, c).1, leaf.path)| == SpanCount(cfg, leaf.text, |cfg.values|)
  {
    hide TextLeaves, Detected, Recorded, Sound, KeywordHits;
    LeafItems(d, sc, c, l);
    KeywordHitCount(d.id, d.keywords.value, TextLeaves(c)[l], |d.keywords.value.values|);
  }

  // ----- Secrets -----

  /** The kinds of secrets in the order in which they are looked for; the last needs an assignment. */
  function TypeOf(rank: nat): string {
    match rank
    case 0 => "pem_private_key"
    case 1 => "authorization"
    case 2 => "connection_string"
    case 3 => "known_token"
    case _ => "contextual_high_entropy"
  }

  function PatternOf(rank: nat): string {
    match rank
    case 0 => "pem-private-key"
    case 1 => "authorization-header"
    case 2 => "uri-userinfo"
    case 3 => "known-token-prefix"
    case _ => "contextual-entropy"
  }

  /** A span is a secret of a kind that is looked for. */
  ghost predicate Recognised(cfg: SecretsConfig, sc: Scanner, text: string, rank: nat, span: Span) {
    && rank <= 4 && (cfg.types == [] || TypeOf(rank) in cfg.types)
    && (if rank < 4 then span in sc.secretMatches(rank, text)
        else
          && span in sc.contextualMatches(text) && span.start <= span.end <= |text|
          && span.end - span.start >= (if cfg.minEntropyLength == 0 then 20 else cfg.minEntropyLength)
          && sc.entropy(text[span.start..span.end]) >= (if cfg.minEntropy == 0.0 then 4.0 else cfg.minEntropy))
  }

  /** It is, and of no kind looked for earlier. */
  ghost predicate RecognisedFirst(cfg: SecretsConfig, sc: Scanner, text: string, rank: nat, span: Span) {
    Recognised(cfg, sc, text, rank, span) &&
    forall earlier: nat :: earlier < rank ==> !Recognised(cfg, sc, text, earlier, span)
  }

  /** The hit is the one a secret detector has to report for a secret. */
  ghost predicate SecretHitIn(d: Detector, sc: Scanner, leaf: Leaf, f: Finding, r: Replacement)
    requires d.secrets.Some?
  {
    exists rank: nat, span :: RecognisedFirst(d.secrets.value, sc, leaf.text, rank, span) &&
      PointAt(f, r, leaf, span) && SecretLabels(d, rank, f, r)
  }

  ghost predicate SecretLabels(d: Detector, rank: nat, f: Finding, r: Replacement)
    requires d.secrets.Some?
  {
    var cfg := d.secrets.value;
    && f.detectorID == d.id && f.severity == cfg.severity
    && f.category == (if cfg.categoryPrefix == "" then "secret" else cfg.categoryPrefix) + "." + TypeOf(rank)
    && f.attributes == map["secret_type" := TypeOf(rank), "pattern_id" := PatternOf(rank)]
    && r.value == (if cfg.replacement == "" then "<SECRET>" else cfg.replacement)
  }

  function CandidateAt(leaf: Leaf, rank: nat, span: Span): Candidate {
    Candidate(leaf.path, TypeOf(rank), PatternOf(rank), span.start, span.end)
  }

  /** What the kind of a rank offers in a leaf. */
  function OfferedBy(cfg: SecretsConfig, sc: Scanner, leaf: Leaf, rank: nat): seq<Candidate>
    requires Sound(sc)
  {
    if rank < 4 then
      if Enabled(cfg, TypeOf(rank))
      then SpanCandidates(leaf.path, TypeOf(rank), PatternOf(rank), sc.secretMatches(rank, leaf.text)) else []
    else ContextCandidates(cfg, sc, leaf)
  }

  function OfferedUpTo(cfg: SecretsConfig, sc: Scanner, leaf: Leaf, count: nat): seq<Candidate>
    requires Sound(sc)
  {
    if count == 0 then [] else OfferedUpTo(cfg, sc, leaf, count - 1) + OfferedBy(cfg, sc, leaf, count - 1)
  }

  lemma {:induction false} PatternsOffered(cfg: SecretsConfig, sc: Scanner, leaf: Leaf, count: nat)
    requires Sound(sc) && count <= 4
    ensures PatternCandidates(cfg, sc, leaf, SECRET_PATTERNS[..count]) == OfferedUpTo(cfg, sc, leaf, count)
  {
    hide Enabled, SpanCandidates, Sound;
    if count > 0 {
      PatternsOffered(cfg, sc, leaf, count - 1);
      var typ, id := TypeOf(count - 1), PatternOf(count - 1);
      assert SECRET_PATTERNS[count - 1] == (typ, id);
      assert SECRET_PATTERNS[..count] == SECRET_PATTERNS[..count - 1] + [(typ, id)];
      PatternsLast(cfg, sc, leaf, SECRET_PATTERNS[..count - 1], typ, id);
    }
  }

  lemma LeafOffered(cfg: SecretsConfig, sc: Scanner, leaf: Leaf)
    requires Sound(sc)
    ensures LeafCandidates(cfg, sc, leaf) == OfferedUpTo(cfg, sc, leaf, 5)
  {
    hide PatternCandidates, ContextCandidates, Sound;
    PatternsOffered(cfg, sc, leaf, 4);
    assert SECRET_PATTERNS[..4] == SECRET_PATTERNS;
  }

  lemma InSpanCandidates(path: string, typ: string, id: string, spans: seq<Span>, x: Candidate)
    ensures x in SpanCandidates(path, typ, id, spans)
       <==> exists span :: span in spans && x == Candidate(path, typ, id, span.start, span.end)
  {
    var all := SpanCandidates(path, typ, id, spans);
    if x in all {
      var i :| 0 <= i < |all| && all[i] == x;
      assert spans[i] in spans;
    }
    if span :| span in spans && x == Candidate(path, typ, id, span.start, span.end) {
      var i :| 0 <= i < |spans| && spans[i] == span;
      assert all[i] == x;
    }
  }

  lemma OneSpanCandidate(leaf: Leaf, span: Span)
    ensures SpanCandidates(leaf.path, "contextual_high_entropy", "contextual-entropy", [span])
         == [CandidateAt(leaf, 4, span)]
  {
  }

  lemma {:induction false} InContextual(cfg: SecretsConfig, sc: Scanner, leaf: Leaf, spans: seq<Span>, x: Candidate)
    requires SpansIn(spans, |leaf.text|)
    ensures x in ContextualCandidates(cfg, sc, leaf, spans) <==>
            exists span :: span in spans && HighEntropy(cfg, sc, leaf.text, span) && x == CandidateAt(leaf, 4, span)
  {
    if spans == [] {
      assert ContextualCandidates(cfg, sc, leaf, spans) == [];
    } else {
      hide HighEntropy, ContextualCandidates, SpanCandidates, CandidateAt;
      var before, last := spans[..|spans| - 1], spans[|spans| - 1];
      assert spans == before + [last];
      ContextualLast(cfg, sc, leaf, before, last);
      OneSpanCandidate(leaf, last);
      InContextual(cfg, sc, leaf, before, x);
    }
  }

  lemma InOfferedPattern(cfg: SecretsConfig, sc: Scanner, leaf: Leaf, rank: nat, x: Candidate)
    requires Sound(sc) && rank < 4
    ensures x in OfferedBy(cfg, sc, leaf, rank)
       <==> exists span :: Recognised(cfg, sc, leaf.text, rank, span) && x == CandidateAt(leaf, rank, span)
  {
    RecognisedByPattern(cfg, sc, leaf.text, rank);
    hide SpanCandidates, Recognised, Enabled, Sound;
    InSpanCandidates(leaf.path, TypeOf(rank), PatternOf(rank), sc.secretMatches(rank, leaf.text), x);
  }

  lemma RecognisedByPattern(cfg: SecretsConfig, sc: Scanner, text: string, rank: nat)
    requires rank < 4
    ensures forall span :: Recognised(cfg, sc, text, rank, span)
                      <==> Enabled(cfg, TypeOf(rank)) && span in sc.secretMatches(rank, text)
  {
  }

  lemma HighEntropyRecognised(cfg: SecretsConfig, sc: Scanner, text: string, span: Span)
    requires Enabled(cfg, "contextual_high_entropy") && span in sc.contextualMatches(text)
    requires span.start <= span.end <= |text|
    ensures HighEntropy(cfg, sc, text, span) <==> Recognised(cfg, sc, text, 4, span)
  {
  }

  lemma InOfferedContext(cfg: SecretsConfig, sc: Scanner, leaf: Leaf, x: Candidate)
    requires Sound(sc)
    ensures x in OfferedBy(cfg, sc, leaf, 4)
       <==> exists span :: Recognised(cfg, sc, leaf.text, 4, span) && x == CandidateAt(leaf, 4, span)
  {
    var spans := sc.contextualMatches(leaf.text);
    assert SpansIn(spans, |leaf.text|);
    RecognisedInContext(cfg, sc, leaf.text);
    hide Sound, ContextualCandidates, HighEntropy, Recognised, CandidateAt;
    if Enabled(cfg, "contextual_high_entropy") {
      InContextual(cfg, sc, leaf, spans, x);
      forall span | span in spans
        ensures HighEntropy(cfg, sc, leaf.text, span) <==> Recognised(cfg, sc, leaf.text, 4, span)
      {
        HighEntropyRecognised(cfg, sc, leaf.text, span);
      }
    }
  }

  lemma RecognisedInContext(cfg: SecretsConfig, sc: Scanner, text: string)
    ensures forall span :: Recognised(cfg, sc, text, 4, span) ==>
              Enabled(cfg, "contextual_high_entropy") && span in sc.contextualMatches(text)
  {
  }

  lemma InOffered(cfg: SecretsConfig, sc: Scanner, leaf: Leaf, rank: nat, x: Candidate)
    requires Sound(sc) && rank <= 4
    ensures x in OfferedBy(cfg, sc, leaf, rank)
       <==> exists span :: Recognised(cfg, sc, leaf.text, rank, span) && x == CandidateAt(leaf, rank, span)
  {
    hide OfferedBy, Recognised, CandidateAt, Sound;
    if rank < 4 { InOfferedPattern(cfg, sc, leaf, rank, x); } else { InOfferedContext(cfg, sc, leaf, x); }
  }

  // The first candidate at a place, through concatenation.

  lemma {:induction false} InFirstConcat(a: seq<Candidate>, b: seq<Candidate>, x: Candidate)
    ensures x in FirstAtEachPlace(a + b)
       <==> x in FirstAtEachPlace(a) || (x in FirstAtEachPlace(b) && !PlaceTaken(a, x))
  {
    hide SamePlace;
    if b == [] {
      assert a + b == a;
    } else {
      var last := |b| - 1;
      var all := a + b;
      assert all[..|all| - 1] == a + b[..last] && all[|all| - 1] == b[last];
      InFirstConcat(a, b[..last], x);
      assert PlaceTaken(a + b[..last], b[last]) <==> PlaceTaken(a, b[last]) || PlaceTaken(b[..last], b[last]);
      FirstStep(all);
      FirstStep(b);
    }
  }

  lemma InFirstOfOneKind(c: seq<Candidate>, x: Candidate)
    requires forall y, z :: y in c && z in c && SamePlace(y, z) ==> y == z
    ensures x in FirstAtEachPlace(c) <==> x in c
  {
    FirstAreCandidates(c);
    if x in c {
      FirstComplete(c, x);
      var y :| y in FirstAtEachPlace(c) && SamePlace(x, y);
    }
  }

  lemma OfferedAreOneKind(cfg: SecretsConfig, sc: Scanner, leaf: Leaf, rank: nat)
    requires Sound(sc) && rank <= 4
    ensures forall y, z ::
              y in OfferedBy(cfg, sc, leaf, rank) && z in OfferedBy(cfg, sc, leaf, rank) && SamePlace(y, z) ==> y == z
  {
    hide OfferedBy, Recognised, Sound;
    forall y, z | y in OfferedBy(cfg, sc, leaf, rank) && z in OfferedBy(cfg, sc, leaf, rank) && SamePlace(y, z)
      ensures y == z
    {
      InOffered(cfg, sc, leaf, rank, y);
      InOffered(cfg, sc, leaf, rank, z);
    }
  }

  /** Some kind before `count` recognises this place. */
  ghost predicate PlaceRecognised(cfg: SecretsConfig, sc: Scanner, leaf: Leaf, count: nat, x: Candidate) {
    exists rank: nat, span :: rank < count && Recognised(cfg, sc, leaf.text, rank, span) &&
      SamePlace(x, CandidateAt(leaf, rank, span))
  }

  lemma {:induction false} OfferedTakes(cfg: SecretsConfig, sc: Scanner, leaf: Leaf, count: nat, x: Candidate)
    requires Sound(sc) && count <= 5
    ensures PlaceTaken(OfferedUpTo(cfg, sc, leaf, count), x) <==> PlaceRecognised(cfg, sc, leaf, count, x)
  {
    hide OfferedBy, Recognised, SamePlace, CandidateAt, Sound;
    if count > 0 {
      var before, own := OfferedUpTo(cfg, sc, leaf, count - 1), OfferedBy(cfg, sc, leaf, count - 1);
      OfferedTakes(cfg, sc, leaf, count - 1, x);
      var last := count - 1;
      forall y
        ensures y in own
           <==> exists span :: Recognised(cfg, sc, leaf.text, last, span) && y == CandidateAt(leaf, last, span)
      {
        InOffered(cfg, sc, leaf, last, y);
      }
      assert PlaceTaken(before + own, x) <==> PlaceTaken(before, x) || PlaceTaken(own, x);
      if PlaceTaken(own, x) {
        var y :| y in own && SamePlace(x, y);
      }
      if rank: nat, span :| rank < count && Recognised(cfg, sc, leaf.text, rank, span) &&
                            SamePlace(x, CandidateAt(leaf, rank, span)) {
        if rank == count - 1 {
          assert CandidateAt(leaf, rank, span) in own;
        } else {
          assert PlaceRecognised(cfg, sc, leaf, count - 1, x);
        }
      }
    }
  }

  /** The candidate is that of a span recognised by a kind before `count` and by no earlier one. */
  ghost predicate FirstRecognised(cfg: SecretsConfig, sc: Scanner, leaf: Leaf, count: nat, x: Candidate) {
    exists rank: nat, span :: rank < count && RecognisedFirst(cfg, sc, leaf.text, rank, span) &&
      x == CandidateAt(leaf, rank, span)
  }

  lemma EarlierTakes(cfg: SecretsConfig, sc: Scanner, leaf: Leaf, rank: nat, span: Span)
    requires Sound(sc) && rank <= 4 && Recognised(cfg, sc, leaf.text, rank, span)
    ensures PlaceTaken(OfferedUpTo(cfg, sc, leaf, rank), CandidateAt(leaf, rank, span))
       <==> !RecognisedFirst(cfg, sc, leaf.text, rank, span)
  {
    hide OfferedUpTo, Recognised, PlaceTaken, Sound;
    var x := CandidateAt(leaf, rank, span);
    OfferedTakes(cfg, sc, leaf, rank, x);
    if earlier: nat, other :| earlier < rank && Recognised(cfg, sc, leaf.text, earlier, other) &&
                              SamePlace(x, CandidateAt(leaf, earlier, other)) {
      assert other == span;
    }
    if earlier: nat :| earlier < rank && Recognised(cfg, sc, leaf.text, earlier, span) {
      assert SamePlace(x, CandidateAt(leaf, earlier, span));
    }
  }

  lemma {:induction false} InFirstOffered(cfg: SecretsConfig, sc: Scanner, leaf: Leaf, count: nat, x: Candidate)
    requires Sound(sc) && count <= 5
    ensures x in FirstAtEachPlace(OfferedUpTo(cfg, sc, leaf, count)) <==> FirstRecognised(cfg, sc, leaf, count, x)
  {
    hide OfferedBy, Recognised, RecognisedFirst, CandidateAt, FirstAtEachPlace, PlaceTaken, Sound;
    if count == 0 {
      assert OfferedUpTo(cfg, sc, leaf, 0) == [];
      NoCandidateFirst(x);
    } else {
      var before, own, rank := OfferedUpTo(cfg, sc, leaf, count - 1), OfferedBy(cfg, sc, leaf, count - 1), count - 1;
      InFirstOffered(cfg, sc, leaf, rank, x);
      InFirstConcat(before, own, x);
      OfferedAreOneKind(cfg, sc, leaf, rank);
      InFirstOfOneKind(own, x);
      InOffered(cfg, sc, leaf, rank, x);
      if span :| Recognised(cfg, sc, leaf.text, rank, span) && x == CandidateAt(leaf, rank, span) {
        EarlierTakes(cfg, sc, leaf, rank, span);
      }
      if span :| RecognisedFirst(cfg, sc, leaf.text, rank, span) && x == CandidateAt(leaf, rank, span) {
        FirstIsRecognised(cfg, sc, leaf.text, rank, span);
        EarlierTakes(cfg, sc, leaf, rank, span);
      }
    }
  }

  lemma NoCandidateFirst(x: Candidate)
    ensures x !in FirstAtEachPlace([])
  {
  }

  lemma FirstIsRecognised(cfg: SecretsConfig, sc: Scanner, text: string, rank: nat, span: Span)
    requires RecognisedFirst(cfg, sc, text, rank, span)
    ensures Recognised(cfg, sc, text, rank, span)
  {
  }

  lemma InSecretHits(d: Detector, cfg: SecretsConfig, c: seq<Candidate>, h: Hit)
    ensures h in SecretHits(d, cfg, c) <==> exists x :: x in c && h == SecretHit(d, cfg, x)
  {
    hide SecretHit;
    var all := SecretHits(d, cfg, c);
    if h in all {
      var i :| 0 <= i < |all| && all[i] == h;
      assert c[i] in c;
    }
    if x :| x in c && h == SecretHit(d, cfg, x) {
      var i :| 0 <= i < |c| && c[i] == x;
      assert all[i] == h;
    }
  }

  lemma HitOfCandidate(d: Detector, leaf: Leaf, rank: nat, span: Span, f: Finding, r: Replacement)
    requires d.secrets.Some?
    ensures Hit(f, r) == SecretHit(d, d.secrets.value, CandidateAt(leaf, rank, span))
       <==> PointAt(f, r, leaf, span) && SecretLabels(d, rank, f, r)
  {
    hide TypeOf, PatternOf;
    var cfg := d.secrets.value;
    assert DefaultString(cfg.categoryPrefix, "secret") + "." + TypeOf(rank)
        == (if cfg.categoryPrefix == "" then "secret" else cfg.categoryPrefix) + "." + TypeOf(rank);
  }

  lemma SecretInLeaf(d: Detector, sc: Scanner, leaf: Leaf, f: Finding, r: Replacement)
    requires Sound(sc) && CountConfigured(d) == 1 && d.secrets.Some?
    ensures Hit(f, r) in LeafHits(d, sc, leaf) <==> SecretHitIn(d, sc, leaf, f, r)
  {
    hide LeafCandidates, OfferedUpTo, FirstAtEachPlace, SecretHits, SecretHit, RecognisedFirst, CandidateAt, PointAt;
    hide SecretLabels, Sound;
    var cfg := d.secrets.value;
    LeafOffered(cfg, sc, leaf);
    var first := FirstAtEachPlace(OfferedUpTo(cfg, sc, leaf, 5));
    InSecretHits(d, cfg, first, Hit(f, r));
    if x :| x in first && Hit(f, r) == SecretHit(d, cfg, x) {
      InFirstOffered(cfg, sc, leaf, 5, x);
      var rank: nat, span :| rank < 5 && RecognisedFirst(cfg, sc, leaf.text, rank, span) &&
                             x == CandidateAt(leaf, rank, span);
      HitOfCandidate(d, leaf, rank, span, f, r);
    }
    if rank: nat, span :| RecognisedFirst(cfg, sc, leaf.text, rank, span) && PointAt(f, r, leaf, span) &&
                          SecretLabels(d, rank, f, r) {
      RankInRange(cfg, sc, leaf.text, rank, span);
      InFirstOffered(cfg, sc, leaf, 5, CandidateAt(leaf, rank, span));
      HitOfCandidate(d, leaf, rank, span, f, r);
    }
  }

  lemma RankInRange(cfg: SecretsConfig, sc: Scanner, text: string, rank: nat, span: Span)
    requires RecognisedFirst(cfg, sc, text, rank, span)
    ensures rank <= 4
  {
  }

  /**
   A secret detector reports exactly the secrets of the kinds it looks for, in text, messages and data: one
   finding and, at the same index, one replacement for each place, labelled with the first kind that
   recognises it, with the configured prefix, severity and placeholder and the documented entropy defaults.
   */
  lemma SecretsReported(d: Detector, sc: Scanner, c: Content, f: Finding, r: Replacement)
    requires Sound(sc) && CountConfigured(d) == 1 && d.secrets.Some?
    ensures Reported(d, sc, c, f, r) <==> exists leaf :: leaf in StringLeaves(c) && SecretHitIn(d, sc, leaf, f, r)
  {
    hide Reported, StringLeaves, LeafHits, SecretHitIn, Sound;
    ReportedInLeaf(d, sc, c, f, r);
    forall leaf ensures Hit(f, r) in LeafHits(d, sc, leaf) <==> SecretHitIn(d, sc, leaf, f, r) {
      SecretInLeaf(d, sc, leaf, f, r);
    }
  }

  /** A detector of request limits, allow and deny lists or a schema reports what it finds and replaces nothing. */
  lemma SpanlessReported(d: Detector, sc: Scanner, c: Content)
    requires Sound(sc) && CountConfigured(d) == 1 && d.regex.None? && d.keywords.None? && d.secrets.None?
    ensures Detected(d, sc, c) == (sc.spanless(d, c), [])
  {
  }
}
