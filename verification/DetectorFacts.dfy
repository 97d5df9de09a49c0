/** What every detector's findings and replacements are worth to the redaction engine. */
module DetectorFacts {
  import opened Content
  import opened Splicing
  import opened Redaction
  import opened Keywords
  import opened Policy
  import opened Detectors

  /** The leaves a detector looks at. */
  ghost function Visited(d: Detector, c: Content): seq<Leaf> {
    if d.secrets.Some? then StringLeaves(c) else TextLeaves(c)
  }

  /** What a detector finds in one leaf, seen on its own. */
  ghost function LeafHits(d: Detector, sc: Scanner, leaf: Leaf): seq<Hit>
    requires Sound(sc)
  {
    if d.secrets.Some? then
      SecretHits(d, d.secrets.value, FirstAtEachPlace(LeafCandidates(d.secrets.value, sc, leaf)))
    else TextHits(d, sc, leaf)
  }

  ghost function HitsByLeaf(d: Detector, sc: Scanner, leaves: seq<Leaf>): seq<Hit>
    requires Sound(sc)
  {
    if leaves == [] then []
    else HitsByLeaf(d, sc, leaves[..|leaves| - 1]) + LeafHits(d, sc, leaves[|leaves| - 1])
  }

  /** A hit in a leaf: its finding points at the span its non-empty replacement is for. */
  ghost predicate HitIn(h: Hit, leaf: Leaf) {
    && h.finding.locations == [Location(h.item.path, h.item.start, h.item.end)]
    && h.item.path == leaf.path
    && 0 <= h.item.start <= h.item.end <= |leaf.text|
    && h.item.value != ""
  }

  ghost predicate HitsIn(hits: seq<Hit>, leaf: Leaf) {
    forall h :: h in hits ==> HitIn(h, leaf)
  }

  // ----- Hits lie in their leaf -----

  lemma SpanHitsIn(id: string, category: string, severity: string, value: string, leaf: Leaf, spans: seq<Span>)
    requires value != "" && SpansIn(spans, |leaf.text|)
    ensures HitsIn(SpanHits(id, category, severity, leaf.path, value, spans), leaf)
  {
    var hits := SpanHits(id, category, severity, leaf.path, value, spans);
    forall i | 0 <= i < |hits| ensures HitIn(hits[i], leaf) { assert spans[i] in spans; }
  }

  lemma {:induction false} ApartIn(spans: seq<Span>, from: nat, n: nat)
    requires Apart(spans, from, n)
    ensures from <= n && SpansIn(spans, n)
  {
    if spans != [] { ApartIn(spans[1..], spans[0].end, n); }
  }

  lemma {:induction false} KeywordHitsIn(id: string, cfg: KeywordsConfig, leaf: Leaf, count: nat)
    requires count <= |cfg.values|
    ensures HitsIn(KeywordHits(id, cfg, leaf, count), leaf)
  {
    hide SpanHits, KeywordSpans, HitIn;
    if count > 0 {
      KeywordHitsIn(id, cfg, leaf, count - 1);
      var spans := KeywordSpans(leaf.text, cfg.values[count - 1], cfg.caseSensitive);
      KeywordSpansIn(leaf.text, cfg.values[count - 1], cfg.caseSensitive);
      SpanHitsIn(id, cfg.category, cfg.severity, DefaultString(cfg.replacement, "<REDACTED>"), leaf, spans);
    }
  }

  lemma KeywordSpansIn(text: string, keyword: string, caseSensitive: bool)
    ensures SpansIn(KeywordSpans(text, keyword, caseSensitive), |text|)
  {
    if keyword != "" {
      MatchesAreExact(text, keyword, caseSensitive);
      ApartIn(KeywordSpans(text, keyword, caseSensitive), 0, |text|);
    }
  }

  ghost predicate CandidatesIn(c: seq<Candidate>, leaf: Leaf) {
    forall x :: x in c ==> x.path == leaf.path && 0 <= x.start <= x.end <= |leaf.text|
  }

  lemma SpanCandidatesIn(leaf: Leaf, typ: string, id: string, spans: seq<Span>)
    requires SpansIn(spans, |leaf.text|)
    ensures CandidatesIn(SpanCandidates(leaf.path, typ, id, spans), leaf)
  {
    var c := SpanCandidates(leaf.path, typ, id, spans);
    forall i | 0 <= i < |c| ensures 0 <= c[i].start <= c[i].end <= |leaf.text| { assert spans[i] in spans; }
  }

  lemma {:induction false} PatternCandidatesIn(cfg: SecretsConfig, sc: Scanner, leaf: Leaf,
                                               patterns: seq<(string, string)>)
    requires Sound(sc)
    ensures CandidatesIn(PatternCandidates(cfg, sc, leaf, patterns), leaf)
  {
    hide Enabled, SpanCandidates;
    if patterns != [] {
      var last := |patterns| - 1;
      PatternCandidatesIn(cfg, sc, leaf, patterns[..last]);
      SpanCandidatesIn(leaf, patterns[last].0, patterns[last].1, sc.secretMatches(last, leaf.text));
    }
  }

  lemma {:induction false} ContextualCandidatesIn(cfg: SecretsConfig, sc: Scanner, leaf: Leaf, spans: seq<Span>)
    requires SpansIn(spans, |leaf.text|)
    ensures CandidatesIn(ContextualCandidates(cfg, sc, leaf, spans), leaf)
  {
    hide HighEntropy, SpanCandidates;
    if spans != [] {
      var last := |spans| - 1;
      assert SpansIn(spans[..last], |leaf.text|) && spans[last] in spans;
      ContextualCandidatesIn(cfg, sc, leaf, spans[..last]);
      SpanCandidatesIn(leaf, "contextual_high_entropy", "contextual-entropy", [spans[last]]);
    }
  }

  lemma LeafCandidatesIn(cfg: SecretsConfig, sc: Scanner, leaf: Leaf)
    requires Sound(sc)
    ensures CandidatesIn(LeafCandidates(cfg, sc, leaf), leaf)
  {
    hide PatternCandidates, ContextualCandidates, Enabled;
    PatternCandidatesIn(cfg, sc, leaf, SECRET_PATTERNS);
    ContextualCandidatesIn(cfg, sc, leaf, sc.contextualMatches(leaf.text));
  }

  lemma {:induction false} FirstAreCandidates(c: seq<Candidate>)
    ensures forall x :: x in FirstAtEachPlace(c) ==> x in c
  {
    if c != [] {
      var last := |c| - 1;
      FirstAreCandidates(c[..last]);
      assert c == c[..last] + [c[last]];
    }
  }

  lemma LeafHitsIn(d: Detector, sc: Scanner, leaf: Leaf)
    requires Sound(sc)
    ensures HitsIn(LeafHits(d, sc, leaf), leaf)
  {
    hide LeafCandidates, KeywordHits, SpanHits;
    if d.secrets.Some? {
      var cfg := d.secrets.value;
      var first := FirstAtEachPlace(LeafCandidates(cfg, sc, leaf));
      LeafCandidatesIn(cfg, sc, leaf);
      FirstAreCandidates(LeafCandidates(cfg, sc, leaf));
      forall i | 0 <= i < |first| ensures HitIn(SecretHits(d, cfg, first)[i], leaf) {
        assert first[i] in first;
      }
    } else if d.regex.Some? {
      var cfg := d.regex.value;
      SpanHitsIn(d.id, cfg.category, cfg.severity, DefaultString(cfg.replacement, "<REDACTED>"), leaf,
                 sc.matches(cfg.pattern, leaf.text));
    } else if d.keywords.Some? {
      KeywordHitsIn(d.id, d.keywords.value, leaf, |d.keywords.value.values|);
    }
  }

  // ----- Secrets: one finding per place -----

  lemma {:induction false} FirstComplete(c: seq<Candidate>, x: Candidate)
    requires x in c
    ensures PlaceTaken(FirstAtEachPlace(c), x)
  {
    var last := |c| - 1;
    var before := FirstAtEachPlace(c[..last]);
    if x in c[..last] {
      FirstComplete(c[..last], x);
      var y :| y in before && SamePlace(x, y);
      assert y in FirstAtEachPlace(c);
    } else if PlaceTaken(c[..last], x) {
      var y :| y in c[..last] && SamePlace(x, y);
      FirstComplete(c[..last], y);
      var z :| z in before && SamePlace(y, z);
      assert z in FirstAtEachPlace(c) && SamePlace(x, z);
    } else {
      assert x in FirstAtEachPlace(c) && SamePlace(x, x);
    }
  }

  lemma {:induction false} FirstDistinct(c: seq<Candidate>, i: nat, j: nat)
    requires i < j < |FirstAtEachPlace(c)|
    ensures !SamePlace(FirstAtEachPlace(c)[i], FirstAtEachPlace(c)[j])
  {
    var last := |c| - 1;
    var before := FirstAtEachPlace(c[..last]);
    if j < |before| {
      FirstDistinct(c[..last], i, j);
    } else {
      FirstAreCandidates(c[..last]);
      assert before[i] in c[..last];
    }
  }

  /** The first candidate at a place is the one reported: earlier patterns win over later ones. */
  lemma {:induction false} EarliestWins(c: seq<Candidate>, i: nat)
    requires i < |c| && !PlaceTaken(c[..i], c[i])
    ensures c[i] in FirstAtEachPlace(c)
  {
    var last := |c| - 1;
    if i < last {
      assert c[..last][..i] == c[..i] && c[..last][i] == c[i];
      EarliestWins(c[..last], i);
    }
  }

  // ----- Leaf by leaf -----

  lemma {:induction false} FirstConcat(a: seq<Candidate>, b: seq<Candidate>)
    requires forall x, y :: x in a && y in b ==> x.path != y.path
    ensures FirstAtEachPlace(a + b) == FirstAtEachPlace(a) + FirstAtEachPlace(b)
  {
    if b == [] {
      assert a + b == a;
    } else {
      var last := |b| - 1;
      var all := a + b;
      assert all[..|all| - 1] == a + b[..last] && all[|all| - 1] == b[last];
      assert b[last] in b && forall y :: y in b[..last] ==> y in b;
      FirstConcat(a, b[..last]);
      assert PlaceTaken(a + b[..last], b[last]) <==> PlaceTaken(b[..last], b[last]);
      FirstStep(all);
      FirstStep(b);
    }
  }

  lemma FirstStep(c: seq<Candidate>)
    requires c != []
    ensures FirstAtEachPlace(c) == FirstAtEachPlace(c[..|c| - 1])
                                 + (if PlaceTaken(c[..|c| - 1], c[|c| - 1]) then [] else [c[|c| - 1]])
  {
  }

  lemma {:induction false} CandidatesOnPaths(cfg: SecretsConfig, sc: Scanner, leaves: seq<Leaf>, x: Candidate)
    requires Sound(sc) && x in CandidatesOver(cfg, sc, leaves)
    ensures exists i :: 0 <= i < |leaves| && leaves[i].path == x.path
  {
    hide LeafCandidates;
    var last := |leaves| - 1;
    LeafCandidatesIn(cfg, sc, leaves[last]);
    if x in CandidatesOver(cfg, sc, leaves[..last]) {
      CandidatesOnPaths(cfg, sc, leaves[..last], x);
      var i :| 0 <= i < last && leaves[..last][i].path == x.path;
      assert leaves[i].path == x.path;
    } else {
      assert leaves[last].path == x.path;
    }
  }

  lemma SecretHitsConcat(d: Detector, cfg: SecretsConfig, a: seq<Candidate>, b: seq<Candidate>)
    ensures SecretHits(d, cfg, a + b) == SecretHits(d, cfg, a) + SecretHits(d, cfg, b)
  {
    hide SecretHit;
  }

  /** Reporting each place once over the whole envelope is the same as doing it leaf by leaf. */
  lemma {:induction false} SecretsByLeaf(d: Detector, sc: Scanner, leaves: seq<Leaf>)
    requires Sound(sc) && d.secrets.Some? && DistinctPaths(leaves)
    ensures SecretHits(d, d.secrets.value, FirstAtEachPlace(CandidatesOver(d.secrets.value, sc, leaves)))
         == HitsByLeaf(d, sc, leaves)
  {
    hide LeafCandidates, SecretHits, FirstAtEachPlace, TextHits;
    var cfg := d.secrets.value;
    if leaves == [] {
      NoSecretHits(d, cfg);
    } else {
      var last := |leaves| - 1;
      var a, b := CandidatesOver(cfg, sc, leaves[..last]), LeafCandidates(cfg, sc, leaves[last]);
      SecretsByLeaf(d, sc, leaves[..last]);
      NewLeafNewPaths(cfg, sc, leaves);
      FirstConcat(a, b);
      SecretHitsConcat(d, cfg, FirstAtEachPlace(a), FirstAtEachPlace(b));
    }
  }

  lemma NewLeafNewPaths(cfg: SecretsConfig, sc: Scanner, leaves: seq<Leaf>)
    requires Sound(sc) && leaves != [] && DistinctPaths(leaves)
    ensures var before := CandidatesOver(cfg, sc, leaves[..|leaves| - 1]);
            var own := LeafCandidates(cfg, sc, leaves[|leaves| - 1]);
            forall x, y :: x in before && y in own ==> x.path != y.path
  {
    hide LeafCandidates, CandidatesOver;
    var last := |leaves| - 1;
    LeafCandidatesIn(cfg, sc, leaves[last]);
    forall x, y | x in CandidatesOver(cfg, sc, leaves[..last]) && y in LeafCandidates(cfg, sc, leaves[last])
      ensures x.path != y.path
    {
      CandidatesOnPaths(cfg, sc, leaves[..last], x);
    }
  }

  lemma NoSecretHits(d: Detector, cfg: SecretsConfig)
    ensures SecretHits(d, cfg, FirstAtEachPlace([])) == []
  {
  }

  lemma {:induction false} TextByLeaf(d: Detector, sc: Scanner, leaves: seq<Leaf>)
    requires Sound(sc) && d.secrets.None?
    ensures HitsOver(d, sc, leaves) == HitsByLeaf(d, sc, leaves)
  {
    hide TextHits;
    if leaves != [] { TextByLeaf(d, sc, leaves[..|leaves| - 1]); }
  }

  lemma HitsAreByLeaf(d: Detector, sc: Scanner, c: Content)
    requires Sound(sc)
    ensures Hits(d, sc, c) == HitsByLeaf(d, sc, Visited(d, c))
  {
    hide StringLeaves, TextLeaves, CandidatesOver, HitsOver, HitsByLeaf, FirstAtEachPlace, SecretHits;
    if d.secrets.Some? {
      PathsNameLeaves(c);
      SecretsByLeaf(d, sc, StringLeaves(c));
    } else {
      TextByLeaf(d, sc, TextLeaves(c));
    }
  }

  /** A detector as a producer of replacements, leaf by leaf. */
  ghost function ItemsOf(d: Detector, sc: Scanner): Producer
    requires Sound(sc)
  {
    leaf => if Spanless(d) then [] else Items(LeafHits(d, sc, leaf))
  }

  lemma ItemsConcat(a: seq<Hit>, b: seq<Hit>)
    ensures Items(a + b) == Items(a) + Items(b)
  {
  }

  lemma {:induction false} ItemsProduced(d: Detector, sc: Scanner, leaves: seq<Leaf>)
    requires Sound(sc) && !Spanless(d)
    ensures Items(HitsByLeaf(d, sc, leaves)) == Produced(leaves, ItemsOf(d, sc))
  {
    hide LeafHits, Items;
    if leaves == [] {
      NoItems();
    } else {
      var last := |leaves| - 1;
      ItemsProduced(d, sc, leaves[..last]);
      ItemsConcat(HitsByLeaf(d, sc, leaves[..last]), LeafHits(d, sc, leaves[last]));
    }
  }

  lemma NoItems()
    ensures Items([]) == []
  {
  }

  // ----- What a detector hands to the run -----

  lemma {:induction false} HitsLieInLeaves(d: Detector, sc: Scanner, leaves: seq<Leaf>, i: nat) returns (l: nat)
    requires Sound(sc) && i < |HitsByLeaf(d, sc, leaves)|
    ensures l < |leaves| && HitIn(HitsByLeaf(d, sc, leaves)[i], leaves[l])
  {
    hide LeafHits, HitIn;
    var last := |leaves| - 1;
    var before := HitsByLeaf(d, sc, leaves[..last]);
    if i < |before| {
      l := HitsLieInLeaves(d, sc, leaves[..last], i);
    } else {
      LeafHitsIn(d, sc, leaves[last]);
      l := last;
      assert LeafHits(d, sc, leaves[last])[i - |before|] in LeafHits(d, sc, leaves[last]);
    }
  }

  /** The replacement fits a string leaf of the content, runs forward and is not empty. */
  ghost predicate Fits(r: Replacement, c: Content) {
    && r.value != "" && 0 <= r.start <= r.end
    && exists l :: 0 <= l < |StringLeaves(c)| && StringLeaves(c)[l].path == r.path && r.end <= |StringLeaves(c)[l].text|
  }

  /** Findings and replacements go together, index by index. */
  ghost predicate Aligned(findings: seq<Finding>, replacements: seq<Replacement>) {
    && |findings| == |replacements|
    && forall i :: 0 <= i < |findings| ==>
         findings[i].locations == [Location(replacements[i].path, replacements[i].start, replacements[i].end)]
  }

  /**
   A detector that points at text hands over findings and replacements that stay aligned index by
   index, and every replacement fits the string it names.
   */
  lemma DetectedAligned(d: Detector, sc: Scanner, c: Content)
    requires Sound(sc) && !Spanless(d)
    ensures Aligned(Detected(d, sc, c).0, Detected(d, sc, c).1)
    ensures forall r :: r in Detected(d, sc, c).1 ==> Fits(r, c)
  {
    hide StringLeaves, TextLeaves, HitsByLeaf, Hits;
    HitsAreByLeaf(d, sc, c);
    var hits := Hits(d, sc, c);
    forall i | 0 <= i < |hits|
      ensures Fits(hits[i].item, c)
      ensures hits[i].finding.locations == [Location(hits[i].item.path, hits[i].item.start, hits[i].item.end)]
    {
      var l := HitsLieInLeaves(d, sc, Visited(d, c), i);
      VisitedAreLeaves(d, c, l);
    }
  }

  lemma VisitedAreLeaves(d: Detector, c: Content, l: nat)
    requires l < |Visited(d, c)|
    ensures l < |StringLeaves(c)| && StringLeaves(c)[l] == Visited(d, c)[l]
  {
    hide TextLeaves, Named;
  }

  /**
   Looking a detector's replacements up by the path of a leaf gives exactly what the detector
   records for that leaf on its own, and nothing for a leaf it does not visit.
   */
  lemma DetectedForLeaf(d: Detector, sc: Scanner, c: Content, l: nat)
    requires Sound(sc) && l < |StringLeaves(c)|
    ensures Recorded(Detected(d, sc, c).1, StringLeaves(c)[l].path)
         == if l < |Visited(d, c)| then ItemsOf(d, sc)(StringLeaves(c)[l]) else []
  {
    hide StringLeaves, TextLeaves, HitsByLeaf, Hits, LeafHits, Produced, HitIn;
    if !Spanless(d) {
      var leaves, visited := StringLeaves(c), Visited(d, c);
      PathsNameLeaves(c);
      HitsAreByLeaf(d, sc, c);
      ItemsProduced(d, sc, visited);
      VisitedPrefix(d, c);
      forall k | 0 <= k < |visited| ensures visited[k] == leaves[k] && OwnPath(ItemsOf(d, sc), visited[k]) {
        VisitedAreLeaves(d, c, k);
        ItemsOnOwnPath(d, sc, visited[k]);
      }
      if l < |visited| {
        LookupFindsOwnRecords(visited, ItemsOf(d, sc), l);
      } else {
        RecordedElsewhere(visited, ItemsOf(d, sc), leaves[l].path);
      }
    }
  }

  lemma VisitedPrefix(d: Detector, c: Content)
    ensures |Visited(d, c)| <= |StringLeaves(c)|
  {
  }

  lemma ItemsOnOwnPath(d: Detector, sc: Scanner, leaf: Leaf)
    requires Sound(sc)
    ensures OwnPath(ItemsOf(d, sc), leaf)
  {
    hide LeafHits;
    LeafHitsIn(d, sc, leaf);
    var hits := LeafHits(d, sc, leaf);
    forall i | 0 <= i < |hits| ensures hits[i].item.path == leaf.path { assert hits[i] in hits; }
  }

  function PlaceOf(c: Candidate): seq<Location> {
    [Location(c.path, c.start, c.end)]
  }

  lemma SecretFindingPlaces(d: Detector, cfg: SecretsConfig, c: seq<Candidate>)
    ensures |Findings(SecretHits(d, cfg, c))| == |c|
    ensures forall i :: 0 <= i < |c| ==> Findings(SecretHits(d, cfg, c))[i].locations == PlaceOf(c[i])
  {
  }

  /**
   Secret findings name pairwise different places, and every place that an enabled pattern or a
   high-entropy assignment matched is named by one of them.
   */
  lemma SecretPlacesExact(d: Detector, sc: Scanner, c: Content)
    requires Sound(sc) && d.secrets.Some? && !Spanless(d)
    ensures var findings := Detected(d, sc, c).0;
            && (forall i, j :: 0 <= i < j < |findings| ==> findings[i].locations != findings[j].locations)
            && (forall x :: x in CandidatesOver(d.secrets.value, sc, StringLeaves(c)) ==>
                  exists i :: 0 <= i < |findings| && findings[i].locations == PlaceOf(x))
  {
    hide StringLeaves, CandidatesOver, FirstAtEachPlace, SecretHits, SecretHit, Findings, Items;
    var cfg := d.secrets.value;
    var candidates := CandidatesOver(cfg, sc, StringLeaves(c));
    var first := FirstAtEachPlace(candidates);
    var findings := Detected(d, sc, c).0;
    SecretFindingPlaces(d, cfg, first);
    forall i, j | 0 <= i < j < |findings| ensures findings[i].locations != findings[j].locations {
      FirstDistinct(candidates, i, j);
      assert PlaceOf(first[i])[0] != PlaceOf(first[j])[0];
    }
    forall x | x in candidates
      ensures exists i :: 0 <= i < |findings| && findings[i].locations == PlaceOf(x)
    {
      FirstComplete(candidates, x);
      var y :| y in first && SamePlace(x, y);
      var i :| 0 <= i < |first| && first[i] == y;
    }
  }
}
