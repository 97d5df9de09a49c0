/** From detection to the returned content: what a redacting evaluation hands back, string by string. */
module RedactedRun {
  import opened Content
  import opened Splicing
  import opened Additions
  import opened Redaction
  import opened Keywords
  import opened Policy
  import opened Detectors
  import opened DetectorFacts
  import opened Evaluation
  import opened DecisionFacts

  /** What the detector of an entry, looking at leaf `l` on its own, asks for in it. */
  ghost function Asks(e: Entry, sc: Scanner, c: Content, l: nat): seq<Replacement>
    requires Sound(sc) && l < |StringLeaves(c)|
  {
    if Redacts(e) && l < |Visited(e.event.detector, c)| then ItemsOf(e.event.detector, sc)(StringLeaves(c)[l]) else []
  }

  /** What the redacting detectors of a run, each looking at leaf `l` on its own, ask for in it. */
  ghost function AskedFor(entries: seq<Entry>, sc: Scanner, c: Content, l: nat): seq<Replacement>
    requires Sound(sc) && l < |StringLeaves(c)|
  {
    if entries == [] then []
    else AskedFor(entries[..|entries| - 1], sc, c, l) + Asks(entries[|entries| - 1], sc, c, l)
  }

  lemma {:induction false} RecordedIsAskedFor(env: Env, sc: Scanner, entries: seq<Entry>, l: nat)
    requires Sound(sc) && BuiltinEntries(env, sc, entries) && l < |StringLeaves(env.content)|
    ensures Recorded(ReplacementsIn(entries), StringLeaves(env.content)[l].path)
         == AskedFor(entries, sc, env.content, l)
  {
    hide StringLeaves, Visited, Detected, Recorded, ItemsOf, PolicyID, WellFormed, Redacts;
    var c := env.content;
    if entries == [] {
      RecordedNone([], StringLeaves(c)[l].path);
    } else {
      var last := |entries| - 1;
      var path := StringLeaves(c)[l].path;
      assert entries[last] in entries && forall e :: e in entries[..last] ==> e in entries;
      RecordedIsAskedFor(env, sc, entries[..last], l);
      if Redacts(entries[last]) {
        RedactsAnswered(entries[last]);
        DetectedForLeaf(entries[last].event.detector, sc, c, l);
        RecordedConcat(ReplacementsIn(entries[..last]), entries[last].event.replacements, path);
        assert entries[last].event.replacements == Detected(entries[last].event.detector, sc, c).1;
      } else {
        assert ReplacementsIn(entries) == ReplacementsIn(entries[..last]) + [] == ReplacementsIn(entries[..last]);
      }
    }
  }

  lemma RedactsAnswered(e: Entry)
    requires Redacts(e)
    ensures e.event.Answered? && e.policy.config.action == Redact
  {
  }

  /** Every replacement of a built-in run fits a string of the content. */
  lemma {:induction false} ReplacementsFit(env: Env, sc: Scanner, entries: seq<Entry>)
    requires Sound(sc) && BuiltinEntries(env, sc, entries)
    ensures forall r :: r in ReplacementsIn(entries) ==> Fits(r, env.content)
  {
    hide Detected, Fits, PolicyID, DurationMilliseconds;
    if entries != [] {
      var last := |entries| - 1;
      var e := entries[last];
      assert e in entries && forall x :: x in entries[..last] ==> x in entries;
      ReplacementsFit(env, sc, entries[..last]);
      if Redacts(e) {
        assert e.event.detector in e.policy.detectors;
        DetectedAligned(e.event.detector, sc, env.content);
      }
    }
  }

  lemma FittingIsUsable(c: Content, replacements: seq<Replacement>)
    requires forall r :: r in replacements ==> Fits(r, c)
    ensures AllForward(replacements) && ForLeaves(replacements, StringLeaves(c))
    ensures forall r :: r in replacements ==> r.value != ""
  {
    hide StringLeaves;
  }

  /**
   The content a built-in run redacts has the same strings at the same paths, each rewritten by exactly
   what the run's redacting detectors ask for in it.
   */
  lemma RedactedStringByString(env: Env, sc: Scanner, entries: seq<Entry>)
    requires Sound(sc) && BuiltinEntries(env, sc, entries)
    ensures var c := env.content;
            var before, after := StringLeaves(c), StringLeaves(RedactedContent(c, ReplacementsIn(entries)));
            && |after| == |before|
            && forall l :: 0 <= l < |before| ==>
                 && AllForward(AskedFor(entries, sc, c, l))
                 && after[l] == Leaf(before[l].path, Redacted(before[l].text, AskedFor(entries, sc, c, l)))
  {
    hide StringLeaves, RedactedContent, ReplacementsIn, AskedFor, Redacted, Fits, BuiltinEntries;
    var c, items := env.content, ReplacementsIn(entries);
    ReplacementsFit(env, sc, entries);
    FittingIsUsable(c, items);
    RedactionCommutesWithVisiting(c, items);
    forall l | 0 <= l < |StringLeaves(c)|
      ensures AllForward(AskedFor(entries, sc, c, l))
      ensures StringLeaves(RedactedContent(c, items))[l]
           == Leaf(StringLeaves(c)[l].path, Redacted(StringLeaves(c)[l].text, AskedFor(entries, sc, c, l)))
    {
      RecordedIsAskedFor(env, sc, entries, l);
    }
  }

  /**
   Every non-empty place that a redacting policy's finding names is hit: its first byte lies inside a span
   that is cut out of the string it is in.
   */
  lemma FindingsAreHit(env: Env, sc: Scanner, entries: seq<Entry>, i: nat, k: nat) returns (l: nat)
    requires Sound(sc) && BuiltinEntries(env, sc, entries) && i < |entries| && Redacts(entries[i])
    requires k < |entries[i].event.findings|
    ensures |entries[i].event.findings[k].locations| == 1
    ensures var place := entries[i].event.findings[k].locations[0];
            && l < |StringLeaves(env.content)|
            && place.path == StringLeaves(env.content)[l].path
            && 0 <= place.start <= place.end <= |StringLeaves(env.content)[l].text|
            && (place.start < place.end ==>
                  var n := |StringLeaves(env.content)[l].text|;
                  CoveredBy(Selected(AskedFor(entries, sc, env.content, l), n), place.start))
  {
    hide StringLeaves, Detected, ReplacementsIn, AskedFor, Selected, CoveredBy, PolicyID, DurationMilliseconds;
    hide Spanless;
    var e := entries[i];
    assert e in entries;
    DetectedAligned(e.event.detector, sc, env.content);
    var r := e.event.replacements[k];
    assert Fits(r, env.content);
    l :| 0 <= l < |StringLeaves(env.content)| && StringLeaves(env.content)[l].path == r.path
         && r.end <= |StringLeaves(env.content)[l].text|;
    ReplacementsHold(entries, i, r);
    RecordedIsAskedFor(env, sc, entries, l);
    ReplacementsFit(env, sc, entries);
    FittingIsUsable(env.content, ReplacementsIn(entries));
    var items := AskedFor(entries, sc, env.content, l);
    assert r in items && AllForward(items);
    GreedyCoverage(items, |StringLeaves(env.content)[l].text|, r);
  }

  // ----- Every byte of every finding -----

  /** A finding points at byte `k` of the string at a path. */
  ghost predicate Points(f: Finding, path: string, k: int) {
    exists place :: place in f.locations && place.path == path && place.start <= k < place.end
  }

  /** A finding that counts towards redaction points at that byte. */
  ghost predicate Named(entries: seq<Entry>, path: string, k: int) {
    exists i, j :: 0 <= i < |entries| && Redacts(entries[i]) && 0 <= j < |entries[i].event.findings| &&
                   Points(entries[i].event.findings[j], path, k)
  }

  lemma {:induction false} ReplacementSource(entries: seq<Entry>, r: Replacement) returns (i: nat)
    requires r in ReplacementsIn(entries)
    ensures i < |entries| && Redacts(entries[i]) && r in entries[i].event.replacements
  {
    hide Redacts;
    var last := |entries| - 1;
    if r in ReplacementsIn(entries[..last]) {
      i := ReplacementSource(entries[..last], r);
    } else {
      i := last;
    }
  }

  /** A replacement that fits the content and is for leaf `l` lies in that leaf. */
  lemma FitsOwnLeaf(r: Replacement, c: Content, l: nat)
    requires Fits(r, c) && l < |StringLeaves(c)| && r.path == StringLeaves(c)[l].path
    ensures InRange(r, |StringLeaves(c)[l].text|)
  {
    hide StringLeaves;
    PathsNameLeaves(c);
    var m :| 0 <= m < |StringLeaves(c)| && StringLeaves(c)[m].path == r.path && r.end <= |StringLeaves(c)[m].text|;
    assert m == l;
  }

  lemma AnswerAligned(env: Env, sc: Scanner, e: Entry)
    requires Sound(sc) && BuiltinEntries(env, sc, [e]) && Redacts(e)
    ensures Aligned(e.event.findings, e.event.replacements)
    ensures forall r :: r in e.event.replacements ==> Fits(r, env.content)
  {
    hide Detected, Aligned, Fits, PolicyID, DurationMilliseconds, Spanless;
    assert e in [e] && e.event.detector in e.policy.detectors;
    DetectedAligned(e.event.detector, sc, env.content);
  }

  /** What is asked for in a leaf, by index: the finding and the replacement of one entry. */
  lemma AskedForSource(env: Env, sc: Scanner, entries: seq<Entry>, l: nat, r: Replacement) returns (i: nat, j: nat)
    requires Sound(sc) && BuiltinEntries(env, sc, entries) && l < |StringLeaves(env.content)|
    requires r in AskedFor(entries, sc, env.content, l)
    ensures i < |entries| && Redacts(entries[i]) && j < |entries[i].event.findings|
    ensures entries[i].event.findings[j].locations == [Location(r.path, r.start, r.end)]
    ensures r.path == StringLeaves(env.content)[l].path
  {
    hide StringLeaves, ReplacementsIn, AskedFor, BuiltinEvent, WellFormed, Fits, Recorded;
    RecordedIsAskedFor(env, sc, entries, l);
    RecordedOwn(ReplacementsIn(entries), StringLeaves(env.content)[l].path);
    i := ReplacementSource(entries, r);
    assert entries[i] in entries;
    AnswerAligned(env, sc, entries[i]);
    j :| 0 <= j < |entries[i].event.replacements| && entries[i].event.replacements[j] == r;
  }

  lemma RecordedOwn(items: seq<Replacement>, path: string)
    ensures forall r :: r in Recorded(items, path) <==> r in items && r.path == path
  {
  }

  /** And back: the replacement that goes with a finding is asked for in the leaf the finding names. */
  lemma FindingAsksFor(env: Env, sc: Scanner, entries: seq<Entry>, l: nat, i: nat, j: nat, place: Location)
    returns (r: Replacement)
    requires Sound(sc) && BuiltinEntries(env, sc, entries) && l < |StringLeaves(env.content)|
    requires i < |entries| && Redacts(entries[i]) && j < |entries[i].event.findings|
    requires place in entries[i].event.findings[j].locations && place.path == StringLeaves(env.content)[l].path
    ensures r in AskedFor(entries, sc, env.content, l) && InRange(r, |StringLeaves(env.content)[l].text|)
    ensures r.start == place.start && r.end == place.end
  {
    hide StringLeaves, ReplacementsIn, AskedFor, BuiltinEvent, WellFormed, Fits, Recorded;
    RecordedIsAskedFor(env, sc, entries, l);
    RecordedOwn(ReplacementsIn(entries), StringLeaves(env.content)[l].path);
    assert entries[i] in entries;
    AnswerAligned(env, sc, entries[i]);
    r := entries[i].event.replacements[j];
    assert place == Location(r.path, r.start, r.end);
    ReplacementsHold(entries, i, r);
    FitsOwnLeaf(r, env.content, l);
  }

  /** The bytes that redacting findings name in a leaf are exactly the bytes the splicer is asked to replace. */
  lemma NamedIsMatched(env: Env, sc: Scanner, entries: seq<Entry>, l: nat, k: int)
    requires Sound(sc) && BuiltinEntries(env, sc, entries) && l < |StringLeaves(env.content)|
    ensures Named(entries, StringLeaves(env.content)[l].path, k)
       <==> Matched(AskedFor(entries, sc, env.content, l), |StringLeaves(env.content)[l].text|, k)
  {
    hide StringLeaves, AskedFor, BuiltinEntries;
    var leaf, items := StringLeaves(env.content)[l], AskedFor(entries, sc, env.content, l);
    if Matched(items, |leaf.text|, k) {
      var r :| r in items && InRange(r, |leaf.text|) && r.start <= k < r.end;
      var i, j := AskedForSource(env, sc, entries, l, r);
      assert Location(r.path, r.start, r.end) in entries[i].event.findings[j].locations;
      assert Points(entries[i].event.findings[j], leaf.path, k);
    }
    if Named(entries, leaf.path, k) {
      var i, j :| 0 <= i < |entries| && Redacts(entries[i]) && 0 <= j < |entries[i].event.findings| &&
                  Points(entries[i].event.findings[j], leaf.path, k);
      var place :| place in entries[i].event.findings[j].locations && place.path == leaf.path
                   && place.start <= k < place.end;
      var r := FindingAsksFor(env, sc, entries, l, i, j, place);
    }
  }

  /**
   Exactly when a run cuts out everything its redacting findings name in a string: when the one-pass test on
   what is asked for in that string succeeds.
   */
  lemma FindingsGoExactly(env: Env, sc: Scanner, entries: seq<Entry>, l: nat)
    requires Sound(sc) && BuiltinEntries(env, sc, entries) && l < |StringLeaves(env.content)|
    ensures var leaf, items := StringLeaves(env.content)[l], AskedFor(entries, sc, env.content, l);
            && AllForward(items)
            && ((forall k :: Named(entries, leaf.path, k) ==> CoveredBy(Selected(items, |leaf.text|), k)) <==>
                NoTailLeft(InOrder(items), |leaf.text|, -1, -1))
  {
    hide StringLeaves, AskedFor, BuiltinEntries, Named, Matched, CoveredBy, Selected, NoTailLeft, InOrder;
    var leaf, items := StringLeaves(env.content)[l], AskedFor(entries, sc, env.content, l);
    AskedForForward(env, sc, entries, l);
    forall k ensures Named(entries, leaf.path, k) <==> Matched(items, |leaf.text|, k) {
      NamedIsMatched(env, sc, entries, l, k);
    }
    MatchedBytesGoExactly(items, |leaf.text|);
  }

  lemma AskedForForward(env: Env, sc: Scanner, entries: seq<Entry>, l: nat)
    requires Sound(sc) && BuiltinEntries(env, sc, entries) && l < |StringLeaves(env.content)|
    ensures AllForward(AskedFor(entries, sc, env.content, l))
  {
    hide StringLeaves, RedactedContent, ReplacementsIn, AskedFor, Redacted, BuiltinEntries;
    RedactedStringByString(env, sc, entries);
  }

  // ----- One keyword alone -----

  /** The entry's detector looks for this one keyword, in leaf `l` among others. */
  ghost predicate LooksFor(e: Entry, c: Content, l: nat, keyword: string) {
    && Redacts(e) && e.event.detector.keywords.Some? && e.event.detector.keywords.value.values == [keyword]
    && l < |TextLeaves(c)|
  }

  /** Nothing but entry `i` asks for anything in leaf `l`. */
  ghost predicate OnlyAsks(entries: seq<Entry>, sc: Scanner, c: Content, l: nat, i: nat)
    requires Sound(sc) && l < |StringLeaves(c)|
  {
    forall j :: 0 <= j < |entries| && j != i ==> Asks(entries[j], sc, c, l) == []
  }

  lemma {:induction false} AskedForNothing(entries: seq<Entry>, sc: Scanner, c: Content, l: nat)
    requires Sound(sc) && l < |StringLeaves(c)|
    requires forall j :: 0 <= j < |entries| ==> Asks(entries[j], sc, c, l) == []
    ensures AskedFor(entries, sc, c, l) == []
  {
    hide Asks, StringLeaves;
    if entries != [] { AskedForNothing(entries[..|entries| - 1], sc, c, l); }
  }

  lemma {:induction false} AskedForByOne(entries: seq<Entry>, sc: Scanner, c: Content, l: nat, i: nat)
    requires Sound(sc) && l < |StringLeaves(c)| && i < |entries| && OnlyAsks(entries, sc, c, l, i)
    ensures AskedFor(entries, sc, c, l) == Asks(entries[i], sc, c, l)
  {
    hide Asks, StringLeaves;
    var last := |entries| - 1;
    if i == last {
      AskedForNothing(entries[..last], sc, c, l);
    } else {
      assert entries[..last][i] == entries[i];
      AskedForByOne(entries[..last], sc, c, l, i);
    }
  }

  lemma KeywordHitItems(d: Detector, sc: Scanner, leaf: Leaf, keyword: string)
    requires d.keywords.Some? && d.keywords.value.values == [keyword] && CountConfigured(d) == 1
    ensures var cfg := d.keywords.value;
            Items(TextHits(d, sc, leaf)) == KeywordItems(leaf.path, DefaultString(cfg.replacement, "<REDACTED>"),
                                                         KeywordSpans(leaf.text, keyword, cfg.caseSensitive))
  {
    hide KeywordSpans, DefaultString;
    var cfg := d.keywords.value;
    assert KeywordHits(d.id, cfg, leaf, 0) == [];
    var value := DefaultString(cfg.replacement, "<REDACTED>");
    var spans := KeywordSpans(leaf.text, keyword, cfg.caseSensitive);
    var hits := SpanHits(d.id, cfg.category, cfg.severity, leaf.path, value, spans);
    assert KeywordHits(d.id, cfg, leaf, 1) == [] + hits == hits;
    assert Items(hits) == KeywordItems(leaf.path, value, spans);
  }

  lemma KeywordAsks(e: Entry, sc: Scanner, c: Content, l: nat, keyword: string)
    requires Sound(sc) && l < |StringLeaves(c)| && LooksFor(e, c, l, keyword) && CountConfigured(e.event.detector) == 1
    ensures var cfg, leaf := e.event.detector.keywords.value, StringLeaves(c)[l];
            Asks(e, sc, c, l) == KeywordItems(leaf.path, DefaultString(cfg.replacement, "<REDACTED>"),
                                              KeywordSpans(leaf.text, keyword, cfg.caseSensitive))
  {
    hide StringLeaves, TextLeaves, KeywordSpans, DefaultString, TextHits, Items, KeywordItems;
    KeywordHitItems(e.event.detector, sc, StringLeaves(c)[l], keyword);
  }

  /**
   In a run whose only redactor of a string is one keyword, the returned string is the untouched stretches of
   the old one joined by placeholders, and none of those stretches holds the keyword.
   */
  lemma KeywordIsRemovedInRun(env: Env, sc: Scanner, entries: seq<Entry>, l: nat, i: nat, keyword: string)
    requires Sound(sc) && BuiltinEntries(env, sc, entries) && l < |StringLeaves(env.content)| && i < |entries|
    requires keyword != "" && LooksFor(entries[i], env.content, l, keyword)
    requires OnlyAsks(entries, sc, env.content, l, i)
    ensures var leaf := StringLeaves(env.content)[l];
            var items := AskedFor(entries, sc, env.content, l);
            var cs := entries[i].event.detector.keywords.value.caseSensitive;
            var after := StringLeaves(RedactedContent(env.content, ReplacementsIn(entries)));
            && l < |after| && Chained(items, 0, |leaf.text|)
            && |Gaps(leaf.text, items, 0)| == |items| + 1
            && after[l].text == Joined(Gaps(leaf.text, items, 0), items)
            && AllClean(Gaps(leaf.text, items, 0), keyword, cs)
  {
    hide StringLeaves, TextLeaves, RedactedContent, ReplacementsIn, AskedFor, Asks, Redacted, Gaps, Joined;
    hide AllClean, KeywordSpans, BuiltinEvent, Selected, OnlyAsks;
    var leaf, d := StringLeaves(env.content)[l], entries[i].event.detector;
    assert entries[i] in entries;
    DetectorIsPlain(env, sc, entries[i]);
    AskedForByOne(entries, sc, env.content, l, i);
    KeywordAsks(entries[i], sc, env.content, l, keyword);
    var value := DefaultString(d.keywords.value.replacement, "<REDACTED>");
    KeywordIsRemoved(leaf.path, leaf.text, keyword, d.keywords.value.caseSensitive, value);
    RedactedStringByString(env, sc, entries);
  }

  lemma DetectorIsPlain(env: Env, sc: Scanner, e: Entry)
    requires Sound(sc) && BuiltinEntries(env, sc, [e]) && Redacts(e)
    ensures CountConfigured(e.event.detector) == 1
  {
    hide Detected, PolicyID, DurationMilliseconds;
    assert e in [e] && e.event.detector in e.policy.detectors;
  }

  // ----- What the caller's own policies do to the content -----

  lemma {:induction false} AskedForConcat(own: seq<Entry>, more: seq<Entry>, sc: Scanner, c: Content, l: nat)
    requires Sound(sc) && l < |StringLeaves(c)|
    ensures AskedFor(own + more, sc, c, l) == AskedFor(own, sc, c, l) + AskedFor(more, sc, c, l)
  {
    hide Asks, StringLeaves;
    if more == [] {
      assert own + more == own;
    } else {
      var last, all := |more| - 1, own + more;
      assert all[..|all| - 1] == own + more[..last];
      AskedForConcat(own, more[..last], sc, c, l);
    }
  }

  lemma AskedForOnePath(env: Env, sc: Scanner, entries: seq<Entry>, l: nat)
    requires Sound(sc) && BuiltinEntries(env, sc, entries) && l < |StringLeaves(env.content)|
    ensures OnePath(AskedFor(entries, sc, env.content, l))
  {
    hide StringLeaves, AskedFor, ReplacementsIn, Recorded, BuiltinEntries;
    RecordedIsAskedFor(env, sc, entries, l);
    RecordedOwn(ReplacementsIn(entries), StringLeaves(env.content)[l].path);
  }

  /**
   Exactly when the caller's own policies leave the redaction of a string as strong as it is. Whatever the
   caller selects, every byte that the evaluation of the mandatory policies alone cuts out of a string is cut
   out in the full evaluation too if and only if the one-pass test succeeds on what both ask for in it. It
   does when no further span overlaps a mandatory one partially, and when nothing that is asked for survives.
   */
  lemma CallerKeepsCutsExactly(cat: Catalog, env: Env, sc: Scanner, tenant: string, profile: string,
                               selected: seq<string>, stage: string, started: nat, l: nat)
    requires CatalogValid(cat) && Sound(sc) && RunsBuiltins(env.exec, sc) && l < |StringLeaves(env.content)|
    requires Resolved(cat, tenant, profile, selected, stage).Success?
    requires RunPolicies(env, Resolved(cat, tenant, profile, selected, stage).value, started, 0).Completed?
    ensures var mandatory := Resolved(cat, tenant, "", [], stage);
            && mandatory.Success? && RunPolicies(env, mandatory.value, started, 0).Completed?
            && var full := Resolved(cat, tenant, profile, selected, stage);
               var own := Entries(RunPolicies(env, mandatory.value, started, 0).log);
               var all := Entries(RunPolicies(env, full.value, started, 0).log);
               && own <= all
               && var n := |StringLeaves(env.content)[l].text|;
                  var asked, further := AskedFor(own, sc, env.content, l), AskedFor(all[|own|..], sc, env.content, l);
                  && AskedFor(all, sc, env.content, l) == asked + further
                  && (CutsKept(asked, further, n) <==> KeepsCuts(Merged(InOrder(asked), InOrder(further)), n, -1, -1))
                  && (AddedNestedOrApart(asked, further, n) ==> CutsKept(asked, further, n))
                  && (NoTailLeft(InOrder(asked + further), n, -1, -1) ==> CutsKept(asked, further, n))
  {
    hide Resolved, RunPolicies, RunsBuiltins, CatalogValid, Entries, Judge, StringLeaves, AskedFor, WellFormed;
    hide CutsKept, AddedNestedOrApart, NoTailLeft, InOrder, BuiltinEvent, KeepsCuts, Merged;
    CallerCannotWeaken(cat, env, tenant, profile, selected, stage, started);
    var policies := Resolved(cat, tenant, profile, selected, stage).value;
    var own := Entries(RunPolicies(env, Resolved(cat, tenant, "", [], stage).value, started, 0).log);
    var all := Entries(RunPolicies(env, policies, started, 0).log);
    var more, n := all[|own|..], |StringLeaves(env.content)[l].text|;
    assert all == own + more;
    ResolvedWellFormed(cat, tenant, profile, selected, stage);
    BuiltinRunEntries(env, sc, policies, started, 0);
    assert BuiltinEntries(env, sc, own) && BuiltinEntries(env, sc, more);
    AskedForConcat(own, more, sc, env.content, l);
    AskedForForward(env, sc, own, l);
    AskedForForward(env, sc, more, l);
    AskedForOnePath(env, sc, all, l);
    var asked, further := AskedFor(own, sc, env.content, l), AskedFor(more, sc, env.content, l);
    CutsKeptExactly(asked, further, n);
    if AddedNestedOrApart(asked, further, n) || NoTailLeft(InOrder(asked + further), n, -1, -1) {
      AddedSpansKeepCuts(asked, further, n);
    }
  }

  /**
   The response of a built-in evaluation that decides to redact carries content, and that content is the
   request's content redacted string by string.
   */
  lemma RedactResponse(r: Response, env: Env, sc: Scanner, policies: seq<CompiledPolicy>, started: nat)
    requires Sound(sc) && RunsBuiltins(env.exec, sc) && forall p :: p in policies ==> WellFormed(p)
    requires RunPolicies(env, policies, started, 0).Completed?
    requires Reflects(r, RunPolicies(env, policies, started, 0), started, env.content) && r.action == Redact
    ensures r.transformed.Some?
    ensures var entries := Entries(RunPolicies(env, policies, started, 0).log);
            var before, after := StringLeaves(env.content), StringLeaves(View(r.transformed.value));
            && |after| == |before|
            && forall l :: 0 <= l < |before| ==>
                 && AllForward(AskedFor(entries, sc, env.content, l))
                 && after[l] == Leaf(before[l].path, Redacted(before[l].text, AskedFor(entries, sc, env.content, l)))
  {
    hide RunPolicies, Entries, StringLeaves, RedactedContent, ReplacementsIn, AskedFor, Redacted, Judge, BuiltinEntries;
    hide RunsBuiltins, WellFormed, DetectorTimes, PolicyTimes, FindingsIn, FailuresIn;
    var entries := Entries(RunPolicies(env, policies, started, 0).log);
    BuiltinRunEntries(env, sc, policies, started, 0);
    RedactCarriesContent(env, sc, entries);
    RedactedStringByString(env, sc, entries);
  }

  // ----- When a run leaves the request alone -----

  /** Which string leaf message `i` is. */
  function MessageLeaf(c: Content, i: nat): nat {
    (if c.text != "" then 1 else 0) + i
  }

  lemma MessageLeafIs(c: Content, i: nat)
    requires i < |c.messages|
    ensures MessageLeaf(c, i) < |StringLeaves(c)|
    ensures StringLeaves(c)[MessageLeaf(c, i)] == Leaf(MessagePath(i), c.messages[i].content)
  {
    hide Named, MessagePath, DataSpots;
  }

  /** What the run asks for in message `i` passes the one-pass test that compares its text with itself. */
  ghost predicate MessageStays(entries: seq<Entry>, sc: Scanner, c: Content, i: nat)
    requires Sound(sc) && i < |c.messages|
  {
    MessageLeafIs(c, i);
    var text, items := c.messages[i].content, AskedFor(entries, sc, c, MessageLeaf(c, i));
    AllForward(items) && (SelectedChained(items, |text|); StaysPut(text, Selected(items, |text|), 0, 0))
  }

  lemma MessageStaysIsPasses(env: Env, sc: Scanner, entries: seq<Entry>, i: nat)
    requires Sound(sc) && BuiltinEntries(env, sc, entries) && i < |env.content.messages|
    requires AllForward(ReplacementsIn(entries))
    ensures PassesAt(env.content, ReplacementsIn(entries), i) <==> MessageStays(entries, sc, env.content, i)
  {
    hide StringLeaves, ReplacementsIn, AskedFor, Recorded, BuiltinEntries, Selected, StaysPut, MessagePath, Chained;
    var c := env.content;
    MessageLeafIs(c, i);
    RecordedIsAskedFor(env, sc, entries, MessageLeaf(c, i));
    AskedForForward(env, sc, entries, MessageLeaf(c, i));
    ChosenChained(c, ReplacementsIn(entries), i);
  }

  /**
   Exactly when an evaluation that redacts leaves its caller's request as it was: when, in every message, what
   the run's redacting detectors ask for passes the one-pass test.
   */
  lemma RunKeepsRequestExactly(r: Response, request: Envelope, env: Env, sc: Scanner, policies: seq<CompiledPolicy>,
                               started: nat)
    requires Sound(sc) && RunsBuiltins(env.exec, sc) && forall p :: p in policies ==> WellFormed(p)
    requires RunPolicies(env, policies, started, 0).Completed?
    requires Reflects(r, RunPolicies(env, policies, started, 0), started, env.content) && r.transformed.Some?
    requires request.messages == r.transformed.value.messages
    requires View(request).(messages := env.content.messages) == env.content
    ensures var entries := Entries(RunPolicies(env, policies, started, 0).log);
            View(request) == env.content <==>
            (forall i :: 0 <= i < |env.content.messages| ==> MessageStays(entries, sc, env.content, i))
  {
    hide RunPolicies, Entries, StringLeaves, RedactedContent, ReplacementsIn, AskedFor, Judge, BuiltinEntries, Fits;
    hide RunsBuiltins, WellFormed, DetectorTimes, PolicyTimes, FindingsIn, FailuresIn, MessageStays, PassesAt;
    hide MessagesKept, Sound;
    var c, entries := env.content, Entries(RunPolicies(env, policies, started, 0).log);
    var items := ReplacementsIn(entries);
    BuiltinRunEntries(env, sc, policies, started, 0);
    ReplacementsFit(env, sc, entries);
    FittingIsUsable(c, items);
    MessagesKeptExactly(c, items);
    RequestKeptExactly(c, items);
    assert View(request).messages == RedactedContent(c, items).messages;
    forall i | 0 <= i < |c.messages| ensures PassesAt(c, items, i) <==> MessageStays(entries, sc, c, i) {
      MessageStaysIsPasses(env, sc, entries, i);
    }
  }
}
