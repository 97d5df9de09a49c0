/** The metrics service over any history of evaluations. */
module Observability {
  import opened Common
  import opened Metrics

  // ----- What a history adds up to -----

  function Bump<K>(m: map<K, nat>, key: K): map<K, nat> {
    m[key := (if key in m then m[key] else 0) + 1]
  }

  function EvaluationCounts(history: seq<Observation>): map<EvaluationKey, nat> {
    if history == [] then map[]
    else Bump(EvaluationCounts(history[..|history| - 1]), KeyOf(history[|history| - 1]))
  }

  function StageSamples(history: seq<Observation>): Samples {
    if history == [] then map[]
    else
      var last := history[|history| - 1];
      AddSample(StageSamples(history[..|history| - 1]), MetricStage(last.stage), Seconds(last.duration))
  }

  function BumpCategories(m: map<string, nat>, categories: seq<string>): map<string, nat> {
    if categories == [] then m
    else
      var last := |categories| - 1;
      Bump(BumpCategories(m, categories[..last]), BoundedLabel(categories[last], "unknown"))
  }

  function FindingCounts(history: seq<Observation>): map<string, nat> {
    if history == [] then map[]
    else BumpCategories(FindingCounts(history[..|history| - 1]), history[|history| - 1].findingCategories)
  }

  function BumpFailures(m: map<FailureKey, nat>, failures: seq<FailureSummary>): map<FailureKey, nat> {
    if failures == [] then m
    else
      var last := |failures| - 1;
      Bump(BumpFailures(m, failures[..last]), FailureKeyOf(failures[last]))
  }

  function FailureCounts(history: seq<Observation>): map<FailureKey, nat> {
    if history == [] then map[]
    else BumpFailures(FailureCounts(history[..|history| - 1]), history[|history| - 1].failures)
  }

  function OneTiming(id: string, milliseconds: int, name: string): multiset<real> {
    if BoundedLabel(id, "unknown") == name then multiset{FromMilliseconds(milliseconds)} else multiset{}
  }

  /** The timings reported under a label; several ids can share one. */
  ghost function LabelTimings(timings: map<string, int>, name: string): multiset<real> {
    if timings == map[] then multiset{}
    else
      var id :| id in timings;
      OneTiming(id, timings[id], name) + LabelTimings(timings - {id}, name)
  }

  /** The order in which the ids are taken does not matter. */
  lemma {:induction false} LabelTimingsWithout(timings: map<string, int>, id: string, name: string)
    requires id in timings
    ensures LabelTimings(timings, name) == OneTiming(id, timings[id], name) + LabelTimings(timings - {id}, name)
    decreases |timings|
  {
    hide OneTiming;
    var first :| first in timings && LabelTimings(timings, name)
                                     == OneTiming(first, timings[first], name) + LabelTimings(timings - {first}, name);
    if first != id {
      var a, b := timings - {first}, timings - {id};
      LabelTimingsWithout(a, id, name);
      LabelTimingsWithout(b, first, name);
      assert a - {id} == b - {first};
    }
  }

  ghost function DetectorSamples(history: seq<Observation>, name: string): multiset<real> {
    if history == [] then multiset{}
    else DetectorSamples(history[..|history| - 1], name) + LabelTimings(history[|history| - 1].detectorTimings, name)
  }

  /** A label's samples; a label has a histogram only once it has a sample. */
  ghost function SamplesOf(m: Samples, name: string): multiset<real> {
    if name in m then multiset(m[name]) else multiset{}
  }

  ghost predicate NoneEmpty(m: Samples) {
    forall name :: name in m ==> m[name] != []
  }

  lemma SampleAdded(m: Samples, key: string, value: real, name: string)
    ensures SamplesOf(AddSample(m, key, value), name) ==
      SamplesOf(m, name) + if name == key then multiset{value} else multiset{}
    ensures NoneEmpty(m) ==> NoneEmpty(AddSample(m, key, value))
  {
  }

  lemma HistoryStep(history: seq<Observation>, o: Observation)
    ensures var all := history + [o];
            && EvaluationCounts(all) == Bump(EvaluationCounts(history), KeyOf(o))
            && FindingCounts(all) == BumpCategories(FindingCounts(history), o.findingCategories)
            && FailureCounts(all) == BumpFailures(FailureCounts(history), o.failures)
            && StageSamples(all) == AddSample(StageSamples(history), MetricStage(o.stage), Seconds(o.duration))
            && forall name ::
                 DetectorSamples(all, name) == DetectorSamples(history, name) + LabelTimings(o.detectorTimings, name)
  {
    hide KeyOf, MetricStage, Seconds, Bump, BumpCategories, BumpFailures, AddSample, LabelTimings;
    assert (history + [o])[..|history + [o]| - 1] == history;
  }

  /** Every detector label holds the samples that the history reports under it. */
  ghost predicate HoldsTimings(m: Samples, history: seq<Observation>) {
    forall name :: SamplesOf(m, name) == DetectorSamples(history, name)
  }

  /** What reporting timings adds to the samples. */
  ghost predicate TimingsAdded(was: Samples, m: Samples, timings: map<string, int>) {
    forall name :: SamplesOf(m, name) == SamplesOf(was, name) + LabelTimings(timings, name)
  }

  lemma TimingsHeld(was: Samples, m: Samples, history: seq<Observation>, o: Observation)
    requires HoldsTimings(was, history) && TimingsAdded(was, m, o.detectorTimings)
    ensures HoldsTimings(m, history + [o])
  {
    hide SamplesOf, LabelTimings, DetectorSamples;
    HistoryStep(history, o);
  }

  // ----- The service -----

  class Service {
    const evaluationLatency: HistogramMap
    const detectorLatency: HistogramMap
    var evaluations: map<EvaluationKey, nat>
    var findings: map<string, nat>
    var failures: map<FailureKey, nat>
    ghost var history: seq<Observation>

    ghost predicate Separate()
      reads this, evaluationLatency, detectorLatency, evaluationLatency.Repr, detectorLatency.Repr
    {
      && evaluationLatency.Valid() && detectorLatency.Valid()
      && evaluationLatency in evaluationLatency.Repr && detectorLatency in detectorLatency.Repr
      && this !in evaluationLatency.Repr && this !in detectorLatency.Repr
      && evaluationLatency.Repr !! detectorLatency.Repr
    }

    /** Every counter and histogram is what the history adds up to. */
    ghost predicate Valid()
      reads this, evaluationLatency, detectorLatency, evaluationLatency.Repr, detectorLatency.Repr
    {
      && Separate()
      && evaluations == EvaluationCounts(history)
      && findings == FindingCounts(history)
      && failures == FailureCounts(history)
      && evaluationLatency.samples == StageSamples(history)
      && NoneEmpty(detectorLatency.samples)
      && HoldsTimings(detectorLatency.samples, history)
    }

    constructor ()
      ensures Valid() && history == []
      ensures fresh(evaluationLatency.Repr) && fresh(detectorLatency.Repr)
    {
      var stages := new HistogramMap();
      var detectors := new HistogramMap();
      evaluationLatency, detectorLatency := stages, detectors;
      evaluations, findings, failures := map[], map[], map[];
      history := [];
    }

    /** One evaluation's counters and histograms, updated together under the lock. */
    method RecordEvaluation(o: Observation)
      requires Valid()
      modifies this, evaluationLatency.Repr, detectorLatency.Repr
      ensures Valid() && history == old(history) + [o]
      ensures fresh(evaluationLatency.Repr - old(evaluationLatency.Repr))
      ensures fresh(detectorLatency.Repr - old(detectorLatency.Repr))
    {
      hide HistogramMap.Valid, KeyOf, MetricStage, Seconds, Bump, BumpCategories, BumpFailures, AddSample;
      hide HoldsTimings, TimingsAdded, NoneEmpty;
      hide EvaluationCounts, FindingCounts, FailureCounts, StageSamples, DetectorSamples;
      ghost var before, was := history, detectorLatency.samples;
      HistoryStep(before, o);
      evaluations := Bump(evaluations, KeyOf(o));
      evaluationLatency.ObserveHistogram(MetricStage(o.stage), Seconds(o.duration));
      assert Separate();
      CountCategories(o.findingCategories);
      CountFailures(o.failures);
      RecordTimings(o.detectorTimings);
      assert Separate();
      TimingsHeld(was, detectorLatency.samples, before, o);
      history := before + [o];
    }

    method CountCategories(categories: seq<string>)
      modifies this`findings
      ensures findings == BumpCategories(old(findings), categories)
    {
      hide Bump, BoundedLabel;
      assert categories[..0] == [];
      for i := 0 to |categories|
        invariant findings == BumpCategories(old(findings), categories[..i])
      {
        assert categories[..i + 1][..i] == categories[..i];
        findings := Bump(findings, BoundedLabel(categories[i], "unknown"));
      }
      assert categories[..|categories|] == categories;
    }

    method CountFailures(reported: seq<FailureSummary>)
      modifies this`failures
      ensures failures == BumpFailures(old(failures), reported)
    {
      hide Bump, FailureKeyOf;
      assert reported[..0] == [];
      for i := 0 to |reported|
        invariant failures == BumpFailures(old(failures), reported[..i])
      {
        assert reported[..i + 1][..i] == reported[..i];
        failures := Bump(failures, FailureKeyOf(reported[i]));
      }
      assert reported[..|reported|] == reported;
    }

    /** Observes every detector timing, in whatever order the runtime yields the ids. */
    method RecordTimings(timings: map<string, int>)
      requires detectorLatency.Valid() && detectorLatency in detectorLatency.Repr && NoneEmpty(detectorLatency.samples)
      modifies detectorLatency.Repr
      ensures detectorLatency in detectorLatency.Repr
      ensures detectorLatency.Valid() && fresh(detectorLatency.Repr - old(detectorLatency.Repr))
      ensures NoneEmpty(detectorLatency.samples)
      ensures TimingsAdded(old(detectorLatency.samples), detectorLatency.samples, timings)
    {
      hide HistogramMap.Valid, NoneEmpty, SamplesOf, AddSample, BoundedLabel, LabelTimings;
      var left := timings;
      while left != map[]
        invariant detectorLatency in detectorLatency.Repr
        invariant detectorLatency.Valid() && fresh(detectorLatency.Repr - old(detectorLatency.Repr))
        invariant NoneEmpty(detectorLatency.samples)
        invariant left.Keys <= timings.Keys && forall id :: id in left ==> left[id] == timings[id]
        invariant forall name :: SamplesOf(detectorLatency.samples, name) + LabelTimings(left, name)
                              == SamplesOf(old(detectorLatency.samples), name) + LabelTimings(timings, name)
        decreases |left|
      {
        var id :| id in left;
        var key, value := BoundedLabel(id, "unknown"), FromMilliseconds(left[id]);
        ghost var was := detectorLatency.samples;
        detectorLatency.ObserveHistogram(key, value);
        forall name
          ensures SamplesOf(detectorLatency.samples, name) + LabelTimings(left - {id}, name)
               == SamplesOf(was, name) + LabelTimings(left, name)
        {
          SampleAdded(was, key, value, name);
          LabelTimingsWithout(left, id, name);
        }
        SampleAdded(was, key, value, key);
        left := left - {id};
      }
      NoTimings();
    }
  }

  lemma NoTimings()
    ensures forall name :: LabelTimings(map[], name) == multiset{}
  {
  }

  // ----- Counters and histograms agree -----

  ghost function StageTotal(counts: map<EvaluationKey, nat>, stage: string): nat {
    if counts == map[] then 0
    else
      var key :| key in counts;
      (if key.stage == stage then counts[key] else 0) + StageTotal(counts - {key}, stage)
  }

  lemma {:induction false} StageTotalWithout(counts: map<EvaluationKey, nat>, key: EvaluationKey, stage: string)
    requires key in counts
    ensures StageTotal(counts, stage)
         == (if key.stage == stage then counts[key] else 0) + StageTotal(counts - {key}, stage)
    decreases |counts|
  {
    var first :| first in counts && StageTotal(counts, stage)
      == (if first.stage == stage then counts[first] else 0) + StageTotal(counts - {first}, stage);
    if first != key {
      var a, b := counts - {first}, counts - {key};
      StageTotalWithout(a, key, stage);
      StageTotalWithout(b, first, stage);
      assert a - {key} == b - {first};
    }
  }

  lemma BumpTotals(counts: map<EvaluationKey, nat>, key: EvaluationKey, stage: string)
    ensures StageTotal(Bump(counts, key), stage) == StageTotal(counts, stage) + if key.stage == stage then 1 else 0
  {
    var after := Bump(counts, key);
    StageTotalWithout(after, key, stage);
    assert after - {key} == counts - {key};
    if key in counts {
      StageTotalWithout(counts, key, stage);
    } else {
      assert counts - {key} == counts;
    }
  }

  /**
   Over any history, the number of latency samples of a stage is the sum of all evaluation counters with
   that stage: a histogram count and the counters never disagree.
   */
  lemma {:induction false} StageCountsAgree(history: seq<Observation>, stage: string)
    ensures StageTotal(EvaluationCounts(history), stage)
         == if stage in StageSamples(history) then |StageSamples(history)[stage]| else 0
  {
    hide StageTotal, MetricStage, MetricOutcome, MetricAction, Seconds, Bump;
    if history == [] {
      NoTotal(stage);
    } else {
      var last := |history| - 1;
      StageCountsAgree(history[..last], stage);
      BumpTotals(EvaluationCounts(history[..last]), KeyOf(history[last]), stage);
    }
  }

  lemma NoTotal(stage: string)
    ensures StageTotal(map[], stage) == 0
  {
  }

  // ----- Untrusted values create few keys -----

  lemma SubsetSize<T>(a: set<T>, b: set<T>)
    requires a <= b
    ensures |a| <= |b|
  {
    assert b == a + (b - a);
  }

  lemma ListedSize<T>(keys: set<T>, all: seq<T>)
    requires forall k :: k in keys ==> k in all
    ensures |keys| <= |all|
  {
    AtMostLength(all);
    SubsetSize(keys, set x | x in all);
  }

  /** Every evaluation key there can be. */
  function AllEvaluationKeys(): (keys: seq<EvaluationKey>)
    ensures |keys| == 135
  {
    seq(135, i requires 0 <= i < 135 => EvaluationKey(STAGES[i / 15], OUTCOMES[i % 15 / 5], ACTIONS[i % 5]))
  }

  lemma EvaluationKeyListed(s: nat, o: nat, a: nat)
    requires s < 9 && o < 3 && a < 5
    ensures EvaluationKey(STAGES[s], OUTCOMES[o], ACTIONS[a]) in AllEvaluationKeys()
  {
    var i := 15 * s + 5 * o + a;
    assert i / 15 == s && i % 15 / 5 == o && i % 5 == a;
    assert AllEvaluationKeys()[i] == EvaluationKey(STAGES[s], OUTCOMES[o], ACTIONS[a]);
  }

  function AllFailureKeys(): (keys: seq<FailureKey>)
    ensures |keys| == 28
  {
    seq(28, i requires 0 <= i < 28 => FailureKey(FAILURE_CODES[i / 4], FAILURE_MODES[i % 4]))
  }

  lemma KeyOfListed(o: Observation)
    ensures KeyOf(o) in AllEvaluationKeys()
  {
    hide AllEvaluationKeys, MetricStage, MetricOutcome, MetricAction;
    var key := KeyOf(o);
    var s :| 0 <= s < |STAGES| && STAGES[s] == key.stage;
    var u :| 0 <= u < |OUTCOMES| && OUTCOMES[u] == key.outcome;
    var a :| 0 <= a < |ACTIONS| && ACTIONS[a] == key.action;
    EvaluationKeyListed(s, u, a);
  }

  lemma FailureKeyListed(f: FailureSummary)
    ensures FailureKeyOf(f) in AllFailureKeys()
  {
    hide MetricFailureCode, MetricFailureMode;
    var key := FailureKeyOf(f);
    var c :| 0 <= c < |FAILURE_CODES| && FAILURE_CODES[c] == key.code;
    var m :| 0 <= m < |FAILURE_MODES| && FAILURE_MODES[m] == key.mode;
    var i := 4 * c + m;
    assert i / 4 == c && i % 4 == m;
    assert AllFailureKeys()[i] == key;
  }

  lemma {:induction false} KeysListed(history: seq<Observation>)
    ensures forall k :: k in EvaluationCounts(history) ==> k in AllEvaluationKeys()
    ensures forall k :: k in StageSamples(history) ==> k in STAGES
    ensures forall k :: k in FailureCounts(history) ==> k in AllFailureKeys()
  {
    hide AllEvaluationKeys, AllFailureKeys, KeyOf, BumpFailures;
    if history != [] {
      var last := |history| - 1;
      KeysListed(history[..last]);
      KeyOfListed(history[last]);
      FailureKeysListed(FailureCounts(history[..last]), history[last].failures);
    }
  }

  lemma {:induction false} FailureKeysListed(m: map<FailureKey, nat>, failures: seq<FailureSummary>)
    requires forall k :: k in m ==> k in AllFailureKeys()
    ensures forall k :: k in BumpFailures(m, failures) ==> k in AllFailureKeys()
  {
    hide AllFailureKeys, FailureKeyOf;
    if failures != [] {
      var last := |failures| - 1;
      FailureKeysListed(m, failures[..last]);
      FailureKeyListed(failures[last]);
    }
  }

  /** Whatever strings a history holds, it creates at most 135 evaluation keys, 9 stages and 28 failure keys. */
  lemma KeysAreBounded(history: seq<Observation>)
    ensures |EvaluationCounts(history)| <= 135
    ensures |StageSamples(history)| <= 9
    ensures |FailureCounts(history)| <= 28
  {
    hide AllEvaluationKeys, AllFailureKeys, EvaluationCounts, StageSamples, FailureCounts;
    KeysListed(history);
    ListedSize(EvaluationCounts(history).Keys, AllEvaluationKeys());
    ListedSize(StageSamples(history).Keys, STAGES);
    ListedSize(FailureCounts(history).Keys, AllFailureKeys());
  }

  /**
   What the exported numbers mean, for a service with any history: a stage's bucket counts the durations at
   or below its bound, its count is the number of evaluations counted for the stage, and its buckets grow
   towards the count.
   */
  lemma StageHistogramMeaning(s: Service, stage: string, i: nat)
    requires s.Valid() && stage in s.evaluationLatency.items && i < |LATENCY_BUCKETS|
    ensures var h := s.evaluationLatency.items[stage];
            && |h.buckets| == |LATENCY_BUCKETS|
            && h.buckets[i] == AtMost(StageSamples(s.history)[stage], LATENCY_BUCKETS[i])
            && h.count == StageTotal(s.evaluations, stage)
            && (i > 0 ==> h.buckets[i - 1] <= h.buckets[i]) && h.buckets[i] <= h.count
  {
    hide StageTotal, EvaluationCounts, StageSamples, AtMost, FindingCounts, FailureCounts, DetectorSamples, Sum;
    StageCountsAgree(s.history, stage);
    BucketsAscend();
    var samples := StageSamples(s.history)[stage];
    AtMostGrows(samples, LATENCY_BUCKETS[i], LATENCY_BUCKETS[i]);
    if i > 0 { AtMostGrows(samples, LATENCY_BUCKETS[i - 1], LATENCY_BUCKETS[i]); }
  }

  /** Bucket `i` is the number of samples at or below its bound. */
  ghost predicate CountsBelow(buckets: seq<nat>, listing: seq<real>, i: nat) {
    i < |buckets| && i < |LATENCY_BUCKETS| && buckets[i] == AtMost(listing, LATENCY_BUCKETS[i])
  }

  ghost predicate AllCountBelow(buckets: seq<nat>, listing: seq<real>) {
    forall i :: 0 <= i < |LATENCY_BUCKETS| ==> CountsBelow(buckets, listing, i)
  }

  /** The histogram describes these samples, in whatever order they are listed. */
  ghost predicate Describes(h: Histogram, listing: seq<real>)
    reads h
  {
    && h.count == |listing| && |h.buckets| == |LATENCY_BUCKETS|
    && AllCountBelow(h.buckets, listing) && Cumulative(h.buckets, h.count)
  }

  lemma BucketCounts(h: Histogram, samples: seq<real>, listing: seq<real>, i: nat)
    requires h.Holds(samples) && multiset(samples) == multiset(listing) && i < |LATENCY_BUCKETS|
    ensures CountsBelow(h.buckets, listing, i)
  {
    hide AtMost, Sum;
    AtMostPermuted(samples, listing, LATENCY_BUCKETS[i]);
  }

  lemma AllBucketsCount(h: Histogram, samples: seq<real>, listing: seq<real>)
    requires h.Holds(samples) && multiset(samples) == multiset(listing)
    ensures AllCountBelow(h.buckets, listing)
  {
    hide Histogram.Holds, CountsBelow;
    forall i | 0 <= i < |LATENCY_BUCKETS| ensures CountsBelow(h.buckets, listing, i) {
      BucketCounts(h, samples, listing, i);
    }
  }

  lemma HoldsSizes(h: Histogram, samples: seq<real>)
    requires h.Holds(samples)
    ensures h.count == |samples| && |h.buckets| == |LATENCY_BUCKETS|
  {
    hide AtMost, Sum;
  }

  lemma HoldsDescribes(h: Histogram, samples: seq<real>, listing: seq<real>)
    requires h.Holds(samples) && multiset(samples) == multiset(listing)
    ensures Describes(h, listing)
  {
    hide Histogram.Holds, AllCountBelow, Cumulative;
    assert |samples| == |multiset(samples)| == |multiset(listing)| == |listing|;
    HoldsSizes(h, samples);
    BucketsAreCumulative(h, samples);
    AllBucketsCount(h, samples, listing);
  }

  lemma DetectorSamplesHeld(s: Service, name: string)
    requires s.Valid()
    ensures s.detectorLatency.items.Keys == s.detectorLatency.samples.Keys
    ensures SamplesOf(s.detectorLatency.samples, name) == DetectorSamples(s.history, name)
    ensures NoneEmpty(s.detectorLatency.samples)
    ensures name in s.detectorLatency.items ==>
              s.detectorLatency.items[name].Holds(s.detectorLatency.samples[name])
  {
    hide EvaluationCounts, StageSamples, FindingCounts, FailureCounts, DetectorSamples, Histogram.Holds, SamplesOf;
  }

  /**
   The same for the detectors: a label has a histogram exactly when some timing was reported under it, and
   however those timings are listed, each bucket is the number of them at or below its bound and the count is
   their number.
   */
  lemma DetectorHistogramMeaning(s: Service, name: string, listing: seq<real>)
    requires s.Valid() && multiset(listing) == DetectorSamples(s.history, name)
    ensures name in s.detectorLatency.items <==> listing != []
    ensures name in s.detectorLatency.items ==> Describes(s.detectorLatency.items[name], listing)
  {
    hide DetectorSamples, Describes, Service.Valid, Histogram.Holds;
    DetectorSamplesHeld(s, name);
    var samples := s.detectorLatency.samples;
    if name in samples {
      assert multiset(samples[name]) == multiset(listing);
      assert |samples[name]| == |multiset(samples[name])| == |multiset(listing)| == |listing|;
      HoldsDescribes(s.detectorLatency.items[name], samples[name], listing);
    } else {
      assert |multiset(listing)| == |listing|;
    }
  }
}
