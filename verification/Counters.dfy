/** What the numbers of the metrics service count, in terms of the observations it was given. */
module Counters {
  import opened Metrics
  import opened Observability

  function CountOf<K>(counts: map<K, nat>, key: K): nat {
    if key in counts then counts[key] else 0
  }

  // ----- Counting -----

  /** How many items of a list meet a condition. */
  ghost function Count<T(!new)>(s: seq<T>, p: T -> bool): nat {
    |set k | 0 <= k < |s| && p(s[k])|
  }

  lemma CountStep<T(!new)>(s: seq<T>, p: T -> bool)
    requires s != []
    ensures Count(s, p) == Count(s[..|s| - 1], p) + if p(s[|s| - 1]) then 1 else 0
  {
    var last := |s| - 1;
    var before := set k | 0 <= k < last && p(s[..last][k]);
    assert (set k | 0 <= k < |s| && p(s[k])) == before + (if p(s[last]) then {last} else {});
  }

  lemma CountNothing<T(!new)>(p: T -> bool)
    ensures Count([], p) == 0
  {
    var s: seq<T> := [];
    assert (set k | 0 <= k < |s| && p(s[k])) == {};
  }

  /** How many entries of a map meet a condition. */
  ghost function CountEntries(m: map<string, int>, p: (string, int) -> bool): nat {
    |set id | id in m && p(id, m[id])|
  }

  lemma CountEntriesStep(m: map<string, int>, p: (string, int) -> bool, id: string)
    requires id in m
    ensures CountEntries(m, p) == CountEntries(m - {id}, p) + if p(id, m[id]) then 1 else 0
  {
    var rest := m - {id};
    var others := set x | x in rest && p(x, rest[x]);
    assert (set x | x in m && p(x, m[x])) == others + (if p(id, m[id]) then {id} else {});
  }

  lemma CountNoEntries(p: (string, int) -> bool)
    ensures CountEntries(map[], p) == 0
  {
    var m: map<string, int> := map[];
    assert (set id | id in m && p(id, m[id])) == {};
  }

  /** The sum over all observations of what each of them counts for. */
  ghost function Tally(history: seq<Observation>, count: Observation -> nat): nat {
    if history == [] then 0 else Tally(history[..|history| - 1], count) + count(history[|history| - 1])
  }

  // ----- Evaluations -----

  /** The observation has these three labels. */
  function Labelled(stage: string, outcome: string, action: string): Observation -> bool {
    (o: Observation) =>
      MetricStage(o.stage) == stage && MetricOutcome(o.outcome) == outcome && MetricAction(o.action) == action
  }

  /** An evaluation counter is the number of observations with its stage, its outcome and its action. */
  lemma {:induction false} EvaluationCounterMeaning(history: seq<Observation>, stage: string, outcome: string,
                                                    action: string)
    ensures CountOf(EvaluationCounts(history), EvaluationKey(stage, outcome, action))
         == Count(history, Labelled(stage, outcome, action))
  {
    hide MetricStage, MetricOutcome, MetricAction, Count;
    if history == [] {
      CountNothing(Labelled(stage, outcome, action));
    } else {
      EvaluationCounterMeaning(history[..|history| - 1], stage, outcome, action);
      CountStep(history, Labelled(stage, outcome, action));
    }
  }

  // ----- Findings and failures -----

  /** The category has this label. */
  function CategoryLabelled(name: string): string -> bool {
    (category: string) => BoundedLabel(category, "unknown") == name
  }

  lemma {:induction false} CategoriesCounted(m: map<string, nat>, categories: seq<string>, name: string)
    ensures CountOf(BumpCategories(m, categories), name)
         == CountOf(m, name) + Count(categories, CategoryLabelled(name))
  {
    hide BoundedLabel, Count;
    if categories == [] {
      CountNothing(CategoryLabelled(name));
    } else {
      CategoriesCounted(m, categories[..|categories| - 1], name);
      CountStep(categories, CategoryLabelled(name));
    }
  }

  /** A finding counter is the number of findings reported under its label. */
  lemma {:induction false} FindingCounterMeaning(history: seq<Observation>, name: string)
    ensures CountOf(FindingCounts(history), name)
         == Tally(history, (o: Observation) => Count(o.findingCategories, CategoryLabelled(name)))
  {
    hide BumpCategories, Count, CategoryLabelled;
    if history != [] {
      var last := |history| - 1;
      FindingCounterMeaning(history[..last], name);
      CategoriesCounted(FindingCounts(history[..last]), history[last].findingCategories, name);
    }
  }

  /** The failure has these two labels. */
  function FailureLabelled(code: string, mode: string): FailureSummary -> bool {
    (f: FailureSummary) => MetricFailureCode(f.code) == code && MetricFailureMode(f.mode) == mode
  }

  lemma {:induction false} FailuresCounted(m: map<FailureKey, nat>, failures: seq<FailureSummary>,
                                           code: string, mode: string)
    ensures CountOf(BumpFailures(m, failures), FailureKey(code, mode))
         == CountOf(m, FailureKey(code, mode)) + Count(failures, FailureLabelled(code, mode))
  {
    hide MetricFailureCode, MetricFailureMode, Count;
    if failures == [] {
      CountNothing(FailureLabelled(code, mode));
    } else {
      FailuresCounted(m, failures[..|failures| - 1], code, mode);
      CountStep(failures, FailureLabelled(code, mode));
    }
  }

  /** A failure counter is the number of failures reported with its code and its mode. */
  lemma {:induction false} FailureCounterMeaning(history: seq<Observation>, code: string, mode: string)
    ensures CountOf(FailureCounts(history), FailureKey(code, mode))
         == Tally(history, (o: Observation) => Count(o.failures, FailureLabelled(code, mode)))
  {
    hide BumpFailures, Count, FailureLabelled;
    if history != [] {
      var last := |history| - 1;
      FailureCounterMeaning(history[..last], code, mode);
      FailuresCounted(FailureCounts(history[..last]), history[last].failures, code, mode);
    }
  }

  /** What the counters of a service hold, whatever it was given. */
  lemma ServiceCounters(s: Service, stage: string, outcome: string, action: string, category: string,
                        code: string, mode: string)
    requires s.Valid()
    ensures CountOf(s.evaluations, EvaluationKey(stage, outcome, action))
         == Count(s.history, Labelled(stage, outcome, action))
    ensures CountOf(s.findings, category)
         == Tally(s.history, (o: Observation) => Count(o.findingCategories, CategoryLabelled(category)))
    ensures CountOf(s.failures, FailureKey(code, mode))
         == Tally(s.history, (o: Observation) => Count(o.failures, FailureLabelled(code, mode)))
  {
    hide EvaluationCounts, FindingCounts, FailureCounts, StageSamples, HoldsTimings, Count, CountOf, Tally;
    hide Labelled, CategoryLabelled, FailureLabelled;
    EvaluationCounterMeaning(s.history, stage, outcome, action);
    FindingCounterMeaning(s.history, category);
    FailureCounterMeaning(s.history, code, mode);
  }

  // ----- Latencies -----

  /** The upper bound of a bucket in milliseconds. */
  function BoundOf(i: nat): int {
    match i
    case 0 => 1
    case 1 => 5
    case 2 => 10
    case 3 => 25
    case 4 => 50
    case 5 => 100
    case 6 => 250
    case 7 => 500
    case 8 => 1_000
    case 9 => 2_500
    case 10 => 5_000
    case _ => 10_000
  }

  lemma SecondsBelow(nanoseconds: int, i: nat)
    requires i < 12
    ensures Seconds(nanoseconds) <= LATENCY_BUCKETS[i] <==> nanoseconds <= BoundOf(i) * 1_000_000
  {
    var n := nanoseconds as real;
    assert LATENCY_BUCKETS[i] * 1000000000.0 == (BoundOf(i) * 1_000_000) as real;
    assert Seconds(nanoseconds) * 1000000000.0 == n;
  }

  lemma MillisecondsBelow(milliseconds: int, i: nat)
    requires i < 12
    ensures FromMilliseconds(milliseconds) <= LATENCY_BUCKETS[i] <==> milliseconds <= BoundOf(i)
  {
    assert LATENCY_BUCKETS[i] * 1000.0 == BoundOf(i) as real;
    assert FromMilliseconds(milliseconds) * 1000.0 == milliseconds as real;
  }

  /** The observation is of this stage and took no longer than the bound of a bucket. */
  function TookWithin(stage: string, i: nat): Observation -> bool {
    (o: Observation) => MetricStage(o.stage) == stage && o.duration <= BoundOf(i) * 1_000_000
  }

  lemma {:induction false} StageSamplesBelow(history: seq<Observation>, stage: string, i: nat)
    requires i < 12
    ensures (if stage in StageSamples(history) then AtMost(StageSamples(history)[stage], LATENCY_BUCKETS[i]) else 0)
         == Count(history, TookWithin(stage, i))
  {
    hide MetricStage, Seconds, BoundOf, Count, AtMost, AddSample;
    if history == [] {
      CountNothing(TookWithin(stage, i));
    } else {
      var before, o := history[..|history| - 1], history[|history| - 1];
      StageSamplesBelow(before, stage, i);
      SecondsBelow(o.duration, i);
      StageSampleAdded(StageSamples(before), MetricStage(o.stage), Seconds(o.duration), stage, i);
      CountStep(history, TookWithin(stage, i));
    }
  }

  lemma StageSampleAdded(m: Samples, key: string, value: real, stage: string, i: nat)
    requires i < 12
    ensures var after := AddSample(m, key, value);
            (if stage in after then AtMost(after[stage], LATENCY_BUCKETS[i]) else 0) ==
            (if stage in m then AtMost(m[stage], LATENCY_BUCKETS[i]) else 0) +
            if stage == key && value <= LATENCY_BUCKETS[i] then 1 else 0
  {
    var old_ := if key in m then m[key] else [];
    assert (old_ + [value])[..|old_ + [value]| - 1] == old_;
  }

  /**
   A stage's latency bucket is the number of evaluations of that stage that took no longer than its bound,
   durations being nanoseconds and bounds 1, 5, 10, ... milliseconds.
   */
  lemma StageBucketMeaning(s: Service, stage: string, i: nat)
    requires s.Valid() && stage in s.evaluationLatency.items && i < 12
    ensures |s.evaluationLatency.items[stage].buckets| == 12
    ensures s.evaluationLatency.items[stage].buckets[i] == Count(s.history, TookWithin(stage, i))
  {
    hide AtMost, Count, TookWithin, StageTotal, EvaluationCounts, FindingCounts, FailureCounts, StageSamples, Sum;
    hide HoldsTimings;
    StageHistogramMeaning(s, stage, i);
    StageSamplesBelow(s.history, stage, i);
    StageHeld(s, stage);
  }

  lemma StageHeld(s: Service, stage: string)
    requires s.Valid() && stage in s.evaluationLatency.items
    ensures stage in StageSamples(s.history)
  {
    hide StageSamples, EvaluationCounts, FindingCounts, FailureCounts, HoldsTimings, Histogram.Holds;
  }

  // ----- Detector latencies -----

  /** The timing was reported under this label, and is no longer than the bound of a bucket. */
  function TimingWithin(name: string, i: nat): (string, int) -> bool {
    (id: string, ms: int) => BoundedLabel(id, "unknown") == name && ms <= BoundOf(i)
  }

  function TimingLabelled(name: string): (string, int) -> bool {
    (id: string, ms: int) => BoundedLabel(id, "unknown") == name
  }

  lemma AtMostOne(below: seq<real>, value: real, bound: real)
    ensures AtMost(below + [value], bound) == AtMost(below, bound) + if value <= bound then 1 else 0
  {
    assert (below + [value])[..|below + [value]| - 1] == below;
  }

  /** Some listing of the timings of an observation under a label. */
  lemma {:induction false} TimingsListed(timings: map<string, int>, name: string, i: nat) returns (listing: seq<real>)
    requires i < 12
    ensures multiset(listing) == LabelTimings(timings, name)
    ensures AtMost(listing, LATENCY_BUCKETS[i]) == CountEntries(timings, TimingWithin(name, i))
    ensures |listing| == CountEntries(timings, TimingLabelled(name))
    decreases |timings|
  {
    hide BoundedLabel, FromMilliseconds, BoundOf, CountEntries, AtMost, LabelTimings;
    listing := [];
    if timings == map[] {
      NoTimings();
      CountNoEntries(TimingWithin(name, i));
      CountNoEntries(TimingLabelled(name));
      NothingAtMost(LATENCY_BUCKETS[i]);
    } else {
      var id :| id in timings;
      listing := TimingsListed(timings - {id}, name, i);
      LabelTimingsWithout(timings, id, name);
      MillisecondsBelow(timings[id], i);
      CountEntriesStep(timings, TimingWithin(name, i), id);
      CountEntriesStep(timings, TimingLabelled(name), id);
      if BoundedLabel(id, "unknown") == name {
        AtMostOne(listing, FromMilliseconds(timings[id]), LATENCY_BUCKETS[i]);
        listing := listing + [FromMilliseconds(timings[id])];
      }
    }
  }

  lemma NothingAtMost(bound: real)
    ensures AtMost([], bound) == 0
  {
  }

  lemma {:induction false} DetectorSamplesListed(history: seq<Observation>, name: string, i: nat)
    returns (listing: seq<real>)
    requires i < 12
    ensures multiset(listing) == DetectorSamples(history, name)
    ensures AtMost(listing, LATENCY_BUCKETS[i])
         == Tally(history, (o: Observation) => CountEntries(o.detectorTimings, TimingWithin(name, i)))
    ensures |listing| == Tally(history, (o: Observation) => CountEntries(o.detectorTimings, TimingLabelled(name)))
  {
    hide LabelTimings, TimingWithin, TimingLabelled, CountEntries;
    listing := [];
    if history != [] {
      var last := |history| - 1;
      var before := DetectorSamplesListed(history[..last], name, i);
      var own := TimingsListed(history[last].detectorTimings, name, i);
      listing := before + own;
      AtMostConcat(before, own, LATENCY_BUCKETS[i]);
    }
  }

  /**
   A detector label's latency bucket is the number of timings reported under that label, over all observations,
   that are no longer than its bound; and its count is the number of timings reported under it.
   */
  lemma DetectorBucketMeaning(s: Service, name: string, i: nat)
    requires s.Valid() && name in s.detectorLatency.items && i < 12
    ensures var h := s.detectorLatency.items[name];
            && |h.buckets| == 12
            && h.buckets[i]
            == Tally(s.history, (o: Observation) => CountEntries(o.detectorTimings, TimingWithin(name, i)))
            && h.count == Tally(s.history, (o: Observation) => CountEntries(o.detectorTimings, TimingLabelled(name)))
  {
    hide Service.Valid, AtMost, TimingWithin, TimingLabelled, CountEntries, DetectorSamples, Tally, Cumulative;
    var listing := DetectorSamplesListed(s.history, name, i);
    DetectorHistogramMeaning(s, name, listing);
    assert CountsBelow(s.detectorLatency.items[name].buckets, listing, i);
  }

  // ----- Sums -----

  function Nanoseconds(history: seq<Observation>, stage: string): int {
    if history == [] then 0
    else
      var o := history[|history| - 1];
      Nanoseconds(history[..|history| - 1], stage) + if MetricStage(o.stage) == stage then o.duration else 0
  }

  lemma {:induction false} StageSamplesSum(history: seq<Observation>, stage: string)
    ensures (if stage in StageSamples(history) then Sum(StageSamples(history)[stage]) else 0.0) * 1000000000.0
         == Nanoseconds(history, stage) as real
  {
    hide MetricStage;
    if history != [] {
      var last := |history| - 1;
      var before, o := StageSamples(history[..last]), history[last];
      StageSamplesSum(history[..last], stage);
      if MetricStage(o.stage) == stage {
        var old_ := if stage in before then before[stage] else [];
        assert (old_ + [Seconds(o.duration)])[..|old_|] == old_;
        assert Seconds(o.duration) * 1000000000.0 == o.duration as real;
      }
    }
  }

  /** A stage's latency sum is the time its evaluations took, in seconds. */
  lemma StageSumMeaning(s: Service, stage: string)
    requires s.Valid() && stage in s.evaluationLatency.items
    ensures s.evaluationLatency.items[stage].sum * 1000000000.0 == Nanoseconds(s.history, stage) as real
  {
    hide AtMost, EvaluationCounts, FindingCounts, FailureCounts, StageSamples, Sum, HoldsTimings, Nanoseconds;
    StageSamplesSum(s.history, stage);
    StageHeld(s, stage);
  }
}
