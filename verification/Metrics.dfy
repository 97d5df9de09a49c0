/** The metrics state: counters and cumulative histograms updated together for each evaluation. */
module Metrics {
  // ----- Bounded labels -----

  const STAGES: seq<string> := ["pre_request", "pre_model", "post_model", "pre_tool", "post_tool",
                                "pre_retrieval", "post_retrieval", "ingestion", "unknown"]
  const OUTCOMES: seq<string> := ["completed", "rejected", "unknown"]
  const ACTIONS: seq<string> := ["allow", "block", "redact", "monitor", "none"]
  const FAILURE_CODES: seq<string> := ["POLICY_TIMEOUT", "DETECTOR_TIMEOUT", "DETECTOR_UNAVAILABLE",
                                       "DETECTOR_INVALID_RESPONSE", "DETECTOR_UNSUPPORTED_INPUT",
                                       "DETECTOR_INTERNAL_ERROR", "unknown"]
  const FAILURE_MODES: seq<string> := ["open", "closed", "monitor", "unknown"]

  function MetricStage(value: string): (r: string)
    ensures r in STAGES && (value in STAGES ==> r == value) && (value !in STAGES ==> r == "unknown")
  {
    if value in {"pre_request", "pre_model", "post_model", "pre_tool", "post_tool",
                 "pre_retrieval", "post_retrieval", "ingestion"} then value
    else STAGES[8]
  }

  function MetricOutcome(value: string): (r: string)
    ensures r in OUTCOMES && (value in OUTCOMES ==> r == value) && (value !in OUTCOMES ==> r == "unknown")
  {
    if value == "completed" || value == "rejected" then value else OUTCOMES[2]
  }

  function MetricAction(value: string): (r: string)
    ensures r in ACTIONS && (value in ACTIONS ==> r == value) && (value !in ACTIONS ==> r == "none")
  {
    if value in {"allow", "block", "redact", "monitor"} then value else ACTIONS[4]
  }

  function MetricFailureCode(value: string): (r: string)
    ensures r in FAILURE_CODES && (value in FAILURE_CODES ==> r == value)
    ensures value !in FAILURE_CODES ==> r == "unknown"
  {
    if value in {"POLICY_TIMEOUT", "DETECTOR_TIMEOUT", "DETECTOR_UNAVAILABLE", "DETECTOR_INVALID_RESPONSE",
                 "DETECTOR_UNSUPPORTED_INPUT", "DETECTOR_INTERNAL_ERROR"} then value
    else FAILURE_CODES[6]
  }

  function MetricFailureMode(value: string): (r: string)
    ensures r in FAILURE_MODES && (value in FAILURE_MODES ==> r == value)
    ensures value !in FAILURE_MODES ==> r == "unknown"
  {
    if value == "open" || value == "closed" || value == "monitor" then value else FAILURE_MODES[3]
  }

  function BoundedLabel(value: string, fallback: string): (r: string)
    ensures 0 < |fallback| <= 128 ==> 0 < |r| <= 128
    ensures 0 < |value| <= 128 ==> r == value
    ensures value == "" ==> r == fallback
    ensures |value| > 128 ==> r == "oversized"
  {
    if value == "" then fallback else if |value| > 128 then "oversized" else value
  }

  // ----- Observations -----

  datatype FailureSummary = FailureSummary(code: string, mode: string)

  /** What one evaluation reports; the duration is in nanoseconds, detector timings in milliseconds. */
  datatype Observation = Observation(
    stage: string, outcome: string, action: string, duration: int,
    findingCategories: seq<string>, detectorTimings: map<string, int>, failures: seq<FailureSummary>)

  datatype EvaluationKey = EvaluationKey(stage: string, outcome: string, action: string)

  datatype FailureKey = FailureKey(code: string, mode: string)

  function KeyOf(o: Observation): EvaluationKey {
    EvaluationKey(MetricStage(o.stage), MetricOutcome(o.outcome), MetricAction(o.action))
  }

  function FailureKeyOf(f: FailureSummary): FailureKey {
    FailureKey(MetricFailureCode(f.code), MetricFailureMode(f.mode))
  }

  function Seconds(nanoseconds: int): real {
    nanoseconds as real / 1000000000.0
  }

  function FromMilliseconds(milliseconds: int): real {
    milliseconds as real / 1000.0
  }

  // ----- Histograms -----

  const LATENCY_BUCKETS: seq<real> := [0.001, 0.005, 0.01, 0.025, 0.05, 0.1, 0.25, 0.5, 1.0, 2.5, 5.0, 10.0]

  function AtMost(samples: seq<real>, bound: real): nat {
    if samples == [] then 0
    else AtMost(samples[..|samples| - 1], bound) + if samples[|samples| - 1] <= bound then 1 else 0
  }

  function Sum(samples: seq<real>): real {
    if samples == [] then 0.0 else Sum(samples[..|samples| - 1]) + samples[|samples| - 1]
  }

  class Histogram {
    var buckets: seq<nat>
    var count: nat
    var sum: real

    /** The histogram is the one of these samples. */
    ghost predicate Holds(samples: seq<real>)
      reads this
    {
      && |buckets| == |LATENCY_BUCKETS|
      && (forall i :: 0 <= i < |buckets| ==> buckets[i] == AtMost(samples, LATENCY_BUCKETS[i]))
      && count == |samples| && sum == Sum(samples)
    }

    constructor ()
      ensures Holds([])
    {
      buckets, count, sum := seq(|LATENCY_BUCKETS|, _ => 0), 0, 0.0;
    }

    method Observe(value: real, ghost samples: seq<real>)
      requires Holds(samples)
      modifies this
      ensures Holds(samples + [value])
    {
      ghost var after := samples + [value];
      assert after[..|after| - 1] == samples;
      count := count + 1;
      sum := sum + value;
      for index := 0 to |LATENCY_BUCKETS|
        invariant count == |after| && sum == Sum(after) && |buckets| == |LATENCY_BUCKETS|
        invariant forall i :: 0 <= i < index ==> buckets[i] == AtMost(after, LATENCY_BUCKETS[i])
        invariant forall i :: index <= i < |buckets| ==> buckets[i] == AtMost(samples, LATENCY_BUCKETS[i])
      {
        if value <= LATENCY_BUCKETS[index] {
          buckets := buckets[index := buckets[index] + 1];
        }
      }
    }
  }

  lemma {:induction false} AtMostGrows(samples: seq<real>, low: real, high: real)
    requires low <= high
    ensures AtMost(samples, low) <= AtMost(samples, high) <= |samples|
  {
    if samples != [] { AtMostGrows(samples[..|samples| - 1], low, high); }
  }

  lemma {:induction false} AtMostConcat(a: seq<real>, b: seq<real>, bound: real)
    ensures AtMost(a + b, bound) == AtMost(a, bound) + AtMost(b, bound)
  {
    if b == [] {
      assert a + b == a;
    } else {
      var last := |b| - 1;
      assert (a + b)[..|a + b| - 1] == a + b[..last];
      AtMostConcat(a, b[..last], bound);
    }
  }

  lemma AtMostWithout(s: seq<real>, i: nat, bound: real)
    requires i < |s|
    ensures multiset(s[..i] + s[i + 1..]) == multiset(s) - multiset{s[i]}
    ensures AtMost(s, bound) == AtMost(s[..i] + s[i + 1..], bound) + if s[i] <= bound then 1 else 0
  {
    var before, x, after := s[..i], s[i], s[i + 1..];
    assert s == before + [x] + after;
    AtMostConcat(before + [x], after, bound);
    AtMostConcat(before, after, bound);
    assert (before + [x])[..i] == before;
  }

  /** How many samples lie at or below a bound does not depend on the order they are listed in. */
  lemma {:induction false} AtMostPermuted(a: seq<real>, b: seq<real>, bound: real)
    requires multiset(a) == multiset(b)
    ensures AtMost(a, bound) == AtMost(b, bound)
  {
    hide AtMost;
    assert |a| == |multiset(a)| == |multiset(b)| == |b|;
    if a == [] {
      assert b == [];
    } else {
      assert a[0] in multiset(b);
      var i :| 0 <= i < |b| && b[i] == a[0];
      AtMostWithout(a, 0, bound);
      AtMostWithout(b, i, bound);
      AtMostPermuted(a[..0] + a[1..], b[..i] + b[i + 1..], bound);
    }
  }

  /** Each bucket holds at least what the ones before it hold, and none more than the count. */
  ghost predicate Cumulative(buckets: seq<nat>, count: nat) {
    forall i, j :: 0 <= i < j < |buckets| ==> buckets[i] <= buckets[j] <= count
  }

  /** Buckets grow with their bounds and never exceed the count. */
  lemma BucketsAreCumulative(h: Histogram, samples: seq<real>)
    requires h.Holds(samples)
    ensures Cumulative(h.buckets, h.count)
  {
    BucketsAscend();
    forall i, j | 0 <= i < j < |h.buckets| ensures h.buckets[i] <= h.buckets[j] <= h.count {
      AtMostGrows(samples, LATENCY_BUCKETS[i], LATENCY_BUCKETS[j]);
    }
  }

  lemma BucketsAscend()
    ensures forall i, j :: 0 <= i < j < |LATENCY_BUCKETS| ==> LATENCY_BUCKETS[i] < LATENCY_BUCKETS[j]
  {
  }

  type Samples = map<string, seq<real>>

  function AddSample(m: Samples, key: string, value: real): Samples {
    m[key := (if key in m then m[key] else []) + [value]]
  }

  function WithKey(m: Samples, key: string): (r: Samples)
    ensures key in r
  {
    if key in m then m else m[key := []]
  }

  lemma AddToKey(m: Samples, key: string, value: real)
    ensures WithKey(m, key)[key := WithKey(m, key)[key] + [value]] == AddSample(m, key, value)
  {
  }

  /** A map from label to histogram, shared by reference. */
  class HistogramMap {
    var items: map<string, Histogram>
    ghost var samples: Samples
    ghost var Repr: set<object>

    ghost predicate Valid()
      reads this, Repr
    {
      && this in Repr
      && items.Keys == samples.Keys
      && (forall k :: k in items ==> items[k] in Repr && items[k].Holds(samples[k]))
      && (forall k, l :: k in items && l in items && k != l ==> items[k] != items[l])
    }

    constructor ()
      ensures Valid() && samples == map[] && fresh(Repr)
    {
      items, samples, Repr := map[], map[], {this};
    }

    /** Adds a value to the histogram of a label, which is made on first use. */
    method ObserveHistogram(key: string, value: real)
      requires Valid()
      modifies Repr
      ensures Valid() && this in Repr && fresh(Repr - old(Repr)) && samples == AddSample(old(samples), key, value)
    {
      hide Histogram.Holds, AddSample, WithKey;
      AddToKey(samples, key, value);
      EnsureKey(key);
      ghost var before := samples;
      var h := items[key];
      h.Observe(value, before[key]);
      samples := before[key := before[key] + [value]];
    }

    method EnsureKey(key: string)
      requires Valid()
      modifies this
      ensures Valid() && fresh(Repr - old(Repr)) && old(Repr) <= Repr
      ensures samples == WithKey(old(samples), key)
    {
      hide Histogram.Holds;
      if key !in items {
        var h := new Histogram();
        items := items[key := h];
        samples := samples[key := []];
        Repr := Repr + {h};
      }
    }
  }
}
