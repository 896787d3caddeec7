/** The metrics registry (rice_factor/adapters/metrics/prometheus_adapter.py): counters and
histograms, one series per label map. Values are real numbers. */
module Metrics {
  import opened Sequences
  import opened MetricLabels

  datatype Kind = Counter | Gauge | Histogram

  datatype Definition = Definition(kind: Kind, buckets: seq<real>)

  datatype HistogramValue = HistogramValue(labels: Labels, buckets: map<real, nat>, sum: real, count: nat)

  datatype Status = Done | NotRegistered | WrongKind

  // ---------- one histogram ----------

  function ZeroBuckets(bounds: seq<real>): map<real, nat> {
    map b | b in bounds :: 0
  }

  function NewHistogram(labels: Labels, bounds: seq<real>): HistogramValue {
    HistogramValue(labels, ZeroBuckets(bounds), 0.0, 0)
  }

  /** How often b is among the first k bounds. */
  function Times(b: real, bounds: seq<real>, k: nat): nat
    requires k <= |bounds|
  {
    if k == 0 then 0 else Times(b, bounds, k - 1) + if bounds[k - 1] == b then 1 else 0
  }

  /** The loop over the bounds adds one per occurrence of a bound that the value does not exceed. */
  function Bumped(buckets: map<real, nat>, bounds: seq<real>, k: nat, value: real): map<real, nat>
    requires k <= |bounds|
  {
    map b | b in buckets :: buckets[b] + if value <= b then Times(b, bounds, k) else 0
  }

  function Observed(h: HistogramValue, bounds: seq<real>, value: real): HistogramValue {
    HistogramValue(h.labels, Bumped(h.buckets, bounds, |bounds|, value), h.sum + value, h.count + 1)
  }

  function ObserveAll(h: HistogramValue, bounds: seq<real>, values: seq<real>): HistogramValue {
    if values == [] then h
    else Observed(ObserveAll(h, bounds, values[..|values| - 1]), bounds, values[|values| - 1])
  }

  function AtMost(b: real): real -> bool { (v: real) => v <= b }

  function Sum(values: seq<real>): real {
    if values == [] then 0.0 else Sum(values[..|values| - 1]) + values[|values| - 1]
  }

  lemma ObserveOneMore(h: HistogramValue, bounds: seq<real>, values: seq<real>, v: real)
    ensures ObserveAll(h, bounds, values + [v]) == Observed(ObserveAll(h, bounds, values), bounds, v)
  {
    assert (values + [v])[..|values|] == values;
  }

  lemma {:induction false} TotalsCount(labels: Labels, bounds: seq<real>, values: seq<real>)
    ensures var h := ObserveAll(NewHistogram(labels, bounds), bounds, values);
      h.buckets.Keys == (set b | b in bounds) && h.sum == Sum(values) && h.count == |values| && h.labels == labels
  {
    if values != [] {
      TotalsCount(labels, bounds, values[..|values| - 1]);
    }
  }

  lemma MultiplyOneMore(t: nat, n: nat)
    ensures t * (n + 1) == t * n + t
  {}

  lemma {:induction false} BucketCount(labels: Labels, bounds: seq<real>, values: seq<real>, b: real)
    requires b in bounds
    ensures var h := ObserveAll(NewHistogram(labels, bounds), bounds, values);
      b in h.buckets && h.buckets[b] == Times(b, bounds, |bounds|) * |Filter(AtMost(b), values)|
  {
    if values != [] {
      var before, v := values[..|values| - 1], values[|values| - 1];
      BucketCount(labels, bounds, before, b);
      assert values == before + [v] && [v][1..] == [];
      FilterConcat(AtMost(b), before, [v]);
      MultiplyOneMore(Times(b, bounds, |bounds|), |Filter(AtMost(b), before)|);
    }
  }

  /** After any observations every bucket holds the number of observations at or below its bound,
  once per occurrence of the bound in the definition, so for distinct bounds exactly that number. */
  lemma BucketsCount(labels: Labels, bounds: seq<real>, values: seq<real>)
    ensures var h := ObserveAll(NewHistogram(labels, bounds), bounds, values);
      && h.buckets.Keys == (set b | b in bounds)
      && (forall b :: b in h.buckets ==> h.buckets[b] == Times(b, bounds, |bounds|) * |Filter(AtMost(b), values)|)
      && h.sum == Sum(values) && h.count == |values| && h.labels == labels
  {
    TotalsCount(labels, bounds, values);
    forall b | b in bounds
      ensures ObserveAll(NewHistogram(labels, bounds), bounds, values).buckets[b]
           == Times(b, bounds, |bounds|) * |Filter(AtMost(b), values)|
    {
      BucketCount(labels, bounds, values, b);
    }
  }

  ghost predicate DistinctBounds(bounds: seq<real>) {
    forall i, j :: 0 <= i < j < |bounds| ==> bounds[i] != bounds[j]
  }

  lemma {:induction false} TimesOnce(b: real, bounds: seq<real>, k: nat)
    requires DistinctBounds(bounds) && k <= |bounds|
    ensures Times(b, bounds, k) == if b in bounds[..k] then 1 else 0
  {
    if k > 0 {
      TimesOnce(b, bounds, k - 1);
      assert bounds[..k] == bounds[..k - 1] + [bounds[k - 1]];
    }
  }

  lemma {:induction false} FilterMonotone(a: real, b: real, values: seq<real>)
    requires a <= b
    ensures |Filter(AtMost(a), values)| <= |Filter(AtMost(b), values)| <= |values|
  {
    if values != [] {
      FilterMonotone(a, b, values[1..]);
    }
  }

  lemma BucketExact(labels: Labels, bounds: seq<real>, values: seq<real>, b: real)
    requires DistinctBounds(bounds) && b in bounds
    ensures var h := ObserveAll(NewHistogram(labels, bounds), bounds, values);
      b in h.buckets && h.buckets[b] == |Filter(AtMost(b), values)|
  {
    BucketCount(labels, bounds, values, b);
    TimesOnce(b, bounds, |bounds|);
    assert bounds[..|bounds|] == bounds;
  }

  /** For distinct bounds: buckets are cumulative, grow with the bound, and never exceed the
  number of observations. */
  lemma BucketsCumulative(labels: Labels, bounds: seq<real>, values: seq<real>, a: real, b: real)
    requires DistinctBounds(bounds) && a in bounds && b in bounds && a <= b
    ensures var h := ObserveAll(NewHistogram(labels, bounds), bounds, values);
      && a in h.buckets && b in h.buckets
      && h.buckets[a] == |Filter(AtMost(a), values)|
      && h.buckets[a] <= h.buckets[b] <= h.count
  {
    BucketExact(labels, bounds, values, a);
    BucketExact(labels, bounds, values, b);
    TotalsCount(labels, bounds, values);
    FilterMonotone(a, b, values);
  }

  // ---------- all series of a histogram ----------

  datatype Observation = Observation(labels: Labels, key: string, value: real)

  function SeriesStep(series: map<string, HistogramValue>, bounds: seq<real>, o: Observation)
    : map<string, HistogramValue>
  {
    var h := if o.key in series then series[o.key] else NewHistogram(o.labels, bounds);
    series[o.key := Observed(h, bounds, o.value)]
  }

  function SeriesRun(bounds: seq<real>, obs: seq<Observation>): map<string, HistogramValue> {
    if obs == [] then map[] else SeriesStep(SeriesRun(bounds, obs[..|obs| - 1]), bounds, obs[|obs| - 1])
  }

  /** The values observed under these labels, in order. */
  function ValuesOf(labels: Labels, obs: seq<Observation>): seq<real> {
    if obs == [] then []
    else
      var last := obs[|obs| - 1];
      ValuesOf(labels, obs[..|obs| - 1]) + if last.labels == labels then [last.value] else []
  }

  /** Every observation is filed under the key of its labels, and labels are clean. */
  ghost predicate WellKeyed(obs: seq<Observation>) {
    forall i :: 0 <= i < |obs| ==> IsKey(obs[i].key, obs[i].labels) && Clean(obs[i].labels)
  }

  /** The series under this key is the histogram of these values, or absent if there are none. */
  ghost predicate Holds(series: map<string, HistogramValue>, key: string, labels: Labels, bounds: seq<real>,
        values: seq<real>)
  {
    && (key in series <==> values != [])
    && (values != [] ==> series[key] == ObserveAll(NewHistogram(labels, bounds), bounds, values))
  }

  lemma StepAdds(series: map<string, HistogramValue>, bounds: seq<real>, o: Observation, values: seq<real>)
    requires Holds(series, o.key, o.labels, bounds, values)
    ensures Holds(SeriesStep(series, bounds, o), o.key, o.labels, bounds, values + [o.value])
  {
    ObserveOneMore(NewHistogram(o.labels, bounds), bounds, values, o.value);
  }

  /** Label series do not mix: after any observations with clean labels, the series of a label
  map is the histogram of exactly the values observed under that map. */
  lemma {:induction false} SeriesSeparate(bounds: seq<real>, obs: seq<Observation>, labels: Labels, key: string)
    requires WellKeyed(obs) && IsKey(key, labels) && Clean(labels)
    ensures Holds(SeriesRun(bounds, obs), key, labels, bounds, ValuesOf(labels, obs))
  {
    if obs != [] {
      var before, o := obs[..|obs| - 1], obs[|obs| - 1];
      SeriesSeparate(bounds, before, labels, key);
      if o.key == key {
        SeriesAreDistinct(key, o.labels, labels);
        StepAdds(SeriesRun(bounds, before), bounds, o, ValuesOf(labels, before));
      } else {
        if o.labels == labels {
          KeyIsUnique(o.key, key, labels);
        }
        assert ValuesOf(labels, obs) == ValuesOf(labels, before);
      }
    }
  }

  // ---------- the registry ----------

  /** Every series has a bucket for every bound. */
  ghost predicate Bucketed(series: map<string, HistogramValue>, bounds: seq<real>) {
    forall k, b :: k in series && b in bounds ==> b in series[k].buckets
  }

  class MetricsRegistry {
    var definitions: map<string, Definition>
    var counters: map<string, map<string, real>>
    var histograms: map<string, map<string, HistogramValue>>

    ghost predicate Valid()
      reads this
    {
      forall name :: name in definitions ==>
        && (definitions[name].kind.Counter? ==> name in counters)
        && (definitions[name].kind.Histogram? ==>
              name in histograms && Bucketed(histograms[name], definitions[name].buckets))
    }

    constructor ()
      ensures Valid() && definitions == map[] && counters == map[] && histograms == map[]
    {
      definitions, counters, histograms := map[], map[], map[];
    }

    /** False when the name is taken. */
    method Register(name: string, d: Definition) returns (ok: bool)
      requires Valid()
      modifies this
      ensures Valid() && ok == (name !in old(definitions))
      ensures !ok ==> definitions == old(definitions) && counters == old(counters) && histograms == old(histograms)
      ensures ok ==>
        && definitions == old(definitions)[name := d]
        && counters == (if d.kind.Counter? then old(counters)[name := map[]] else old(counters))
        && histograms == (if d.kind.Histogram? then old(histograms)[name := map[]] else old(histograms))
    {
      if name in definitions {
        return false;
      }
      definitions := definitions[name := d];
      if d.kind.Counter? {
        counters := counters[name := map[]];
      } else if d.kind.Histogram? {
        histograms := histograms[name := map[]];
      }
      return true;
    }

    method Increment(name: string, labels: Labels, value: real) returns (s: Status, ghost key: string)
      requires Valid()
      modifies this
      ensures Valid() && definitions == old(definitions) && histograms == old(histograms) && IsKey(key, labels)
      ensures s == NotRegistered <==> name !in old(definitions)
      ensures s == Done <==> name in old(definitions) && old(definitions)[name].kind == Counter
      ensures s != Done ==> counters == old(counters)
      ensures s == Done ==>
        && name in old(counters)
        && var series := old(counters)[name];
           counters == old(counters)[name := series[key := (if key in series then series[key] else 0.0) + value]]
    {
      var k := LabelKey(labels);
      key := k;
      if name !in definitions {
        return NotRegistered, key;
      }
      if !definitions[name].kind.Counter? {
        return WrongKind, key;
      }
      var current := if k in counters[name] then counters[name][k] else 0.0;
      counters := counters[name := counters[name][k := current + value]];
      return Done, key;
    }

    method ObserveHistogram(name: string, value: real, labels: Labels) returns (s: Status, ghost key: string)
      requires Valid()
      modifies this
      ensures Valid() && definitions == old(definitions) && counters == old(counters) && IsKey(key, labels)
      ensures s == NotRegistered <==> name !in old(definitions)
      ensures s == Done <==> name in old(definitions) && old(definitions)[name].kind == Histogram
      ensures s != Done ==> histograms == old(histograms)
      ensures s == Done ==>
        && name in old(histograms)
        && histograms == old(histograms)[name :=
             SeriesStep(old(histograms)[name], definitions[name].buckets, Observation(labels, key, value))]
    {
      var k := LabelKey(labels);
      key := k;
      if name !in definitions {
        return NotRegistered, key;
      }
      if !definitions[name].kind.Histogram? {
        return WrongKind, key;
      }
      var bounds := definitions[name].buckets;
      var series := histograms[name];
      var start := if k in series then series[k] else NewHistogram(labels, bounds);
      var buckets := BumpBuckets(start.buckets, bounds, value);
      series := series[k := HistogramValue(start.labels, buckets, start.sum + value, start.count + 1)];
      histograms := histograms[name := series];
      return Done, key;
    }

    /** The loop over the bounds of the definition. */
    method BumpBuckets(start: map<real, nat>, bounds: seq<real>, value: real) returns (buckets: map<real, nat>)
      requires forall b :: b in bounds ==> b in start
      ensures buckets == Bumped(start, bounds, |bounds|, value)
    {
      buckets := start;
      assert start == Bumped(start, bounds, 0, value);
      for i := 0 to |bounds|
        invariant buckets == Bumped(start, bounds, i, value)
      {
        var b := bounds[i];
        if value <= b {
          buckets := buckets[b := buckets[b] + 1];
        }
        assert buckets.Keys == start.Keys;
      }
    }
  }
}
