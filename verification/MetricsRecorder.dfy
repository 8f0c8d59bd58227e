/** The generated GPU metrics recorder (amdgpu/macros/src/lib.rs) and the reader that drives it. */
module MetricsRecorder {
  import opened Options
  import opened Samples
  import opened ExponentialHistograms
  import opened CumulativeReport

  const RECORDER_BUCKETS := 20

  /** One metrics table: the clock, and the value of every recorded field and array slot in declaration order. */
  datatype Metrics = Metrics(systemClockCounter: nat, values: seq<nat>)

  ghost predicate ClockNondecreasing(ms: seq<Metrics>) {
    forall i :: 0 < i < |ms| ==> ms[i - 1].systemClockCounter <= ms[i].systemClockCounter
  }

  ghost predicate HasSlots(ms: seq<Metrics>, n: nat) {
    forall m :: m in ms ==> |m.values| == n
  }

  /** What slot `k` has recorded: every table but the first, weighted by the clock since the one before. */
  ghost function History(ms: seq<Metrics>, n: nat, k: nat): seq<Sample>
    requires ClockNondecreasing(ms) && HasSlots(ms, n) && k < n
  {
    if |ms| < 2 then []
    else
      var last, before := ms[|ms| - 1], ms[|ms| - 2];
      History(ms[..|ms| - 1], n, k) +
      [Sample(last.values[k], last.systemClockCounter - before.systemClockCounter)]
  }

  lemma NoWeight()
    ensures Total([], Anything()) == 0
  {
  }

  lemma {:induction false} HistoryWeight(ms: seq<Metrics>, n: nat, k: nat)
    requires ClockNondecreasing(ms) && HasSlots(ms, n) && k < n && ms != []
    ensures Total(History(ms, n, k), Anything()) == ms[|ms| - 1].systemClockCounter - ms[0].systemClockCounter
  {
    hide Total;
    if |ms| == 1 {
      NoWeight();
    } else {
      var front := ms[..|ms| - 1];
      HistoryWeight(front, n, k);
      var last, before := ms[|ms| - 1], ms[|ms| - 2];
      TotalAppend(History(front, n, k),
                  Sample(last.values[k], last.systemClockCounter - before.systemClockCounter), Anything());
    }
  }

  /** Sample `j` of slot `k` is that slot's value in table `j + 1`, weighted by the clock since table `j`. */
  lemma {:induction false} HistoryAt(ms: seq<Metrics>, n: nat, k: nat, j: nat)
    requires ClockNondecreasing(ms) && HasSlots(ms, n) && k < n && j + 1 < |ms|
    ensures |History(ms, n, k)| == |ms| - 1 && ms[j].systemClockCounter <= ms[j + 1].systemClockCounter
    ensures History(ms, n, k)[j] ==
            Sample(ms[j + 1].values[k], ms[j + 1].systemClockCounter - ms[j].systemClockCounter)
    decreases |ms|
  {
    var front := ms[..|ms| - 1];
    if |ms| > 2 {
      HistoryAt(front, n, k, if j + 1 < |front| then j else 0);
    }
  }

  /** In every slot the buckets add up to the count, and the count to the clock time covered. */
  lemma {:induction false} WeightConservation(f: Fields, ms: seq<Metrics>, n: nat, k: nat)
    requires ClockNondecreasing(ms) && HasSlots(ms, n) && k < n && ms != []
    requires Summarise(f, History(ms, n, k))
    ensures f.count == ms[|ms| - 1].systemClockCounter - ms[0].systemClockCounter
    ensures SumTo(Sampled(f), |f.buckets|) == f.count
  {
    HistoryWeight(ms, n, k);
    BucketSumIsCount(f, History(ms, n, k));
  }

  class Recorder {
    var lastSystemClockCounter: Option<nat>
    const histograms: seq<ExponentialHistogram>
    // The tables recorded so far.
    ghost var samples: seq<Metrics>

    ghost predicate Valid()
      reads this, histograms
    {
      && (forall i, j :: 0 <= i < j < |histograms| ==> histograms[i] != histograms[j])
      && ClockNondecreasing(samples) && HasSlots(samples, |histograms|)
      && lastSystemClockCounter ==
         (if samples == [] then None else Some(samples[|samples| - 1].systemClockCounter))
      && forall k :: 0 <= k < |histograms| ==>
           && histograms[k].Valid() && histograms[k].maxSize == RECORDER_BUCKETS
           && histograms[k].recorded == History(samples, |histograms|, k)
    }

    constructor (slots: nat)
      ensures Valid() && fresh(histograms) && |histograms| == slots && samples == []
    {
      var hs: seq<ExponentialHistogram> := [];
      for i := 0 to slots
        invariant |hs| == i && fresh(hs)
        invariant forall k :: 0 <= k < i ==>
          hs[k].Valid() && hs[k].maxSize == RECORDER_BUCKETS && hs[k].recorded == []
        invariant forall k, l :: 0 <= k < l < i ==> hs[k] != hs[l]
      {
        var h := new ExponentialHistogram(RECORDER_BUCKETS);
        hs := hs + [h];
      }
      histograms := hs;
      lastSystemClockCounter := None;
      samples := [];
    }

    /** The generated record calls: every value goes into its own histogram, all with the same weight. */
    method RecordValues(values: seq<nat>, delta: nat)
      requires Valid() && |values| == |histograms|
      modifies histograms
      ensures unchanged(this)
      ensures forall k :: 0 <= k < |histograms| ==>
        && histograms[k].Valid()
        && histograms[k].recorded == old(histograms[k].recorded) + [Sample(values[k], delta)]
    {
      hide ExponentialHistogram.Valid, History;
      for i := 0 to |histograms|
        invariant unchanged(this)
        invariant forall k :: 0 <= k < |histograms| ==>
          && histograms[k].Valid()
          && histograms[k].recorded ==
             old(histograms[k].recorded) + if k < i then [Sample(values[k], delta)] else []
      {
        histograms[i].RecordWeighted(values[i], delta);
      }
    }

    /** The generated `record`: each value weighted by the clock ticks since the previous table. */
    method Record(m: Metrics)
      requires Valid() && |m.values| == |histograms|
      requires lastSystemClockCounter.Some? ==> lastSystemClockCounter.value <= m.systemClockCounter
      modifies this, histograms
      ensures Valid() && samples == old(samples) + [m]
    {
      hide ExponentialHistogram.Valid;
      ghost var ms := samples + [m];
      assert ms[..|ms| - 1] == samples;
      if lastSystemClockCounter.Some? {
        RecordValues(m.values, m.systemClockCounter - lastSystemClockCounter.value);
      }
      lastSystemClockCounter := Some(m.systemClockCounter);
      samples := ms;
    }

    /** What every slot's histogram has recorded, table by table. */
    lemma RecordsTables(k: nat, j: nat)
      requires Valid() && k < |histograms| && j + 1 < |samples|
      ensures histograms[k].maxSize == 20 && |histograms[k].recorded| == |samples| - 1
      ensures samples[j].systemClockCounter <= samples[j + 1].systemClockCounter
      ensures histograms[k].recorded[j] ==
              Sample(samples[j + 1].values[k], samples[j + 1].systemClockCounter - samples[j].systemClockCounter)
    {
      HistoryAt(samples, |histograms|, k, j);
    }

    /** Weight conservation as the recorder's state shows it. */
    lemma Conserves(k: nat)
      requires Valid() && k < |histograms| && samples != []
      ensures histograms[k].count == samples[|samples| - 1].systemClockCounter - samples[0].systemClockCounter
      ensures SumTo(Sampled(histograms[k].State()), |histograms[k].buckets|) == histograms[k].count
    {
      WeightConservation(histograms[k].State(), samples, |histograms|, k);
    }
  }

  /** The outcome of reading the header of the metrics file. */
  datatype Header = Recognised(slots: nat) | Unrecognised

  class MetricsReader {
    var r: Recorder

    constructor (slots: nat)
      ensures fresh(r) && fresh(r.histograms) && r.Valid() && r.samples == [] && |r.histograms| == slots
    {
      r := new Recorder(slots);
    }

    /** One poll: a table that was read is recorded; a failed read starts over with an empty recorder,
        unless the header cannot be read either. */
    method Record(read: Option<Metrics>, header: Header) returns (ok: bool)
      requires r.Valid()
      requires read.Some? ==> |read.value.values| == |r.histograms|
      requires read.Some? && r.lastSystemClockCounter.Some? ==>
        r.lastSystemClockCounter.value <= read.value.systemClockCounter
      modifies this, r, r.histograms
      ensures r.Valid() && ok == (read.Some? || header.Recognised?)
      ensures read.Some? ==> r == old(r) && r.samples == old(r.samples) + [read.value]
      ensures read.None? && header.Recognised? ==>
        fresh(r) && fresh(r.histograms) && r.samples == [] && |r.histograms| == header.slots
      ensures read.None? && header.Unrecognised? ==> r == old(r) && r.samples == old(r.samples)
    {
      match read
      case Some(m) =>
        r.Record(m);
        ok := true;
      case None =>
        if header.Unrecognised? {
          return false;
        }
        r := new Recorder(header.slots);
        ok := true;
    }
  }
}
