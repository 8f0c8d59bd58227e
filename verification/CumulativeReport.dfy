/** The cumulative report of a histogram: amdgpu/src/interface.rs `report` over `ExponentialHistogram::sample`. */
module CumulativeReport {
  import opened BucketIndex
  import opened Samples
  import opened ExponentialHistograms

  /** An upper bucket bound: `Finite(s, k)` is 2^(k/2^s). */
  datatype Bound = Finite(scale: int, k: int) | Infinite

  datatype Entry = Entry(le: Bound, count: nat)

  /** The values a bound admits. */
  ghost function Admitted(le: Bound): nat -> bool {
    match le
    case Finite(s, k) => WithinBound(s, k)
    case Infinite => Anything()
  }

  function BoundOf(f: Fields, i: nat): Bound {
    match f.indexOffset
    case None => Infinite
    case Some(offset) => Finite(f.scale, offset + i)
  }

  /** `sample`: every bucket with its upper bound; infinite as long as there is no positive value. */
  function Sampled(f: Fields): (s: seq<Entry>)
    ensures |s| == |f.buckets|
  {
    seq(|f.buckets|, i requires 0 <= i < |f.buckets| => Entry(BoundOf(f, i), f.buckets[i]))
  }

  function TakeThroughInfinite(s: seq<Entry>): seq<Entry> {
    if s == [] then []
    else if s[0].le.Infinite? then [s[0]]
    else [s[0]] + TakeThroughInfinite(s[1..])
  }

  function RunningTotals(s: seq<Entry>, state: nat): (r: seq<Entry>)
    ensures |r| == |s|
  {
    if s == [] then []
    else [Entry(s[0].le, state + s[0].count)] + RunningTotals(s[1..], state + s[0].count)
  }

  function Reported(f: Fields): seq<Entry> {
    RunningTotals(TakeThroughInfinite(Sampled(f) + [Entry(Infinite, 0)]), 0)
  }

  ghost function SumTo(s: seq<Entry>, n: nat): nat
    requires n <= |s|
  {
    if n == 0 then 0 else SumTo(s, n - 1) + s[n - 1].count
  }

  lemma {:induction false} SumToTail(s: seq<Entry>, n: nat)
    requires 1 <= n <= |s|
    ensures SumTo(s, n) == s[0].count + SumTo(s[1..], n - 1)
  {
    if n > 1 {
      SumToTail(s, n - 1);
    }
  }

  lemma {:induction false} RunningTotalsAt(s: seq<Entry>, state: nat, i: nat)
    requires i < |s|
    ensures RunningTotals(s, state)[i] == Entry(s[i].le, state + SumTo(s, i + 1))
  {
    SumToTail(s, i + 1);
    if i > 0 {
      RunningTotalsAt(s[1..], state + s[0].count, i - 1);
    }
  }

  lemma {:induction false} TakesAllFinite(s: seq<Entry>, last: Entry)
    requires last.le.Infinite? && forall i :: 0 <= i < |s| ==> s[i].le.Finite?
    ensures TakeThroughInfinite(s + [last]) == s + [last]
  {
    if s != [] {
      assert (s + [last])[1..] == s[1..] + [last];
      TakesAllFinite(s[1..], last);
    }
  }

  /** The buckets up to number `n` hold exactly the samples below index `indexOffset + n`. */
  lemma {:induction false} BucketsBelow(f: Fields, rs: seq<Sample>, n: nat)
    requires Summarise(f, rs) && f.indexOffset.Some? && n < |f.buckets|
    ensures SumTo(Sampled(f), n + 1) == Total(rs, BelowIndex(f.scale, f.indexOffset.value + n))
  {
    hide Index, IsSmallest, IsLargest;
    var i := f.indexOffset.value + n;
    assert SumTo(Sampled(f), n + 1) == SumTo(Sampled(f), n) + f.buckets[n];
    if n == 0 {
      forall r | r in rs ensures BelowIndex(f.scale, i)(r.value) == IsZero()(r.value) {
        if r.value >= 1 {
          IndexRange(rs, f.scale, r);
        }
      }
      TotalAgrees(rs, IsZero(), BelowIndex(f.scale, i));
    } else {
      BucketsBelow(f, rs, n - 1);
      TotalSplits(rs, BelowIndex(f.scale, i - 1), AtIndex(f.scale, i - 1), BelowIndex(f.scale, i));
    }
  }

  lemma BoundsAreIndices(rs: seq<Sample>, scale: int, k: int)
    ensures Total(rs, WithinBound(scale, k)) == Total(rs, BelowIndex(scale, k))
  {
    forall r | r in rs ensures WithinBound(scale, k)(r.value) == BelowIndex(scale, k)(r.value) {
      if r.value >= 1 {
        BoundAdmitsIndex(r.value, scale, k);
      }
    }
    TotalAgrees(rs, WithinBound(scale, k), BelowIndex(scale, k));
  }

  /** Everything recorded is in some bucket: the bucket sum is the count. */
  lemma {:induction false} BucketSumIsCount(f: Fields, rs: seq<Sample>)
    requires Summarise(f, rs)
    ensures SumTo(Sampled(f), |f.buckets|) == f.count
  {
    if HasPositive(rs) {
      var n := |f.buckets| - 1;
      BucketsBelow(f, rs, n);
      forall r | r in rs ensures BelowIndex(f.scale, f.indexOffset.value + n)(r.value) == Anything()(r.value) {
        if r.value >= 1 {
          IndexRange(rs, f.scale, r);
        }
      }
      TotalAgrees(rs, BelowIndex(f.scale, f.indexOffset.value + n), Anything());
    } else {
      TotalAgrees(rs, IsZero(), Anything());
      if rs != [] {
        assert SumTo(Sampled(f), 1) == SumTo(Sampled(f), 0) + Sampled(f)[0].count;
      }
    }
  }

  lemma {:induction false} SumToPrefix(s: seq<Entry>, t: seq<Entry>, n: nat)
    requires n <= |s|
    ensures SumTo(s + t, n) == SumTo(s, n)
  {
    if n > 0 {
      SumToPrefix(s, t, n - 1);
    }
  }

  /** What the report looks like when there are positive values. */
  lemma ReportedAt(f: Fields, i: nat)
    requires f.indexOffset.Some? && i <= |f.buckets|
    ensures |Reported(f)| == |f.buckets| + 1
    ensures Reported(f)[i] == if i < |f.buckets| then Entry(BoundOf(f, i), SumTo(Sampled(f), i + 1))
                              else Entry(Infinite, SumTo(Sampled(f), |f.buckets|))
  {
    var s, last := Sampled(f), Entry(Infinite, 0);
    TakesAllFinite(s, last);
    RunningTotalsAt(s + [last], 0, i);
    SumToPrefix(s, [last], if i < |s| then i + 1 else i);
  }

  /** Each reported count is the weight of the recorded values within the reported bound. */
  ghost predicate Cumulative(out: seq<Entry>, rs: seq<Sample>) {
    forall i :: 0 <= i < |out| ==> out[i].count == Total(rs, Admitted(out[i].le))
  }

  /** Exactly one infinite entry, last; bounds below it strictly increase. */
  ghost predicate WellFormed(out: seq<Entry>, scale: int) {
    && out != [] && out[|out| - 1].le.Infinite?
    && (forall i :: 0 <= i < |out| - 1 ==> out[i].le.Finite? && out[i].le.scale == scale)
    && (forall i, j :: 0 <= i < j < |out| - 1 ==> out[i].le.k < out[j].le.k)
  }

  /** With positive values there is one finite entry for every bucket, at that bucket's upper bound; without any,
      the infinite entry stands alone. */
  ghost predicate Complete(out: seq<Entry>, f: Fields) {
    match f.indexOffset
    case None => |out| == 1
    case Some(offset) =>
      |out| == |f.buckets| + 1 && forall i :: 0 <= i < |f.buckets| ==> out[i].le == Finite(f.scale, offset + i)
  }

  ghost predicate Nondecreasing(out: seq<Entry>) {
    forall i, j :: 0 <= i < j < |out| ==> out[i].count <= out[j].count
  }

  lemma {:induction false} SumToNondecreasing(s: seq<Entry>, m: nat, n: nat)
    requires m <= n <= |s|
    ensures SumTo(s, m) <= SumTo(s, n)
  {
    if m < n {
      SumToNondecreasing(s, m, n - 1);
    }
  }

  lemma {:induction false} ReportCorrect(f: Fields, rs: seq<Sample>)
    requires Summarise(f, rs)
    ensures WellFormed(Reported(f), f.scale) && Cumulative(Reported(f), rs) && Nondecreasing(Reported(f))
    ensures Complete(Reported(f), f)
    ensures Reported(f)[|Reported(f)| - 1].count == f.count
  {
    BucketSumIsCount(f, rs);
    if HasPositive(rs) {
      PositiveReport(f, rs);
    } else if rs != [] {
      assert Sampled(f) + [Entry(Infinite, 0)] == [Entry(Infinite, f.buckets[0]), Entry(Infinite, 0)];
      assert SumTo(Sampled(f), 1) == SumTo(Sampled(f), 0) + f.buckets[0];
    }
  }

  lemma PositiveReport(f: Fields, rs: seq<Sample>)
    requires Summarise(f, rs) && HasPositive(rs)
    requires SumTo(Sampled(f), |f.buckets|) == f.count
    ensures WellFormed(Reported(f), f.scale) && Cumulative(Reported(f), rs) && Nondecreasing(Reported(f))
    ensures Complete(Reported(f), f)
    ensures Reported(f)[|Reported(f)| - 1].count == f.count
  {
    hide Reported, Sampled, SumTo, BucketsOf, Total, AtMostBound, Index;
    var n, out := |f.buckets|, Reported(f);
    ReportedAt(f, n);
    forall i | 0 <= i < |out|
      ensures out[i] == if i < n then Entry(BoundOf(f, i), SumTo(Sampled(f), i + 1)) else Entry(Infinite, f.count)
      ensures out[i].count == Total(rs, Admitted(out[i].le))
    {
      ReportedAt(f, i);
      if i < n {
        BucketsBelow(f, rs, i);
        BoundsAreIndices(rs, f.scale, f.indexOffset.value + i);
      }
    }
    forall i, j | 0 <= i < j < |out| ensures out[i].count <= out[j].count {
      SumToNondecreasing(Sampled(f), i + 1, if j < n then j + 1 else n);
    }
  }

  /** A line written to the sink: a cumulative bucket, or the closing count. */
  datatype Line = BucketLine(le: Bound, value: nat) | CountLine(count: nat)

  /** The lines for a histogram: one for every reported bucket, in order, whose bound is the bucket's upper bound and
    * whose value is the weight recorded within it; one without bound for everything; and the count. */
  method Report(h: ExponentialHistogram) returns (lines: seq<Line>, entries: seq<Entry>)
    requires h.Valid()
    ensures |lines| == |entries| + 1 && lines[|entries|] == CountLine(h.count)
    ensures forall i :: 0 <= i < |entries| ==>
      && lines[i].BucketLine? && lines[i].le == entries[i].le && lines[i].value == entries[i].count
      && lines[i].value == Total(h.recorded, Admitted(lines[i].le))
    ensures h.indexOffset.None? ==> |lines| == 2
    ensures h.indexOffset.Some? ==> |lines| == |h.buckets| + 2
    ensures h.indexOffset.Some? ==>
      forall i :: 0 <= i < |h.buckets| ==> lines[i].le == Finite(h.scale, h.indexOffset.value + i)
    ensures lines[|lines| - 2].le == Infinite && lines[|lines| - 2].value == h.count
    ensures WellFormed(entries, h.scale) && Cumulative(entries, h.recorded) && Nondecreasing(entries)
    ensures Complete(entries, h.State())
  {
    hide Reported, Summarise, BestScale, WellFormed, Cumulative, Nondecreasing, Complete;
    var f := Fields(h.scale, h.count, h.indexOffset, h.buckets);
    ReportCorrect(f, h.recorded);
    entries := Reported(f);
    EntriesAre(entries, f, h.recorded);
    lines := [];
    for i := 0 to |entries|
      invariant |lines| == i
      invariant forall k :: 0 <= k < i ==> lines[k] == BucketLine(entries[k].le, entries[k].count)
    {
      lines := lines + [BucketLine(entries[i].le, entries[i].count)];
    }
    lines := lines + [CountLine(h.count)];
  }

  lemma EntriesAre(entries: seq<Entry>, f: Fields, rs: seq<Sample>)
    requires WellFormed(entries, f.scale) && Cumulative(entries, rs) && Complete(entries, f)
    ensures entries != [] && entries[|entries| - 1].le == Infinite
    ensures forall i :: 0 <= i < |entries| ==> entries[i].count == Total(rs, Admitted(entries[i].le))
    ensures f.indexOffset.None? ==> |entries| == 1
    ensures f.indexOffset.Some? ==> |entries| == |f.buckets| + 1
    ensures f.indexOffset.Some? ==>
      forall i :: 0 <= i < |f.buckets| ==> entries[i].le == Finite(f.scale, f.indexOffset.value + i)
  {
  }
}
