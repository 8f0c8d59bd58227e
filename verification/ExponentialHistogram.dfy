/** The in-place exponential histogram of amdgpu/src/histogram.rs, tied to the samples it has recorded. */
module ExponentialHistograms {
  import opened Options
  import opened BucketIndex
  import opened Samples

  const MAX_SCALE := 20

  /** Adding up neighbours: what `chunks(2)` with `sum` computes. */
  function PairSums(s: seq<nat>): (r: seq<nat>)
    ensures |r| == (|s| + 1) / 2
  {
    if s == [] then []
    else if |s| == 1 then [s[0]]
    else [s[0] + s[1]] + PairSums(s[2..])
  }

  lemma {:induction false} PairSumsAt(s: seq<nat>, j: nat)
    requires j < |PairSums(s)|
    ensures PairSums(s)[j] == s[2 * j] + (if 2 * j + 1 < |s| then s[2 * j + 1] else 0)
  {
    if j > 0 {
      PairSumsAt(s[2..], j - 1);
    }
  }

  /** The weights of `n` consecutive buckets starting at index `lo`. */
  ghost function Window(rs: seq<Sample>, scale: int, lo: int, n: nat): (w: seq<nat>)
    ensures |w| == n
  {
    seq<nat>(n, (j: nat) requires j < n => Total(rs, AtIndex(scale, lo + j)))
  }

  ghost function LowIndex(rs: seq<Sample>, scale: int): int
    requires HasPositive(rs)
  {
    Index(scale, Smallest(rs))
  }

  ghost function HighIndex(rs: seq<Sample>, scale: int): (h: int)
    requires HasPositive(rs)
    ensures LowIndex(rs, scale) <= h
  {
    IndexMonotone(scale, Smallest(rs), Largest(rs));
    Index(scale, Largest(rs))
  }

  /** The samples fit into `capacity` buckets at this scale, counting the zero bucket. */
  ghost predicate Fits(capacity: nat, scale: int, rs: seq<Sample>) {
    && (rs != [] ==> 1 <= capacity)
    && (HasPositive(rs) ==> HighIndex(rs, scale) - LowIndex(rs, scale) + 2 <= capacity)
  }

  /** The samples fit at some scale: with three buckets always, with two unless 1 and a larger value are among them, and
    * with one if there are only zeros. */
  ghost predicate Recordable(capacity: nat, rs: seq<Sample>) {
    || rs == []
    || capacity >= 3
    || (capacity >= 1 && !HasPositive(rs))
    || (capacity == 2 && (Largest(rs) == 1 || Smallest(rs) >= 2))
  }

  /** The buckets that samples have at a scale: the zeros, then every index from the lowest to the highest in use. */
  ghost function BucketsOf(rs: seq<Sample>, scale: int): seq<nat> {
    if rs == [] then []
    else
      [Total(rs, IsZero())] +
      if HasPositive(rs) then
        Window(rs, scale, LowIndex(rs, scale), HighIndex(rs, scale) - LowIndex(rs, scale) + 1)
      else []
  }

  ghost function OffsetOf(rs: seq<Sample>, scale: int): Option<int> {
    if HasPositive(rs) then Some(LowIndex(rs, scale)) else None
  }

  /** `scale` is the finest scale, starting from the default, at which the samples fit. */
  ghost predicate BestScale(capacity: nat, scale: int, rs: seq<Sample>) {
    scale <= MAX_SCALE && Fits(capacity, scale, rs) &&
    forall t :: scale < t <= MAX_SCALE ==> !Fits(capacity, t, rs)
  }

  /** The fields of a histogram, without the floating-point sum. */
  datatype Fields = Fields(scale: int, count: nat, indexOffset: Option<int>, buckets: seq<nat>)

  /** The fields summarise the samples at their own scale: bucket 0 holds the zeros, bucket j >= 1 the weight at
      index `indexOffset + j - 1`, and the first and last of these are the indices of the extremes. */
  ghost predicate Summarise(f: Fields, rs: seq<Sample>) {
    && f.indexOffset == OffsetOf(rs, f.scale)
    && f.buckets == BucketsOf(rs, f.scale)
    && f.count == Total(rs, Anything())
  }

  /** The fields of a histogram with this capacity that recorded these samples. */
  ghost predicate Describes(capacity: nat, f: Fields, rs: seq<Sample>) {
    Summarise(f, rs) && BestScale(capacity, f.scale, rs)
  }

  /** Index bounds of everything recorded. */
  lemma IndexRange(rs: seq<Sample>, scale: int, r: Sample)
    requires r in rs && r.value >= 1
    ensures HasPositive(rs) && LowIndex(rs, scale) <= Index(scale, r.value) <= HighIndex(rs, scale)
  {
    hide Index;
    IndexMonotone(scale, Smallest(rs), r.value);
    IndexMonotone(scale, r.value, Largest(rs));
  }

  lemma NothingOutside(rs: seq<Sample>, scale: int, i: int)
    requires HasPositive(rs) ==> i < LowIndex(rs, scale) || i > HighIndex(rs, scale)
    ensures Total(rs, AtIndex(scale, i)) == 0
  {
    hide Index, Total;
    forall r | r in rs ensures !AtIndex(scale, i)(r.value) {
      if r.value >= 1 {
        IndexRange(rs, scale, r);
      }
    }
    TotalNone(rs, AtIndex(scale, i));
  }

  /** A coarser bucket holds the weight of the two finer ones. */
  lemma MergedBucket(rs: seq<Sample>, scale: int, i: int)
    ensures Total(rs, AtIndex(scale - 1, i)) ==
            Total(rs, AtIndex(scale, 2 * i)) + Total(rs, AtIndex(scale, 2 * i + 1))
  {
    hide Index, Total;
    forall r | r in rs
      ensures AtIndex(scale - 1, i)(r.value) ==
              (AtIndex(scale, 2 * i)(r.value) || AtIndex(scale, 2 * i + 1)(r.value))
    {
      if r.value >= 1 {
        IndexHalves(scale, r.value);
      }
    }
    TotalSplits(rs, AtIndex(scale, 2 * i), AtIndex(scale, 2 * i + 1), AtIndex(scale - 1, i));
  }

  /** Index `j` of the merged buckets is bucket `lo / 2 + j` of the coarser scale. */
  lemma CompressedBucket(rs: seq<Sample>, scale: int, padded: seq<nat>, lo: int, hi: int, j: nat)
    requires HasPositive(rs) && lo == LowIndex(rs, scale) && hi == HighIndex(rs, scale)
    requires padded == seq<nat>(lo % 2, _ => 0) + Window(rs, scale, lo, hi - lo + 1)
    requires j < |PairSums(padded)|
    ensures PairSums(padded)[j] == Total(rs, AtIndex(scale - 1, lo / 2 + j))
  {
    hide Index, Total, IsSmallest, IsLargest, PairSums;
    var k := 2 * (lo / 2 + j);
    PairSumsAt(padded, j);
    MergedBucket(rs, scale, lo / 2 + j);
    assert padded[2 * j] == Total(rs, AtIndex(scale, k)) by {
      if k < lo {
        NothingOutside(rs, scale, k);
      }
    }
    if k + 1 > hi {
      NothingOutside(rs, scale, k + 1);
    }
  }

  /** Merging pairs, after a leading zero when the offset is odd, gives the buckets of the next coarser scale. */
  lemma CompressedBuckets(rs: seq<Sample>, scale: int, padded: seq<nat>, lo: int, hi: int)
    requires HasPositive(rs) && lo == LowIndex(rs, scale) && hi == HighIndex(rs, scale)
    requires padded == seq<nat>(lo % 2, _ => 0) + Window(rs, scale, lo, hi - lo + 1)
    ensures LowIndex(rs, scale - 1) == lo / 2 && HighIndex(rs, scale - 1) == hi / 2
    ensures PairSums(padded) == Window(rs, scale - 1, lo / 2, hi / 2 - lo / 2 + 1)
  {
    hide Index, Total, PairSums;
    IndexHalves(scale, Smallest(rs));
    IndexHalves(scale, Largest(rs));
    forall j | 0 <= j < |PairSums(padded)|
      ensures PairSums(padded)[j] == Total(rs, AtIndex(scale - 1, lo / 2 + j))
    {
      CompressedBucket(rs, scale, padded, lo, hi, j);
    }
  }

  /** Lowest and highest index once a positive value joins the samples. */
  ghost function LowWith(rs: seq<Sample>, scale: int, value: nat): (lo: int)
    requires value >= 1
  {
    if HasPositive(rs) && LowIndex(rs, scale) < Index(scale, value) then LowIndex(rs, scale) else Index(scale, value)
  }

  ghost function HighWith(rs: seq<Sample>, scale: int, value: nat): (hi: int)
    requires value >= 1
    ensures LowWith(rs, scale, value) <= hi
  {
    if HasPositive(rs) && HighIndex(rs, scale) > Index(scale, value) then HighIndex(rs, scale) else Index(scale, value)
  }

  lemma RangeWith(rs: seq<Sample>, scale: int, r: Sample)
    requires r.value >= 1
    ensures HasPositive(rs + [r])
    ensures LowIndex(rs + [r], scale) == LowWith(rs, scale, r.value)
    ensures HighIndex(rs + [r], scale) == HighWith(rs, scale, r.value)
  {
    hide Index;
    assert r in rs + [r];
    if HasPositive(rs) {
      ExtremesAppend(rs, r);
      IndexMonotone(scale, Smallest(rs + [r]), r.value);
      IndexMonotone(scale, r.value, Largest(rs + [r]));
      IndexMonotone(scale, Smallest(rs + [r]), Smallest(rs));
      IndexMonotone(scale, Largest(rs), Largest(rs + [r]));
    } else {
      ExtremesUnique(rs + [r], r.value, r.value);
    }
  }

  /** Coarser scales never need more buckets, and a span of two or more shrinks at every step. */
  lemma SpanShrinks(rs: seq<Sample>, scale: int, value: nat)
    requires value >= 1
    ensures var span := HighWith(rs, scale, value) - LowWith(rs, scale, value);
      var span' := HighWith(rs, scale - 1, value) - LowWith(rs, scale - 1, value);
      span' <= span && (span >= 2 ==> span' < span)
  {
    hide Index;
    IndexHalves(scale, value);
    if HasPositive(rs) {
      IndexHalves(scale, Smallest(rs));
      IndexHalves(scale, Largest(rs));
    }
  }

  /** One more sample changes one bucket, or none when it is outside the window. */
  lemma WindowAppend(rs: seq<Sample>, r: Sample, scale: int, lo: int, n: nat)
    requires r.value >= 1 && lo <= Index(scale, r.value) < lo + n
    ensures var i := Index(scale, r.value) - lo;
      var w := Window(rs, scale, lo, n);
      Window(rs + [r], scale, lo, n) == w[i := w[i] + r.weight]
  {
    hide Index, Total;
    var i, w, w' := Index(scale, r.value) - lo, Window(rs, scale, lo, n), Window(rs + [r], scale, lo, n);
    forall j | 0 <= j < n ensures w'[j] == w[i := w[i] + r.weight][j] {
      TotalAppend(rs, r, AtIndex(scale, lo + j));
    }
  }

  lemma WindowAppendZero(rs: seq<Sample>, r: Sample, scale: int, lo: int, n: nat)
    requires r.value == 0
    ensures Window(rs + [r], scale, lo, n) == Window(rs, scale, lo, n)
  {
    var w, w' := Window(rs, scale, lo, n), Window(rs + [r], scale, lo, n);
    forall j | 0 <= j < n ensures w'[j] == w[j] {
      TotalAppend(rs, r, AtIndex(scale, lo + j));
    }
  }

  /** Widening the window past the recorded indices adds empty buckets. */
  lemma WindowWidens(rs: seq<Sample>, scale: int, lo: int, before: nat, n: nat, after: nat)
    requires HasPositive(rs) ==> lo <= LowIndex(rs, scale) && HighIndex(rs, scale) < lo + n
    ensures Window(rs, scale, lo - before, before + n + after) ==
            seq<nat>(before, _ => 0) + Window(rs, scale, lo, n) + seq<nat>(after, _ => 0)
  {
    hide Index, Total, IsSmallest, IsLargest;
    var w := Window(rs, scale, lo - before, before + n + after);
    forall j | 0 <= j < |w|
      ensures w[j] == (seq<nat>(before, _ => 0) + Window(rs, scale, lo, n) + seq<nat>(after, _ => 0))[j]
    {
      if j < before || j >= before + n {
        NothingOutside(rs, scale, lo - before + j);
      }
    }
  }

  lemma BucketsSplit(rs: seq<Sample>, scale: int)
    requires HasPositive(rs)
    ensures var lo, hi, b := LowIndex(rs, scale), HighIndex(rs, scale), BucketsOf(rs, scale);
      |b| == hi - lo + 2 && b[..1] == [Total(rs, IsZero())] && b[1..] == Window(rs, scale, lo, hi - lo + 1) &&
      b == [Total(rs, IsZero())] + Window(rs, scale, lo, hi - lo + 1)
  {
    hide Index, Total, IsSmallest, IsLargest, Window;
  }

  /** What compressing does to the bucket array, stated for the array as a whole. */
  lemma CompressedArray(rs: seq<Sample>, scale: int, buckets: seq<nat>, padded: seq<nat>)
    requires HasPositive(rs) && buckets == BucketsOf(rs, scale)
    requires padded == seq<nat>(LowIndex(rs, scale) % 2, _ => 0) + buckets[1..]
    ensures buckets[..1] + PairSums(padded) == BucketsOf(rs, scale - 1)
    ensures LowIndex(rs, scale - 1) == LowIndex(rs, scale) / 2
    ensures |BucketsOf(rs, scale - 1)| <= |buckets|
  {
    hide Index, Total, HasPositive, BucketsOf, Window, PairSums;
    var lo, hi := LowIndex(rs, scale), HighIndex(rs, scale);
    BucketsSplit(rs, scale);
    BucketsSplit(rs, scale - 1);
    CompressedBuckets(rs, scale, padded, lo, hi);
  }

  /** Every bucket from `lo` to the highest recorded index, after the zero bucket. */
  ghost function WidenedBuckets(rs: seq<Sample>, scale: int, lo: int): seq<nat>
    requires HasPositive(rs) && lo <= LowIndex(rs, scale)
  {
    [Total(rs, IsZero())] + Window(rs, scale, lo, HighIndex(rs, scale) - lo + 1)
  }

  /** What inserting empty buckets after the zero bucket does to the bucket array. */
  lemma WidenedArray(rs: seq<Sample>, scale: int, buckets: seq<nat>, shift: nat)
    requires HasPositive(rs) && buckets == BucketsOf(rs, scale)
    ensures buckets[..1] + seq<nat>(shift, _ => 0) + buckets[1..] ==
            WidenedBuckets(rs, scale, LowIndex(rs, scale) - shift)
  {
    hide Index, Total, HasPositive, BucketsOf, Window;
    var lo, hi := LowIndex(rs, scale), HighIndex(rs, scale);
    BucketsSplit(rs, scale);
    WindowWidens(rs, scale, lo, shift, hi - lo + 1, 0);
  }

  lemma EmptyTotal()
    ensures Total([], IsZero()) == 0
  {
  }

  /** `resize_default`, as far as it grows the array. */
  function Extended(buckets: seq<nat>, n: nat): (r: seq<nat>)
    ensures |r| >= n
  {
    if n > |buckets| then buckets + seq<nat>(n - |buckets|, _ => 0) else buckets
  }

  /** Recording a zero adds its weight to the zero bucket and changes nothing else. */
  lemma RecordedZero(rs: seq<Sample>, r: Sample, scale: int)
    requires r.value == 0
    ensures HasPositive(rs + [r]) == HasPositive(rs)
    ensures OffsetOf(rs + [r], scale) == OffsetOf(rs, scale)
    ensures var padded := Extended(BucketsOf(rs, scale), 1);
      BucketsOf(rs + [r], scale) == padded[0 := padded[0] + r.weight]
  {
    hide Index, Total, IsSmallest, IsLargest, Window;
    TotalAppend(rs, r, IsZero());
    EmptyTotal();
    ExtremesAppendZero(rs, r);
    if HasPositive(rs) {
      var lo, hi := LowIndex(rs, scale), HighIndex(rs, scale);
      WindowAppendZero(rs, r, scale, lo, hi - lo + 1);
    }
  }

  /** Recording a positive value adds its weight to the bucket `i` that room was made for. */
  lemma RecordedPositive(rs: seq<Sample>, r: Sample, scale: int, room: seq<nat>, i: nat)
    requires r.value >= 1 && i == Index(scale, r.value) - LowWith(rs, scale, r.value) + 1
    requires room == if HasPositive(rs) then WidenedBuckets(rs, scale, LowWith(rs, scale, r.value))
                     else BucketsOf(rs, scale)
    ensures OffsetOf(rs + [r], scale) == Some(LowWith(rs, scale, r.value))
    ensures var padded := Extended(room, i + 1);
      BucketsOf(rs + [r], scale) == padded[i := padded[i] + r.weight]
    ensures |BucketsOf(rs + [r], scale)| == HighWith(rs, scale, r.value) - LowWith(rs, scale, r.value) + 2
  {
    hide *;
    var lo, hi := LowWith(rs, scale, r.value), HighWith(rs, scale, r.value);
    var w := Window(rs, scale, lo, hi - lo + 1);
    BucketsWith(rs, r, scale);
    InRangeWith(rs, scale, r.value);
    WindowAppend(rs, r, scale, lo, hi - lo + 1);
    PaddedRoom(rs, r.value, scale, room, i);
    ConsUpdate(Total(rs, IsZero()), w, i - 1, w[i - 1] + r.weight);
  }

  lemma InRangeWith(rs: seq<Sample>, scale: int, value: nat)
    requires value >= 1
    ensures LowWith(rs, scale, value) <= Index(scale, value) <= HighWith(rs, scale, value)
  {
  }

  lemma BucketsWith(rs: seq<Sample>, r: Sample, scale: int)
    requires r.value >= 1
    ensures var lo, hi := LowWith(rs, scale, r.value), HighWith(rs, scale, r.value);
      BucketsOf(rs + [r], scale) == [Total(rs, IsZero())] + Window(rs + [r], scale, lo, hi - lo + 1)
    ensures OffsetOf(rs + [r], scale) == Some(LowWith(rs, scale, r.value))
  {
    hide Index, Total, IsSmallest, IsLargest, Window, LowWith, HighWith;
    RangeWith(rs, scale, r);
    TotalAppend(rs, r, IsZero());
  }

  lemma ConsUpdate(first: nat, w: seq<nat>, k: nat, x: nat)
    requires k < |w|
    ensures [first] + w[k := x] == ([first] + w)[k + 1 := x]
    ensures ([first] + w)[k + 1] == w[k]
  {
  }

  /** The room that was made, extended to bucket `i`, is the window of the old samples over the new range. */
  lemma PaddedRoom(rs: seq<Sample>, value: nat, scale: int, room: seq<nat>, i: nat)
    requires value >= 1 && i == Index(scale, value) - LowWith(rs, scale, value) + 1
    requires room == if HasPositive(rs) then WidenedBuckets(rs, scale, LowWith(rs, scale, value))
                     else BucketsOf(rs, scale)
    ensures var lo, hi := LowWith(rs, scale, value), HighWith(rs, scale, value);
      Extended(room, i + 1) == [Total(rs, IsZero())] + Window(rs, scale, lo, hi - lo + 1)
  {
    hide Index, IsSmallest, IsLargest;
    var lo, hi := LowWith(rs, scale, value), HighWith(rs, scale, value);
    if HasPositive(rs) {
      var top := HighIndex(rs, scale);
      WindowWidens(rs, scale, lo, 0, top - lo + 1, hi - top);
      assert Window(rs, scale, lo, hi - lo + 1) ==
             Window(rs, scale, lo, top - lo + 1) + seq<nat>(hi - top, _ => 0);
    } else {
      NothingOutside(rs, scale, lo);
      assert Window(rs, scale, lo, 1) == [0];
    }
  }

  lemma CommonScale(rs: seq<Sample>, below: int) returns (s: int)
    requires HasPositive(rs)
    ensures Smallest(rs) <= Largest(rs) && s <= below
    ensures Index(s, Smallest(rs)) == if Smallest(rs) == 1 then -1 else 0
    ensures Index(s, Largest(rs)) == if Largest(rs) == 1 then -1 else 0
  {
    hide Index;
    var lo := CoarseIndex(Smallest(rs));
    var hi := CoarseIndex(Largest(rs));
    s := if lo < hi then lo else hi;
    s := if below < s then below else s;
  }

  /** However coarse the scale is to be, samples that are recordable fit at some scale that is. */
  lemma {:induction false} RecordableFits(capacity: nat, rs: seq<Sample>, below: int) returns (s: int)
    requires Recordable(capacity, rs)
    ensures s <= below && Fits(capacity, s, rs)
  {
    hide Index;
    s := below;
    if HasPositive(rs) {
      s := CommonScale(rs, below);
    }
  }

  /** Compressing can make the samples fit exactly when they are recordable. */
  lemma {:induction false} CompressionEndsIff(capacity: nat, rs: seq<Sample>)
    ensures (exists s :: s <= MAX_SCALE && Fits(capacity, s, rs)) <==> Recordable(capacity, rs)
  {
    hide Index;
    if Recordable(capacity, rs) {
      var s := RecordableFits(capacity, rs, MAX_SCALE);
    } else if HasPositive(rs) {
      var s := CommonScale(rs, 0);
      if capacity == 2 {
        forall t ensures !Fits(capacity, t, rs) {
          NeverOneBucket(t, Largest(rs));
        }
      }
    }
  }

  lemma FitsWith(capacity: nat, scale: int, rs: seq<Sample>, r: Sample)
    requires r.value >= 1
    ensures rs + [r] != []
    ensures Fits(capacity, scale, rs + [r]) <==>
            HighWith(rs, scale, r.value) - LowWith(rs, scale, r.value) + 2 <= capacity
  {
    RangeWith(rs, scale, r);
  }

  /** Samples that fit still fit when one is taken away. */
  lemma FitsPrefix(capacity: nat, scale: int, rs: seq<Sample>, r: Sample)
    requires Fits(capacity, scale, rs + [r])
    ensures Fits(capacity, scale, rs)
  {
    if r.value >= 1 {
      RangeWith(rs, scale, r);
    } else {
      RecordedZero(rs, r, scale);
      if HasPositive(rs) {
        ExtremesUnique(rs + [r], Smallest(rs), Largest(rs));
      }
    }
  }

  /** The scale stays the best one when it is lowered exactly as far as the new sample asks. */
  lemma BestScaleAppend(capacity: nat, rs: seq<Sample>, r: Sample, before: int, after: int)
    requires BestScale(capacity, before, rs) && after <= before && capacity >= 1
    requires r.value == 0 ==> after == before
    requires r.value >= 1 ==> HighWith(rs, after, r.value) - LowWith(rs, after, r.value) + 2 <= capacity
    requires r.value >= 1 ==> forall t :: after < t <= before ==>
      HighWith(rs, t, r.value) - LowWith(rs, t, r.value) + 2 > capacity
    ensures BestScale(capacity, after, rs + [r])
  {
    hide Index, IsSmallest, IsLargest;
    if r.value >= 1 {
      FitsWith(capacity, after, rs, r);
    } else {
      ExtremesAppendZero(rs, r);
    }
    forall t | after < t <= MAX_SCALE ensures !Fits(capacity, t, rs + [r]) {
      if t <= before {
        FitsWith(capacity, t, rs, r);
      } else if Fits(capacity, t, rs + [r]) {
        FitsPrefix(capacity, t, rs, r);
      }
    }
  }

  class ExponentialHistogram {
    const maxSize: nat
    var scale: int
    var count: nat
    var indexOffset: Option<int>
    var buckets: seq<nat>
    // The history the fields summarise.
    ghost var recorded: seq<Sample>

    ghost function State(): Fields
      reads this
    {
      Fields(scale, count, indexOffset, buckets)
    }

    /** The fields summarise the recorded samples at the current scale, within the capacity. */
    ghost predicate Consistent()
      reads this
    {
      Summarise(State(), recorded) && |buckets| <= maxSize
    }

    ghost predicate Valid()
      reads this
    {
      Consistent() && Describes(maxSize, State(), recorded)
    }

    constructor (maxSize: nat)
      ensures Valid() && this.maxSize == maxSize && recorded == []
      ensures scale == 20 && count == 0 && indexOffset == None && buckets == []
    {
      this.maxSize := maxSize;
      scale := MAX_SCALE;
      count := 0;
      indexOffset := None;
      buckets := [];
      recorded := [];
    }

    method Compress()
      requires Consistent()
      modifies this`scale, this`indexOffset, this`buckets
      ensures Consistent() && scale == old(scale) - 1
    {
      hide Index, Total, IsSmallest, IsLargest, Window;
      if |buckets| > 1 {
        var shift := indexOffset.value % 2;
        var rest := seq<nat>(shift, _ => 0) + buckets[1..];
        CompressedArray(recorded, scale, buckets, rest);
        indexOffset := Some(indexOffset.value / 2);
        buckets := buckets[..1] + PairSums(rest);
      }
      scale := scale - 1;
    }

    /** Room has been made for `value`: every bucket from the lowest to the highest recorded index is in place,
        shifted so that the lowest index with the new value comes first. */
    ghost predicate HasRoomFor(value: nat)
      requires value >= 1
      reads this
    {
      var lo, hi := LowWith(recorded, scale, value), HighWith(recorded, scale, value);
      && indexOffset == Some(lo)
      && hi - lo + 2 <= maxSize
      && if HasPositive(recorded)
         then buckets == WidenedBuckets(recorded, scale, lo)
         else buckets == BucketsOf(recorded, scale)
    }

    /** Makes room for one more sample with this value, and says which bucket is its. It compresses down to `floor` at
      * most, any scale at which there is room. */
    method ResizeToFit(value: nat, ghost floor: int) returns (i: nat)
      requires Consistent()
      requires value >= 1 ==>
        floor <= scale && HighWith(recorded, floor, value) - LowWith(recorded, floor, value) + 2 <= maxSize
      modifies this`scale, this`indexOffset, this`buckets
      ensures value == 0 ==> i == 0 && Consistent() && scale == old(scale)
      ensures value >= 1 ==> HasRoomFor(value) && i == Index(scale, value) - LowWith(recorded, scale, value) + 1
      ensures value >= 1 ==> scale <= old(scale) && (HasPositive(recorded) || scale == old(scale))
      ensures value >= 1 ==> forall t :: scale < t <= old(scale) ==>
        HighWith(recorded, t, value) - LowWith(recorded, t, value) + 2 > maxSize
      decreases scale - floor
    {
      hide Index, Total, IsSmallest, IsLargest, Window;
      var position := IndexForValue(scale, value);
      if position.None? {
        return 0;
      }
      var index := position.value;
      if indexOffset.None? {
        indexOffset := Some(index);
        i := 1;
      } else {
        var offset := indexOffset.value;
        var shift := if offset > index then offset - index else 0;
        var slot := index - offset + 1;
        var needed := 1 + (if slot > 1 then slot else 1);
        var newLength := (if needed > |buckets| then needed else |buckets|) + shift;
        assert newLength == HighWith(recorded, scale, value) - LowWith(recorded, scale, value) + 2;
        if newLength > maxSize {
          Compress();
          i := ResizeToFit(value, floor);
          return;
        } else if shift > 0 {
          WidenedArray(recorded, scale, buckets, shift);
          buckets := buckets[..1] + seq<nat>(shift, _ => 0) + buckets[1..];
          indexOffset := Some(offset - shift);
          slot := slot + shift;
        }
        i := slot;
      }
    }

    method RecordWeighted(value: nat, weight: nat)
      requires Valid() && Recordable(maxSize, recorded + [Sample(value, weight)])
      modifies this
      ensures Valid() && recorded == old(recorded) + [Sample(value, weight)]
      ensures count == old(count) + weight
    {
      hide Index, Total, HasPositive, BestScale, BucketsOf, OffsetOf, LowWith, HighWith, WidenedBuckets;
      ghost var rs, r := recorded, Sample(value, weight);
      ghost var scale0 := scale;
      ghost var floor := RecordableFits(maxSize, rs + [r], scale);
      if value >= 1 {
        FitsWith(maxSize, floor, rs, r);
      }
      var i := ResizeToFit(value, floor);
      ghost var room := buckets;
      if value >= 1 {
        InRangeWith(rs, scale, value);
      }
      if i >= |buckets| {
        assert i + 1 <= maxSize;
        buckets := Extended(buckets, i + 1);
      }
      buckets := buckets[i := buckets[i] + weight];
      count := count + weight;
      recorded := recorded + [r];
      TotalAppend(rs, r, Anything());
      if value == 0 {
        RecordedZero(rs, r, scale);
      } else {
        RecordedPositive(rs, r, scale, room, i);
      }
      BestScaleAppend(maxSize, rs, r, scale0, scale);
    }

    method Record(value: nat)
      requires Valid() && Recordable(maxSize, recorded + [Sample(value, 1)])
      modifies this
      ensures Valid() && recorded == old(recorded) + [Sample(value, 1)]
    {
      RecordWeighted(value, 1);
    }
  }
}
