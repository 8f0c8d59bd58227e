/** What holds of every histogram, whatever was recorded and in whatever order. */
module HistogramTheorems {
  import opened Powers
  import opened Division
  import opened BucketIndex
  import opened Samples
  import opened ExponentialHistograms

  lemma BestScaleUnique(capacity: nat, a: int, b: int, rs: seq<Sample>)
    requires BestScale(capacity, a, rs) && BestScale(capacity, b, rs)
    ensures a == b
  {
  }

  lemma SummaryPermuted(rs: seq<Sample>, rs': seq<Sample>, scale: int)
    requires multiset(rs) == multiset(rs')
    ensures OffsetOf(rs, scale) == OffsetOf(rs', scale)
    ensures BucketsOf(rs, scale) == BucketsOf(rs', scale)
    ensures forall capacity :: Fits(capacity, scale, rs) == Fits(capacity, scale, rs')
  {
    hide Index, Total, IsSmallest, IsLargest;
    ExtremesPermuted(rs, rs');
    assert |multiset(rs)| == |rs| && |multiset(rs')| == |rs'|;
    TotalPermuted(rs, rs', IsZero());
    if HasPositive(rs) {
      var lo, n := LowIndex(rs, scale), HighIndex(rs, scale) - LowIndex(rs, scale) + 1;
      var w, w' := Window(rs, scale, lo, n), Window(rs', scale, lo, n);
      forall j | 0 <= j < n ensures w[j] == w'[j] {
        TotalPermuted(rs, rs', AtIndex(scale, lo + j));
      }
      assert w == w';
    }
  }

  /** Recording order does not matter: the same multiset of samples always ends in the same fields. */
  lemma {:induction false} OrderIndependence(capacity: nat, f: Fields, rs: seq<Sample>, f': Fields, rs': seq<Sample>)
    requires Describes(capacity, f, rs) && Describes(capacity, f', rs')
    requires multiset(rs) == multiset(rs')
    ensures f == f'
  {
    forall scale ensures Fits(capacity, scale, rs) == Fits(capacity, scale, rs') {
      SummaryPermuted(rs, rs', scale);
    }
    BestScaleUnique(capacity, f.scale, f'.scale, rs);
    SummaryPermuted(rs, rs', f.scale);
    TotalPermuted(rs, rs', Anything());
  }

  /** The positive values above 2^(k/2^s) and up to 2^((k+1)/2^s). */
  ghost function Between(scale: int, k: int): nat -> bool {
    (v: nat) => v >= 1 && !AtMostBound(v, scale, k) && AtMostBound(v, scale, k + 1)
  }

  /** Refinement: bucket j >= 1 holds exactly the weight recorded between its two bounds, bucket 0 exactly the zeros,
      and the smallest and largest positive values lie in the first and the last of the others. */
  lemma {:induction false} BucketMeaning(f: Fields, rs: seq<Sample>, j: nat)
    requires Summarise(f, rs) && j < |f.buckets|
    ensures j == 0 ==> f.buckets[j] == Total(rs, IsZero())
    ensures j >= 1 ==>
      f.indexOffset.Some? && f.buckets[j] == Total(rs, Between(f.scale, f.indexOffset.value + j - 1))
    ensures HasPositive(rs) ==>
      && f.indexOffset.Some? && |f.buckets| >= 2
      && Between(f.scale, f.indexOffset.value)(Smallest(rs))
      && Between(f.scale, f.indexOffset.value + |f.buckets| - 2)(Largest(rs))
  {
    hide Index, Total, AtMostBound;
    if j >= 1 {
      BucketIsInterval(rs, f.scale, f.indexOffset.value + j - 1);
    }
    if HasPositive(rs) {
      IntervalOfIndex(Smallest(rs), f.scale);
      IntervalOfIndex(Largest(rs), f.scale);
    }
  }

  lemma IntervalOfIndex(v: nat, scale: int)
    requires v >= 1
    ensures forall k :: Between(scale, k)(v) <==> Index(scale, v) == k
  {
    hide Index, AtMostBound;
    forall k ensures Between(scale, k)(v) <==> Index(scale, v) == k {
      BoundAdmitsIndex(v, scale, k);
      BoundAdmitsIndex(v, scale, k + 1);
    }
  }

  lemma BucketIsInterval(rs: seq<Sample>, scale: int, k: int)
    ensures Total(rs, AtIndex(scale, k)) == Total(rs, Between(scale, k))
  {
    hide Index, AtMostBound;
    forall r | r in rs ensures AtIndex(scale, k)(r.value) == Between(scale, k)(r.value) {
      if r.value >= 1 {
        IntervalOfIndex(r.value, scale);
      }
    }
    TotalAgrees(rs, AtIndex(scale, k), Between(scale, k));
  }

  /** Compressing never loses the fit, so that the scales at which samples fit are those up to the best one. */
  lemma {:induction false} FitsUpToBest(capacity: nat, best: int, rs: seq<Sample>, t: int)
    requires BestScale(capacity, best, rs) && t <= MAX_SCALE
    ensures Fits(capacity, t, rs) <==> t <= best
    decreases best - t
  {
    hide Index;
    if t < best {
      FitsUpToBest(capacity, best, rs, t + 1);
      if HasPositive(rs) {
        SpanShrinks(rs, t + 1, Smallest(rs));
      }
    }
  }

  /** The coarsest scale a histogram can be driven to by values up to 2^bits. */
  lemma {:induction false} ScaleFloor(capacity: nat, f: Fields, rs: seq<Sample>, bits: nat, s: int)
    requires Describes(capacity, f, rs) && bits >= 1 && s <= 0
    requires forall r :: r in rs ==> r.value <= Pow2(bits)
    requires (bits - 1) / Pow2(-s) + 3 <= capacity
    ensures f.scale >= s
  {
    if f.scale < s {
      if HasPositive(rs) {
        IndexLowerBound(s, Smallest(rs));
        IndexUpperBound(s, Largest(rs), bits);
      }
      assert Fits(capacity, s, rs);
    }
  }

  lemma IndexLowerBound(s: int, v: nat)
    requires v >= 1 && s <= 0
    ensures Index(s, v) >= -1
  {
    hide Index;
    IndexAtScaleZero(v);
    IndexAtCoarseScale(s, v);
    QuotientBelow(Index(0, v), Pow2(-s), -1);
  }

  lemma IndexUpperBound(s: int, v: nat, bits: nat)
    requires 1 <= v <= Pow2(bits) && bits >= 1 && s <= 0
    ensures Index(s, v) <= (bits - 1) / Pow2(-s)
  {
    hide Index, InBucket;
    IndexAtScaleZero(v);
    IndexAtCoarseScale(s, v);
    InBucketBelow(Index(0, v), v, bits);
    DivisionMonotone(Index(0, v), bits - 1, Pow2(-s));
  }

  lemma SmallPowers()
    ensures Pow2(0) == 1 && Pow2(1) == 2 && Pow2(2) == 4
  {
  }

  /** The recorder's 20 buckets keep scale 0 for u16 fields, -1 for u32 and -2 for u64 (rounding up to 2^64 included). */
  lemma {:induction false} ScaleByWidth(f: Fields, rs: seq<Sample>)
    requires Describes(20, f, rs)
    ensures (forall r :: r in rs ==> r.value <= Pow2(16)) ==> f.scale >= 0
    ensures (forall r :: r in rs ==> r.value <= Pow2(32)) ==> f.scale >= -1
    ensures (forall r :: r in rs ==> r.value <= Pow2(64)) ==> f.scale >= -2
  {
    hide *;
    SmallPowers();
    if forall r :: r in rs ==> r.value <= Pow2(16) {
      ScaleFloor(20, f, rs, 16, 0);
    }
    if forall r :: r in rs ==> r.value <= Pow2(32) {
      ScaleFloor(20, f, rs, 32, -1);
    }
    if forall r :: r in rs ==> r.value <= Pow2(64) {
      ScaleFloor(20, f, rs, 64, -2);
    }
  }
}
