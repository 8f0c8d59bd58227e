/** The exponential bucket index of amdgpu/src/histogram.rs, in exact arithmetic. */
module BucketIndex {
  import opened Options
  import opened Powers
  import opened Division

  /** The bucket index of a positive value: bucket i at scale s covers 2^(i/2^s) < v <= 2^((i+1)/2^s).
      `e` is the exponent of the leading bit. `FloorLog2` of the exact power stands for the floating-point
      logarithm to base 2^(2^-s). */
  function Index(scale: int, value: nat): (i: int)
    requires value >= 1
  {
    var e: int := FloorLog2(value);
    var powerOf2 := value == Pow2(e);
    if scale >= 0 then
      if powerOf2 then e * Pow2(scale) - 1 else FloorLog2(Power(value, Pow2(scale)))
    else
      (e - (if powerOf2 then 1 else 0)) / Pow2(-scale)
  }

  function IndexForValue(scale: int, value: nat): (i: Option<int>)
    ensures i.None? <==> value == 0
  {
    if value == 0 then None else Some(Index(scale, value))
  }

  /** `i` is the bucket of `x` when the boundaries are the powers of two. */
  ghost predicate InBucket(i: int, x: nat) {
    if i < 0 then i == -1 && x == 1 else Pow2(i) < x <= Pow2(i + 1)
  }

  lemma InBucketUnique(i: int, j: int, x: nat)
    requires InBucket(i, x) && InBucket(j, x)
    ensures i == j
  {
    if 0 <= i < j {
      Pow2Order(i + 1, j);
    } else if 0 <= j < i {
      Pow2Order(j + 1, i);
    }
  }

  lemma InBucketMonotone(i: int, j: int, x: nat, y: nat)
    requires InBucket(i, x) && InBucket(j, y) && x <= y
    ensures i <= j
  {
    if 0 <= j < i {
      Pow2Order(j + 1, i);
    }
  }

  lemma SquareOrder(a: nat, b: nat)
    ensures a < b <==> a * a < b * b
  {
    if a < b {
      assert a * a <= a * b < b * b;
    } else {
      assert b * b <= a * b <= a * a;
    }
  }

  /** Squaring the value doubles the resolution: the index doubles, up to the bit a shift drops. */
  lemma InBucketSquare(i: int, j: int, x: nat)
    requires InBucket(j, x) && InBucket(i, x * x)
    ensures i / 2 == j
  {
    if j >= 0 {
      Pow2Adds(j, j);
      Pow2Adds(j + 1, j + 1);
      SquareOrder(Pow2(j), x);
      SquareOrder(Pow2(j + 1), x);
      assert i >= 0 by {
        SquareOrder(1, x);
      }
      BetweenPowers(i, j, x * x);
    }
  }

  lemma BetweenPowers(i: nat, j: nat, y: nat)
    requires Pow2(i) < y <= Pow2(i + 1)
    requires Pow2(2 * j) < y <= Pow2(2 * j + 2)
    ensures i / 2 == j
  {
    Pow2Order(i + 1, 2 * j);
    Pow2Order(2 * j + 2, i);
  }

  lemma Pow2TimesTwo(s: nat)
    requires s >= 1
    ensures Pow2(s) == Pow2(s - 1) + Pow2(s - 1)
  {
  }

  /** A value that is no power of two has no power 2^s that is one. */
  lemma {:induction false} NotPow2Survives(v: nat, s: nat)
    requires v >= 1 && v != Pow2(FloorLog2(v))
    ensures forall k: nat :: Power(v, Pow2(s)) != Pow2(k)
  {
    if s == 0 {
      assert Power(v, 1) == v * Power(v, 0) == v;
      forall k: nat ensures v != Pow2(k) {
        if v == Pow2(k) {
          var e := FloorLog2(v);
          Pow2Order(k, e);
          Pow2Order(e + 1, k);
        }
      }
    } else {
      NotPow2Survives(v, s - 1);
      var x := Power(v, Pow2(s - 1));
      Pow2TimesTwo(s);
      PowerAdds(v, Pow2(s - 1), Pow2(s - 1));
      forall k: nat ensures x * x != Pow2(k) {
        if x * x == Pow2(k) {
          RootOfPow2(x, k);
        }
      }
    }
  }

  /** A power of two is the upper bound of its bucket. */
  lemma PowerInBucket(e: nat, n: nat)
    requires n >= 1
    ensures InBucket(e * n - 1, Pow2(e * n))
  {
    if e > 0 {
      MulMonotone(1, e, 1, n);
      Pow2Increases(e * n - 1, e * n);
    }
  }

  /** At scale s >= 0 the index is the bucket of v^(2^s). */
  lemma IndexAtFineScale(s: nat, v: nat)
    requires v >= 1
    ensures InBucket(Index(s, v), Power(v, Pow2(s)))
  {
    var e := FloorLog2(v);
    if v == Pow2(e) {
      PowerOfPow2(e, Pow2(s));
      PowerInBucket(e, Pow2(s));
    } else {
      NotPow2Survives(v, s);
    }
  }

  /** At scale zero the index is the bucket of the value itself. */
  lemma IndexAtScaleZero(v: nat)
    requires v >= 1
    ensures InBucket(Index(0, v), v)
  {
    IndexAtFineScale(0, v);
    assert Power(v, 1) == v * Power(v, 0) == v;
  }

  /** At a negative scale the index is the scale-zero index, floor-divided. */
  lemma IndexAtCoarseScale(s: int, v: nat)
    requires v >= 1 && s <= 0
    ensures Index(s, v) == Index(0, v) / Pow2(-s)
  {
    IndexAtScaleZero(v);
    var e: int := FloorLog2(v);
    var d := e - (if v == Pow2(e) then 1 else 0);
    assert InBucket(d, v) by {
      if v == Pow2(e) && e > 0 {
        Pow2Increases(e - 1, e);
      } else if e == 0 {
        assert Pow2(1) == 2;
      }
    }
    InBucketUnique(d, Index(0, v), v);
  }

  /** The exact characterisation of the index, and that it is the only such number. */
  lemma IndexExact(s: nat, v: nat, i: int)
    requires v >= 1
    ensures var x := Power(v, Pow2(s));
      i == Index(s, v) <==> if i < 0 then i == -1 && x == 1 else Pow2(i) < x <= Pow2(i + 1)
  {
    IndexAtFineScale(s, v);
    if InBucket(i, Power(v, Pow2(s))) {
      InBucketUnique(i, Index(s, v), Power(v, Pow2(s)));
    }
  }

  /** Lowering the scale by one halves every index, rounding down. */
  lemma IndexHalves(s: int, v: nat)
    requires v >= 1
    ensures Index(s - 1, v) == Index(s, v) / 2
  {
    if s >= 1 {
      IndexAtFineScale(s, v);
      IndexAtFineScale(s - 1, v);
      Pow2TimesTwo(s);
      PowerAdds(v, Pow2(s - 1), Pow2(s - 1));
      InBucketSquare(Index(s, v), Index(s - 1, v), Power(v, Pow2(s - 1)));
    } else {
      IndexAtCoarseScale(s, v);
      IndexAtCoarseScale(s - 1, v);
      assert Pow2(1 - s) == 2 * Pow2(-s);
      DivideTwice(Index(0, v), Pow2(-s));
    }
  }

  lemma IndexMonotone(s: int, v: nat, w: nat)
    requires 1 <= v <= w
    ensures Index(s, v) <= Index(s, w)
  {
    if s >= 0 {
      IndexAtFineScale(s, v);
      IndexAtFineScale(s, w);
      PowerIncreases(v, w, Pow2(s));
      InBucketMonotone(Index(s, v), Index(s, w), Power(v, Pow2(s)), Power(w, Pow2(s)));
    } else {
      IndexAtCoarseScale(s, v);
      IndexAtCoarseScale(s, w);
      IndexAtScaleZero(v);
      IndexAtScaleZero(w);
      InBucketMonotone(Index(0, v), Index(0, w), v, w);
      DivisionMonotone(Index(0, v), Index(0, w), Pow2(-s));
    }
  }

  /** `v <= 2^(k / 2^s)`, written without roots: the comparison a reported bucket bound stands for. */
  ghost predicate AtMostBound(v: nat, s: int, k: int) {
    v == 0 ||
    (k >= 0 && if s >= 0 then Power(v, Pow2(s)) <= Pow2(k) else v <= Pow2(k * Pow2(-s)))
  }

  lemma InBucketBelow(i: int, x: nat, k: int)
    requires InBucket(i, x)
    ensures i < k <==> k >= 0 && x <= Pow2(k)
  {
    if k >= 0 && i >= 0 {
      Pow2Order(i + 1, k);
      Pow2Order(k, i);
    }
  }

  /** The upper bound of bucket i is 2^((i+1)/2^s): it admits exactly the values with smaller-or-equal index. */
  lemma BoundAdmitsIndex(v: nat, s: int, k: int)
    requires v >= 1
    ensures AtMostBound(v, s, k) <==> Index(s, v) < k
  {
    hide Index, InBucket, Power, Pow2;
    if s >= 0 {
      IndexAtFineScale(s, v);
      InBucketBelow(Index(s, v), Power(v, Pow2(s)), k);
    } else {
      var a, d := Index(0, v), Pow2(-s);
      IndexAtCoarseScale(s, v);
      IndexAtScaleZero(v);
      AtLeastMinusOne(a, v);
      QuotientBelow(a, d, k);
      NegativeMultiple(k, d);
      if k >= 0 {
        InBucketBelow(a, v, k * d);
      }
    }
  }

  lemma AtLeastMinusOne(i: int, x: nat)
    requires InBucket(i, x)
    ensures i >= -1
  {
  }

  lemma NegativeMultiple(k: int, d: nat)
    requires d >= 1
    ensures k >= 0 ==> k * d >= 0
    ensures k < 0 ==> k * d <= -1
  {
    if k < 0 {
      MulMonotone(1, -k, 1, d);
    } else {
      MulMonotone(0, k, 0, d);
    }
  }

  /** At coarse enough scales a value above 1 has index 0 while 1 itself keeps index -1. */
  lemma CoarseIndex(v: nat) returns (s: int)
    requires v >= 1
    ensures s <= 0 && forall t :: t <= s ==> Index(t, v) == if v == 1 then -1 else 0
  {
    hide Index;
    IndexAtScaleZero(v);
    var a := Index(0, v);
    s := if v == 1 then 0 else -1 - FloorLog2(a + 1);
    forall t | t <= s ensures Index(t, v) == if v == 1 then -1 else 0 {
      IndexAtCoarseScale(t, v);
      if v == 1 {
        InBucketUnique(a, -1, v);
        QuotientBelow(-1, Pow2(-t), -1);
        QuotientBelow(-1, Pow2(-t), 0);
      } else {
        Pow2Order(-s, -t);
        QuotientBelow(a, Pow2(-t), 1);
        QuotientBelow(a, Pow2(-t), 0);
      }
    }
  }

  /** 1 and a larger value share a bucket at no scale. */
  lemma NeverOneBucket(s: int, v: nat)
    requires v >= 2
    ensures Index(s, 1) < Index(s, v)
  {
    if s >= 0 {
      IndexAtFineScale(s, 1);
      IndexAtFineScale(s, v);
      PowerOfOne(Pow2(s));
      PowerIncreases(2, v, Pow2(s));
      PowerOfPow2(1, Pow2(s));
      Pow2Order(1, Pow2(s));
      assert Pow2(1) == 2;
    } else {
      IndexAtScaleZero(1);
      IndexAtScaleZero(v);
      IndexAtCoarseScale(s, 1);
      IndexAtCoarseScale(s, v);
      QuotientBelow(-1, Pow2(-s), 0);
      QuotientBelow(Index(0, v), Pow2(-s), 0);
    }
  }
}
