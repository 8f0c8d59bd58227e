/** The weighted multiset a histogram stands for, kept as the sequence in which it was recorded. */
module Samples {
  import opened BucketIndex

  datatype Sample = Sample(value: nat, weight: nat)

  /** The weight of the samples whose value satisfies `p`. */
  ghost function Total(rs: seq<Sample>, p: nat -> bool): (t: nat) {
    if rs == [] then 0
    else
      var last := rs[|rs| - 1];
      Total(rs[..|rs| - 1], p) + (if p(last.value) then last.weight else 0)
  }

  ghost function IsZero(): nat -> bool {
    (v: nat) => v == 0
  }

  ghost function Anything(): nat -> bool {
    (v: nat) => true
  }

  ghost function AtIndex(scale: int, i: int): nat -> bool {
    (v: nat) => v >= 1 && Index(scale, v) == i
  }

  ghost function BelowIndex(scale: int, i: int): nat -> bool {
    (v: nat) => v == 0 || Index(scale, v) < i
  }

  ghost function WithinBound(scale: int, k: int): nat -> bool {
    (v: nat) => AtMostBound(v, scale, k)
  }

  lemma TotalAppend(rs: seq<Sample>, r: Sample, p: nat -> bool)
    ensures Total(rs + [r], p) == Total(rs, p) + (if p(r.value) then r.weight else 0)
  {
    assert (rs + [r])[..|rs|] == rs;
  }

  lemma {:induction false} TotalConcat(a: seq<Sample>, b: seq<Sample>, p: nat -> bool)
    ensures Total(a + b, p) == Total(a, p) + Total(b, p)
  {
    if b == [] {
      assert a + b == a;
    } else {
      var front, last := b[..|b| - 1], b[|b| - 1];
      assert a + b == (a + front) + [last];
      TotalAppend(a + front, last, p);
      TotalConcat(a, front, p);
    }
  }

  /** Weights add up over a partition of the values that occur. */
  lemma {:induction false} TotalSplits(rs: seq<Sample>, p: nat -> bool, q: nat -> bool, whole: nat -> bool)
    requires forall r :: r in rs ==> whole(r.value) == (p(r.value) || q(r.value)) && !(p(r.value) && q(r.value))
    ensures Total(rs, whole) == Total(rs, p) + Total(rs, q)
  {
    if rs != [] {
      TotalSplits(rs[..|rs| - 1], p, q, whole);
    }
  }

  lemma {:induction false} TotalAgrees(rs: seq<Sample>, p: nat -> bool, q: nat -> bool)
    requires forall r :: r in rs ==> p(r.value) == q(r.value)
    ensures Total(rs, p) == Total(rs, q)
  {
    if rs != [] {
      TotalAgrees(rs[..|rs| - 1], p, q);
    }
  }

  lemma {:induction false} TotalNone(rs: seq<Sample>, p: nat -> bool)
    requires forall r :: r in rs ==> !p(r.value)
    ensures Total(rs, p) == 0
  {
    if rs != [] {
      TotalNone(rs[..|rs| - 1], p);
    }
  }

  lemma RemoveOne(front: seq<Sample>, before: seq<Sample>, after: seq<Sample>, last: Sample)
    requires multiset(front + [last]) == multiset((before + [last]) + after)
    ensures multiset(front) == multiset(before + after)
  {
    assert multiset(front + [last]) == multiset(front) + multiset{last};
    assert multiset((before + [last]) + after) == multiset(before) + multiset{last} + multiset(after);
    assert multiset(before + after) == multiset(before) + multiset(after);
    assert multiset(front) == multiset(front + [last]) - multiset{last};
  }

  /** Totals depend only on the multiset of samples. */
  lemma {:induction false} TotalPermuted(a: seq<Sample>, b: seq<Sample>, p: nat -> bool)
    requires multiset(a) == multiset(b)
    ensures Total(a, p) == Total(b, p)
  {
    if a == [] {
      assert |multiset(b)| == |b|;
    } else {
      var front, last := a[..|a| - 1], a[|a| - 1];
      assert a == front + [last];
      assert last in multiset(b);
      var k :| 0 <= k < |b| && b[k] == last;
      var before, after := b[..k], b[k + 1..];
      assert b == (before + [last]) + after;
      RemoveOne(front, before, after, last);
      TotalPermuted(front, before + after, p);
      TotalConcat(before + [last], after, p);
      TotalAppend(before, last, p);
      TotalConcat(before, after, p);
    }
  }

  predicate HasPositive(rs: seq<Sample>) {
    exists r :: r in rs && r.value >= 1
  }

  ghost predicate IsSmallest(rs: seq<Sample>, m: nat) {
    m >= 1 && (exists r :: r in rs && r.value == m) && forall r :: r in rs && r.value >= 1 ==> m <= r.value
  }

  ghost predicate IsLargest(rs: seq<Sample>, m: nat) {
    m >= 1 && (exists r :: r in rs && r.value == m) && forall r :: r in rs ==> r.value <= m
  }

  lemma {:induction false} ExtremesExist(rs: seq<Sample>) returns (lo: nat, hi: nat)
    requires HasPositive(rs)
    ensures IsSmallest(rs, lo) && IsLargest(rs, hi)
  {
    var front, last := rs[..|rs| - 1], rs[|rs| - 1];
    assert rs == front + [last];
    if HasPositive(front) {
      lo, hi := ExtremesExist(front);
      var rLo :| rLo in front && rLo.value == lo;
      var rHi :| rHi in front && rHi.value == hi;
      assert rLo in rs && rHi in rs && last in rs;
      if 1 <= last.value < lo {
        lo := last.value;
      }
      if last.value > hi {
        hi := last.value;
      }
    } else {
      assert last in rs;
      lo, hi := last.value, last.value;
    }
  }

  /** The smallest recorded positive value. */
  ghost function Smallest(rs: seq<Sample>): (m: nat)
    requires HasPositive(rs)
    ensures IsSmallest(rs, m)
  {
    assert exists m: nat :: IsSmallest(rs, m) by {
      var lo, hi := ExtremesExist(rs);
    }
    var m: nat :| IsSmallest(rs, m);
    m
  }

  /** The largest recorded value, when it is positive. */
  ghost function Largest(rs: seq<Sample>): (m: nat)
    requires HasPositive(rs)
    ensures IsLargest(rs, m)
  {
    assert exists m: nat :: IsLargest(rs, m) by {
      var lo, hi := ExtremesExist(rs);
    }
    var m: nat :| IsLargest(rs, m);
    m
  }

  lemma ExtremesUnique(rs: seq<Sample>, lo: nat, hi: nat)
    requires IsSmallest(rs, lo) && IsLargest(rs, hi)
    ensures HasPositive(rs) && Smallest(rs) == lo && Largest(rs) == hi
  {
  }

  lemma ExtremesAppend(rs: seq<Sample>, r: Sample)
    requires HasPositive(rs) && r.value >= 1
    ensures HasPositive(rs + [r])
    ensures Smallest(rs + [r]) == if r.value < Smallest(rs) then r.value else Smallest(rs)
    ensures Largest(rs + [r]) == if r.value > Largest(rs) then r.value else Largest(rs)
  {
    var all := rs + [r];
    var rLo :| rLo in rs && rLo.value == Smallest(rs);
    var rHi :| rHi in rs && rHi.value == Largest(rs);
    assert rLo in all && rHi in all && r in all;
    ExtremesUnique(all, if r.value < Smallest(rs) then r.value else Smallest(rs),
                   if r.value > Largest(rs) then r.value else Largest(rs));
  }

  lemma ExtremesAppendZero(rs: seq<Sample>, r: Sample)
    requires r.value == 0
    ensures HasPositive(rs + [r]) == HasPositive(rs)
    ensures HasPositive(rs) ==> Smallest(rs + [r]) == Smallest(rs) && Largest(rs + [r]) == Largest(rs)
  {
    assert forall x :: x in rs + [r] && x.value >= 1 <==> x in rs && x.value >= 1;
    if HasPositive(rs) {
      ExtremesUnique(rs + [r], Smallest(rs), Largest(rs));
    }
  }

  lemma ExtremesPermuted(a: seq<Sample>, b: seq<Sample>)
    requires multiset(a) == multiset(b)
    ensures HasPositive(a) == HasPositive(b)
    ensures HasPositive(a) ==> Smallest(a) == Smallest(b) && Largest(a) == Largest(b)
  {
    assert forall r :: r in a <==> r in b by {
      forall r ensures r in a <==> r in b {
        assert r in multiset(a) <==> r in multiset(b);
      }
    }
    if HasPositive(a) {
      ExtremesUnique(b, Smallest(a), Largest(a));
    }
  }
}
