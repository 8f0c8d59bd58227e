/** Powers and base-2 logarithms of naturals, as far as the bucket index needs them. */
module Powers {
  function Pow2(n: nat): (p: nat)
    ensures p >= 1
  {
    if n == 0 then 1 else 2 * Pow2(n - 1)
  }

  function Power(b: nat, e: nat): (p: nat)
    ensures b >= 1 ==> p >= 1
  {
    if e == 0 then 1 else b * Power(b, e - 1)
  }

  /** The exponent of the highest power of two that does not exceed `x`. */
  function FloorLog2(x: nat): (k: nat)
    requires x >= 1
    ensures Pow2(k) <= x < Pow2(k + 1)
  {
    if x == 1 then 0 else 1 + FloorLog2(x / 2)
  }

  lemma {:induction false} Pow2Adds(a: nat, b: nat)
    ensures Pow2(a + b) == Pow2(a) * Pow2(b)
  {
    if a > 0 {
      Pow2Adds(a - 1, b);
    }
  }

  lemma {:induction false} Pow2Increases(a: nat, b: nat)
    requires a < b
    ensures Pow2(a) < Pow2(b)
  {
    if a + 1 < b {
      Pow2Increases(a, b - 1);
    }
  }

  /** Comparing powers of two is comparing exponents. */
  lemma Pow2Order(a: nat, b: nat)
    ensures Pow2(a) <= Pow2(b) <==> a <= b
  {
    if a < b {
      Pow2Increases(a, b);
    } else if b < a {
      Pow2Increases(b, a);
    }
  }

  lemma MulAssociates(a: int, b: int, c: int)
    ensures (a * b) * c == a * (b * c)
  {
  }

  lemma MulMonotone(a: nat, b: nat, c: nat, d: nat)
    requires a <= b && c <= d
    ensures a * c <= b * d
  {
    assert a * c <= b * c;
    assert b * c <= b * d;
  }

  lemma {:induction false} PowerAdds(b: nat, e1: nat, e2: nat)
    ensures Power(b, e1 + e2) == Power(b, e1) * Power(b, e2)
  {
    if e1 > 0 {
      PowerAdds(b, e1 - 1, e2);
      MulAssociates(b, Power(b, e1 - 1), Power(b, e2));
    }
  }

  lemma {:induction false} PowerIncreases(a: nat, b: nat, e: nat)
    requires a <= b
    ensures Power(a, e) <= Power(b, e)
  {
    if e > 0 {
      PowerIncreases(a, b, e - 1);
      MulMonotone(a, b, Power(a, e - 1), Power(b, e - 1));
    }
  }

  lemma {:induction false} PowerOfPow2(e: nat, n: nat)
    ensures Power(Pow2(e), n) == Pow2(e * n)
  {
    if n > 0 {
      PowerOfPow2(e, n - 1);
      Pow2Adds(e, e * (n - 1));
      assert e + e * (n - 1) == e * n;
    }
  }

  lemma {:induction false} PowerOfOne(n: nat)
    ensures Power(1, n) == 1
  {
    if n > 0 {
      PowerOfOne(n - 1);
    }
  }

  /** Only powers of two have a power of two as their square. */
  lemma {:induction false} RootOfPow2(x: nat, k: nat)
    requires x >= 1 && x * x == Pow2(k)
    ensures x == Pow2(FloorLog2(x))
  {
    if x % 2 == 1 {
      var h := x / 2;
      assert x * x == 2 * (2 * h * h + 2 * h) + 1 by {
        assert x == 2 * h + 1;
        assert (2 * h + 1) * (2 * h + 1) == 4 * h * h + 4 * h + 1;
      }
      assert k == 0;
      assert x == 1;
    } else {
      var h := x / 2;
      assert x * x == 4 * (h * h) by {
        assert x == 2 * h;
      }
      assert k >= 2;
      assert Pow2(k) == 4 * Pow2(k - 2);
      RootOfPow2(h, k - 2);
    }
  }
}
