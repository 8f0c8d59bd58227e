/** Rounding-down division by a positive number, and products that order like their factors. */
module Division {
  /** Multiples of `n` are at least `n` apart. */
  lemma {:induction false} MultiplesApart(n: int, a: int, b: int)
    requires n > 0 && a < b
    ensures n * a + n <= n * b
    decreases b - a
  {
    assert n * b == n * (b - 1) + n;
    if a + 1 < b {
      MultiplesApart(n, a, b - 1);
    }
  }

  lemma DivideTwice(a: int, d: nat)
    requires d >= 1
    ensures a / (2 * d) == (a / d) / 2
  {
    var q, r := a / d, a % d;
    var h, b := q / 2, q % 2;
    assert a == q * d + r;
    assert q * d == 2 * h * d + b * d by {
      assert q == 2 * h + b;
    }
    assert a == h * (2 * d) + (b * d + r);
    assert 0 <= b * d + r < 2 * d;
    DivisionUnique(a, 2 * d, h, b * d + r);
  }

  lemma QuotientBelow(a: int, d: nat, k: int)
    requires d >= 1
    ensures a / d < k <==> a < k * d
  {
    var q := a / d;
    assert a == d * q + a % d && k * d == d * k;
    if q < k {
      MultiplesApart(d, q, k);
    } else if k < q {
      MultiplesApart(d, k, q);
    }
  }

  lemma QuotientIs(a: int, d: nat, k: int)
    requires d >= 1
    ensures k == a / d <==> k * d <= a < k * d + d
  {
    QuotientBelow(a, d, k);
    QuotientBelow(a, d, k + 1);
    assert (k + 1) * d == k * d + d;
  }

  lemma DivisionUnique(a: int, d: int, q: int, r: int)
    requires d >= 1 && a == q * d + r && 0 <= r < d
    ensures a / d == q
  {
    QuotientIs(a, d, q);
  }

  lemma DivisionMonotone(a: int, b: int, d: int)
    requires a <= b && d >= 1
    ensures a / d <= b / d
  {
    QuotientBelow(b, d, b / d + 1);
    QuotientBelow(a, d, b / d + 1);
  }
}
