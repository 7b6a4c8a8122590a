/** Division facts that need a proof of their own. */
module Arithmetic {

  lemma AtLeast(d: int, t: int)
    requires 0 < d && 1 <= t
    ensures d <= d * t
  {
  }

  lemma DivModUnique(x: int, d: int, q: int, r: int)
    requires 0 <= r < d && x == d * q + r
    ensures x / d == q && x % d == r
  {
    var q', r' := x / d, x % d;
    assert d * (q - q') == r' - r;
    if q < q' {
      AtLeast(d, q' - q);
    } else if q' < q {
      AtLeast(d, q - q');
    }
  }

  lemma MulMonotone(a: nat, x: int, y: int)
    requires x <= y
    ensures a * x <= a * y
  {
  }

  lemma DivMod(n: int, d: int)
    requires 0 < d
    ensures n == d * (n / d) + n % d && 0 <= n % d < d
  {
  }

  lemma Recompose(n: int, d: int, q: int, r: int, gap: int)
    requires n == d * q + r
    ensures (q - gap) * d + r == n - d * gap
  {
  }

  lemma DivSmaller(n: nat, d: nat)
    requires 2 <= d && 0 < n
    ensures 0 <= n / d < n
  {
    var q := n / d;
    MulMonotone(q, 2, d);
    assert q * d == d * q <= n;
  }

  lemma DivAtLeastOne(n: nat, d: nat)
    requires 0 < d <= n
    ensures 1 <= n / d
  {
    var q := n / d;
    DivMod(n, d);
    if q < 1 {
      MulMonotone(d, q, 0);
    }
  }

  /** Dividing by `a` and then by `b` is dividing by the product. */
  lemma DivDiv(n: nat, a: nat, b: nat)
    requires 0 < a && 0 < b
    ensures 0 < a * b
    ensures (n / a) / b == n / (a * b)
  {
    var q, r := n / a, n % a;
    var p, t := q / b, q % b;
    calc {
      n;
      a * q + r;
      a * (b * p + t) + r;
      { assert a * (b * p + t) == a * (b * p) + a * t; }
      a * (b * p) + (a * t + r);
      { assert a * (b * p) == (a * b) * p; }
      (a * b) * p + (a * t + r);
    }
    MulMonotone(a, t, b - 1);
    assert a * (b - 1) == a * b - a;
    AtLeast(a, b);
    DivModUnique(n, a * b, p, a * t + r);
  }
}
