/** Facts about Euclidean division and remainder that the solver does not
    find on its own. */
module Arith {
  lemma MulAtLeast(d: int, k: int)
    requires d > 0 && k >= 1
    ensures d * k >= d
  {
    assert d * k == d * (k - 1) + d;
    if k > 1 {
      MulAtLeast(d, k - 1);
    }
  }

  lemma DivModUnique(x: int, d: int, q: int, r: int)
    requires d > 0 && 0 <= r < d && x == d * q + r
    ensures x / d == q && x % d == r
  {
    var q' := x / d;
    var r' := x % d;
    assert x == d * q' + r';
    assert d * q' - d * q == r - r';
    assert d * (q' - q) == d * q' - d * q;
    if q' > q {
      MulAtLeast(d, q' - q);
    } else if q' < q {
      assert d * (q - q') == d * q - d * q';
      MulAtLeast(d, q - q');
    }
  }

  /** Adding a multiple of the divisor shifts the quotient and keeps the remainder. */
  lemma DivModAddMultiple(x: int, d: int, k: int)
    requires d > 0
    ensures (d * k + x) / d == k + x / d
    ensures (d * k + x) % d == x % d
  {
    assert d * k + x == d * (k + x / d) + x % d;
    DivModUnique(d * k + x, d, k + x / d, x % d);
  }

  /** Dividing by `a` then reducing modulo `b` only sees `x` modulo `a * b * c`. */
  lemma DivModOfMod(x: int, a: int, b: int, c: int)
    requires a > 0 && b > 0 && c > 0
    ensures ((x % (a * b * c)) / a) % b == (x / a) % b
  {
    var m := a * b * c;
    var q := x / m;
    var rem := x % m;
    assert x == m * q + rem;
    assert m * q == a * (b * c * q);
    DivModAddMultiple(rem, a, b * c * q);
    assert x / a == b * c * q + rem / a;
    assert b * c * q == b * (c * q);
    DivModAddMultiple(rem / a, b, c * q);
  }

  lemma MultipleOfScaled(x: nat, b: int, k: int)
    requires b > 0 && k > 0
    ensures (x * k) % (b * k) == 0 <==> x % b == 0
  {
    var q := x / b;
    var r := x % b;
    assert x * k == (b * k) * q + r * k;
    assert 0 <= r * k;
    if r > 0 {
      assert r * k < b * k;
      MulAtLeast(k, r);
    } else {
      assert r * k == 0;
    }
    DivModUnique(x * k, b * k, q, r * k);
  }

  /** A part of a positive whole is between none and all of it. */
  lemma RatioBounds(a: real, d: real)
    requires d > 0.0 && 0.0 <= a <= d
    ensures 0.0 <= a / d <= 1.0
    ensures a == 0.0 ==> a / d == 0.0
    ensures a == d ==> a / d == 1.0
  {
    var q := a / d;
    assert q * d == a;
    assert (1.0 - q) * d == d - a;
  }
}
