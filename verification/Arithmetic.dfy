/** The minimum, powers, and facts about multiplication, division and remainder with a variable divisor. */
module Arithmetic {
  function Min(a: nat, b: nat): nat { if a < b then a else b }

  function Pow(a: nat, n: nat): nat {
    if n == 0 then 1 else a * Pow(a, n - 1)
  }

  lemma QuotientRemainder(n: int, d: int, q: int, r: int)
    requires d > 0 && n == d * q + r && 0 <= r < d
    ensures n / d == q && n % d == r
  {
    var x := n / d - q;
    assert n == d * (n / d) + n % d;
    assert d * x == d * (n / d) - d * q;
    if x >= 1 {
      MulLe(d, 1, x);
    } else if x <= -1 {
      MulLe(d, x, -1);
    }
  }

  lemma MulLe(d: int, x: int, y: int)
    requires d >= 0 && x <= y
    ensures d * x <= d * y
  {
    assert d * (y - x) >= 0;
  }

  lemma DivideTwice(n: nat, c: nat, d: nat)
    requires c > 0 && d > 0
    ensures c * d > 0 && n / c / d == n / (c * d)
  {
    var q, r := n / c, n % c;
    var s, t := q / d, q % d;
    assert n == c * q + r && q == d * s + t;
    assert n == (c * d) * s + (c * t + r) by {
      assert c * (d * s + t) == (c * d) * s + c * t;
    }
    assert c * t + r < c * d by {
      MulLe(c, t, d - 1);
      assert c * (d - 1) == c * d - c;
    }
    assert 0 <= c * t;
    QuotientRemainder(n, c * d, s, c * t + r);
  }

  lemma Swap(x: int, y: int, z: int)
    ensures y * (x * z) == x * (y * z)
  {
    assert y * (x * z) == (y * x) * z == (x * y) * z;
  }

  lemma Regroup(a: int, b: int, c: int, d: int)
    ensures (a * b) * (c * d) == (a * c) * (b * d)
  {
    assert (a * b) * (c * d) == a * (b * (c * d));
    Swap(c, b, d);
    assert a * (c * (b * d)) == (a * c) * (b * d);
  }
}
