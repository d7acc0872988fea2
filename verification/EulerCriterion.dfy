/** Squares modulo a prime p with p mod 4 = 3, told apart by the power (p - 1) / 2. */
module EulerCriterion {
  import opened Arithmetic
  import opened NumberTheory

  ghost predicate IsRoot(y: nat, x: nat, p: nat)
    requires p > 0
  {
    (y * y) % p == x % p
  }

  ghost predicate IsSquare(x: nat, p: nat)
    requires p > 0
  {
    exists y: nat :: IsRoot(y, x, p)
  }

  lemma {:induction false} PowOfSquare(y: nat, n: nat)
    ensures Pow(y * y, n) == Pow(y, 2 * n)
  {
    if n != 0 {
      PowOfSquare(y, n - 1);
      assert Pow(y, 2 * n) == y * (y * Pow(y, 2 * (n - 1)));
      assert y * y * Pow(y, 2 * (n - 1)) == y * (y * Pow(y, 2 * (n - 1)));
    }
  }

  /** Only 1 and -1 are square roots of 1. */
  lemma RootsOfOne(z: nat, p: nat)
    requires IsPrime(p) && z < p && (z * z) % p == 1
    ensures z == 1 || z == p - 1
  {
    if z != 0 {
      QuotientRemainder(1, p, 0, 1);
      MulLe(z, 1, z);
      SameRemainder(1, z * z, p);
      assert z * z - 1 == (z - 1) * (z + 1);
      Euclid(p, z - 1, z + 1);
      QuotientRemainder(z - 1, p, 0, z - 1);
      if z + 1 < p {
        QuotientRemainder(z + 1, p, 0, z + 1);
      }
    }
  }

  function Half(x: nat, p: nat): nat
    requires p > 0
  {
    Pow(x, (p - 1) / 2) % p
  }

  lemma HalfSquared(x: nat, p: nat)
    requires IsPrime(p) && p % 2 == 1 && x % p != 0
    ensures (Half(x, p) * Half(x, p)) % p == 1
  {
    var h := (p - 1) / 2;
    PowAdds(x, h, h);
    ReduceFactors(Pow(x, h), Pow(x, h), p);
    Fermat(x, p);
  }

  lemma SquareHasHalfOne(x: nat, y: nat, p: nat)
    requires IsPrime(p) && p % 2 == 1 && x % p != 0 && IsRoot(y, x, p)
    ensures Half(x, p) == 1
  {
    var h := (p - 1) / 2;
    PowOfReduced(x, h, p);
    PowOfReduced(y * y, h, p);
    PowOfSquare(y, h);
    if y % p == 0 {
      ReduceFactor(y, y, p);
      QuotientRemainder(0, p, 0, 0);
    }
    Fermat(y, p);
  }

  /** The other direction, with the root written down. */
  lemma HalfOneHasRoot(x: nat, p: nat)
    requires IsPrime(p) && p % 4 == 3 && Half(x, p) == 1
    ensures IsRoot(Pow(x, (p + 1) / 4), x, p)
  {
    var q, h := (p + 1) / 4, (p - 1) / 2;
    PowAdds(x, q, q);
    assert q + q == h + 1;
    ReduceFactors(x, Pow(x, h), p);
    assert x % p * 1 == x % p;
    QuotientRemainder(x % p, p, 0, x % p);
  }

  /** Euler's criterion: the power is 1 on squares, p - 1 on the other units. */
  lemma Criterion(x: nat, p: nat)
    requires IsPrime(p) && p % 4 == 3 && x % p != 0
    ensures Half(x, p) == 1 || Half(x, p) == p - 1
    ensures Half(x, p) == 1 <==> IsSquare(x, p)
  {
    HalfSquared(x, p);
    RootsOfOne(Half(x, p), p);
    if Half(x, p) == 1 {
      HalfOneHasRoot(x, p);
    }
    if IsSquare(x, p) {
      var y: nat :| IsRoot(y, x, p);
      SquareHasHalfOne(x, y, p);
    }
  }

  /** The power p - 2 inverts. */
  lemma InversePower(a: nat, p: nat)
    requires IsPrime(p) && a % p != 0
    ensures (a * (Pow(a, p - 2) % p)) % p == 1
  {
    Fermat(a, p);
    var r := Pow(a, p - 2);
    ReduceFactor(r, a, p);
    assert r % p * a == a * (r % p) && r * a == a * r;
  }
}
