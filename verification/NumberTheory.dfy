/** Arithmetic modulo a prime: Euclid's lemma and Fermat's little theorem. */
module NumberTheory {
  import opened Arithmetic

  predicate Divides(d: nat, n: nat)
    requires d > 0
  {
    n % d == 0
  }

  ghost predicate IsPrime(p: nat) {
    p >= 2 && forall d :: 1 < d < p ==> !Divides(d, p)
  }

  function Factorial(n: nat): (r: nat)
    ensures r > 0
  {
    if n == 0 then 1 else n * Factorial(n - 1)
  }

  // ----- congruences

  /** x and y leave the same remainder exactly when d divides their difference. */
  lemma SameRemainder(x: nat, y: nat, d: nat)
    requires d > 0 && x <= y
    ensures x % d == y % d <==> (y - x) % d == 0
  {
    var q, r := (y - x) / d, (y - x) % d;
    var s, t := x / d, x % d;
    assert y == d * (q + s) + (r + t) by {
      assert d * (q + s) == d * q + d * s;
    }
    if r + t < d {
      QuotientRemainder(y, d, q + s, r + t);
    } else {
      assert d * (q + s + 1) == d * (q + s) + d;
      QuotientRemainder(y, d, q + s + 1, r + t - d);
    }
  }

  lemma MultipleHasNoRemainder(k: nat, d: nat)
    requires d > 0
    ensures (d * k) % d == 0
  {
    QuotientRemainder(d * k, d, k, 0);
  }

  /** A factor may be replaced by its remainder. */
  lemma ReduceFactor(a: nat, b: nat, d: nat)
    requires d > 0
    ensures (a % d * b) % d == (a * b) % d
  {
    Parts(a, b, d, a / d, a % d);
  }

  lemma Parts(a: nat, b: nat, d: nat, q: nat, r: nat)
    requires d > 0 && a == d * q + r
    ensures (r * b) % d == (a * b) % d
  {
    Distribute(d, q, r, b);
    var multiple := b * q;
    assert (d * b) * q == d * multiple;
    MultipleHasNoRemainder(multiple, d);
    SameRemainder(r * b, a * b, d);
  }

  lemma ReduceFactors(a: nat, b: nat, d: nat)
    requires d > 0
    ensures (a % d * (b % d)) % d == (a * b) % d
  {
    ReduceFactor(a, b % d, d);
    ReduceFactor(b, a, d);
    assert a * (b % d) == b % d * a && a * b == b * a;
  }

  lemma {:induction false} PowOfReduced(a: nat, n: nat, d: nat)
    requires d > 0
    ensures Pow(a % d, n) % d == Pow(a, n) % d
  {
    if n != 0 {
      PowOfReduced(a, n - 1, d);
      ReduceFactors(a % d, Pow(a % d, n - 1), d);
      ReduceFactors(a, Pow(a, n - 1), d);
      QuotientRemainder(a % d, d, 0, a % d);
    }
  }

  lemma {:induction false} PowAdds(a: nat, m: nat, n: nat)
    ensures Pow(a, m + n) == Pow(a, m) * Pow(a, n)
  {
    if m != 0 {
      PowAdds(a, m - 1, n);
      assert a * (Pow(a, m - 1) * Pow(a, n)) == a * Pow(a, m - 1) * Pow(a, n);
    }
  }

  // ----- Euclid's lemma

  /** If p divides a * b, then also (p mod a) * b. */
  lemma RemainderTimes(p: nat, a: nat, b: nat, q: nat, r: nat)
    requires p > 0 && p == a * q + r && (a * b) % p == 0
    ensures (r * b) % p == 0
  {
    var x, y := (a * b) * q, r * b;
    Distribute(a, q, r, b);
    TimesZero(a * b, q, p);
    MultipleHasNoRemainder(b, p);
    OtherSummand(x, y, p);
  }

  lemma TimesZero(x: nat, q: nat, p: nat)
    requires p > 0 && x % p == 0
    ensures (x * q) % p == 0
  {
    ReduceFactor(x, q, p);
  }

  lemma OtherSummand(x: nat, y: nat, p: nat)
    requires p > 0 && x % p == 0 && (x + y) % p == 0
    ensures y % p == 0
  {
    SameRemainder(x, x + y, p);
  }

  lemma Distribute(a: nat, q: nat, r: nat, b: nat)
    ensures (a * q + r) * b == (a * b) * q + r * b
  {
    Swap(a, b, q);
  }

  lemma {:induction false} EuclidBelow(p: nat, a: nat, b: nat)
    requires IsPrime(p) && 0 < a < p && (a * b) % p == 0
    ensures b % p == 0
    decreases a
  {
    if a == 1 {
      assert a * b == b;
    } else {
      var q, r := p / a, p % a;
      assert !Divides(a, p);
      RemainderTimes(p, a, b, q, r);
      EuclidBelow(p, r, b);
    }
  }

  /** A prime that divides a product divides one of the factors. */
  lemma Euclid(p: nat, a: nat, b: nat)
    requires IsPrime(p) && (a * b) % p == 0
    ensures a % p == 0 || b % p == 0
  {
    if a % p != 0 {
      ReduceFactor(a, b, p);
      EuclidBelow(p, a % p, b);
    }
  }

  /** A factor prime to p may be cancelled. */
  lemma Cancel(p: nat, c: nat, x: nat, y: nat)
    requires IsPrime(p) && c % p != 0
    requires (c * x) % p == (c * y) % p
    ensures x % p == y % p
  {
    var lo, hi := if x <= y then x else y, if x <= y then y else x;
    MulLe(c, lo, hi);
    SameRemainder(c * lo, c * hi, p);
    assert c * hi - c * lo == c * (hi - lo);
    Euclid(p, c, hi - lo);
    SameRemainder(lo, hi, p);
  }

  lemma {:induction false} FactorialIsUnit(p: nat, k: nat)
    requires IsPrime(p) && k < p
    ensures Factorial(k) % p != 0
  {
    if k == 0 {
      QuotientRemainder(1, p, 0, 1);
    } else {
      FactorialIsUnit(p, k - 1);
      QuotientRemainder(k, p, 0, k);
      if Factorial(k) % p == 0 {
        Euclid(p, k, Factorial(k - 1));
      }
    }
  }

  // ----- products over sets

  ghost function Pick(s: set<nat>): (x: nat)
    requires s != {}
    ensures x in s
  {
    var x :| x in s; x
  }

  ghost function Product(s: set<nat>): nat {
    if s == {} then 1 else var x := Pick(s); x * Product(s - {x})
  }

  /** Any element may be taken out first. */
  lemma {:induction false} ProductTake(s: set<nat>, x: nat)
    requires x in s
    ensures Product(s) == x * Product(s - {x})
    decreases |s|
  {
    var y := Pick(s);
    if x != y {
      var rest := s - {x} - {y};
      assert s - {y} - {x} == rest;
      ProductTake(s - {y}, x);
      ProductTake(s - {x}, y);
      Swap(x, y, Product(rest));
    }
  }

  ghost function UpTo(n: nat): (s: set<nat>)
    ensures forall i :: i in s <==> 1 <= i <= n
  {
    if n == 0 then {} else UpTo(n - 1) + {n}
  }

  lemma {:induction false} UpToSize(n: nat)
    ensures |UpTo(n)| == n
  {
    if n != 0 {
      UpToSize(n - 1);
    }
  }

  lemma {:induction false} UpToProduct(n: nat)
    ensures Product(UpTo(n)) == Factorial(n)
  {
    if n != 0 {
      UpToProduct(n - 1);
      ProductTake(UpTo(n), n);
      UpToStep(n);
    }
  }

  lemma UpToStep(n: nat)
    requires n > 0
    ensures n in UpTo(n) && UpTo(n) - {n} == UpTo(n - 1)
  {
  }

  // ----- Fermat's little theorem

  /** The remainders of a, 2a, ..., ka. */
  ghost function Multiples(a: nat, p: nat, k: nat): set<nat>
    requires p > 0
  {
    if k == 0 then {} else Multiples(a, p, k - 1) + {(a * k) % p}
  }

  lemma {:induction false} MultiplesMembers(a: nat, p: nat, k: nat, x: nat)
    requires p > 0
    requires x in Multiples(a, p, k)
    ensures exists i :: 1 <= i <= k && x == (a * i) % p
  {
    if x == (a * k) % p {
    } else {
      MultiplesMembers(a, p, k - 1, x);
    }
  }

  lemma MultiplesDistinct(a: nat, p: nat, i: nat, k: nat)
    requires IsPrime(p) && a % p != 0 && 1 <= i < k < p
    ensures (a * i) % p != (a * k) % p
  {
    if (a * i) % p == (a * k) % p {
      Cancel(p, a, i, k);
      QuotientRemainder(i, p, 0, i);
      QuotientRemainder(k, p, 0, k);
    }
  }

  lemma MultipleIsUnit(a: nat, p: nat, k: nat)
    requires IsPrime(p) && a % p != 0 && 1 <= k < p
    ensures 1 <= (a * k) % p <= p - 1
  {
    QuotientRemainder(k, p, 0, k);
    if (a * k) % p == 0 {
      Euclid(p, a, k);
    }
  }

  lemma MultipleIsNew(a: nat, p: nat, k: nat)
    requires IsPrime(p) && a % p != 0 && 1 <= k < p
    ensures (a * k) % p !in Multiples(a, p, k - 1)
  {
    var x := (a * k) % p;
    if x in Multiples(a, p, k - 1) {
      MultiplesMembers(a, p, k - 1, x);
      var i :| 1 <= i <= k - 1 && x == (a * i) % p;
      MultiplesDistinct(a, p, i, k);
    }
  }

  lemma {:induction false} MultiplesSize(a: nat, p: nat, k: nat)
    requires IsPrime(p) && a % p != 0 && k < p
    ensures Multiples(a, p, k) <= UpTo(p - 1) && |Multiples(a, p, k)| == k
  {
    if k != 0 {
      MultiplesSize(a, p, k - 1);
      MultipleIsUnit(a, p, k);
      MultipleIsNew(a, p, k);
    }
  }

  lemma {:induction false} MultiplesProduct(a: nat, p: nat, k: nat)
    requires IsPrime(p) && a % p != 0 && k < p
    ensures Product(Multiples(a, p, k)) % p == (Pow(a, k) * Factorial(k)) % p
  {
    if k != 0 {
      MultiplesProduct(a, p, k - 1);
      MultiplesStep(a, p, k);
      var rest, u, v := Product(Multiples(a, p, k - 1)), Pow(a, k - 1), Factorial(k - 1);
      ProductCongruence(a, k, p, rest, u, v);
    }
  }

  lemma MultiplesStep(a: nat, p: nat, k: nat)
    requires IsPrime(p) && a % p != 0 && 1 <= k < p
    ensures Product(Multiples(a, p, k)) == (a * k) % p * Product(Multiples(a, p, k - 1))
  {
    var x := (a * k) % p;
    MultipleIsNew(a, p, k);
    ProductTake(Multiples(a, p, k), x);
    assert Multiples(a, p, k) - {x} == Multiples(a, p, k - 1);
  }

  lemma ProductCongruence(a: nat, k: nat, p: nat, rest: nat, u: nat, v: nat)
    requires p > 0 && rest % p == (u * v) % p
    ensures ((a * k) % p * rest) % p == ((a * u) * (k * v)) % p
  {
    ReduceFactor(a * k, rest, p);
    ReduceRight(a * k, rest, u * v, p);
    Regroup(a, k, u, v);
  }

  lemma ReduceRight(c: nat, x: nat, y: nat, p: nat)
    requires p > 0 && x % p == y % p
    ensures (c * x) % p == (c * y) % p
  {
    ReduceFactors(c, x, p);
    ReduceFactors(c, y, p);
  }

  /** Every unit is a multiple: multiplication by a permutes 1, ..., p - 1. */
  lemma AllMultiples(a: nat, p: nat, n: nat)
    requires IsPrime(p) && a % p != 0 && n == p - 1
    ensures Multiples(a, p, n) == UpTo(n)
  {
    MultiplesSize(a, p, n);
    UpToSize(n);
    SubsetOfSameSize(Multiples(a, p, n), UpTo(n));
  }

  /** Fermat's little theorem. */
  lemma Fermat(a: nat, p: nat)
    requires IsPrime(p) && a % p != 0
    ensures Pow(a, p - 1) % p == 1
  {
    var n := p - 1;
    AllMultiples(a, p, n);
    MultiplesProduct(a, p, n);
    UpToProduct(n);
    FactorialIsUnit(p, n);
    CancelOne(p, Factorial(n), Pow(a, n));
  }

  lemma CancelOne(p: nat, c: nat, x: nat)
    requires IsPrime(p) && c % p != 0 && (x * c) % p == c % p
    ensures x % p == 1
  {
    assert x * c == c * x && c == c * 1;
    Cancel(p, c, x, 1);
    QuotientRemainder(1, p, 0, 1);
  }

  lemma SubsetOfSameSize(s: set<nat>, t: set<nat>)
    requires s <= t && |s| == |t|
    ensures s == t
  {
    assert |t - s| == |t| - |s|;
  }
}
