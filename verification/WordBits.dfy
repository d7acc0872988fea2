/** What the operations on words do to each bit; bit i has the weight 2^i. */
module WordBits {
  import opened Arithmetic
  import opened Words

  function Bit(x: nat, i: nat): nat {
    if i == 0 then x % 2 else Bit(x / 2, i - 1)
  }

  lemma {:induction false} BitByWeight(x: nat, i: nat)
    ensures Bit(x, i) == x / Pow2(i) % 2
  {
    if i > 0 {
      BitByWeight(x / 2, i - 1);
      DivideTwice(x, 2, Pow2(i - 1));
    }
  }

  /** Numbers below 2^n with the same n bits are the same. */
  lemma {:induction false} BitsDetermine(x: nat, y: nat, n: nat)
    requires x < Pow2(n) && y < Pow2(n)
    requires forall i: nat :: i < n ==> Bit(x, i) == Bit(y, i)
    ensures x == y
  {
    if n > 0 {
      forall i: nat | i < n - 1
        ensures Bit(x / 2, i) == Bit(y / 2, i)
      {
        assert Bit(x, i + 1) == Bit(y, i + 1);
      }
      BitsDetermine(x / 2, y / 2, n - 1);
      assert Bit(x, 0) == Bit(y, 0);
    }
  }

  lemma {:induction false} XorBit(x: nat, y: nat, n: nat, i: nat)
    requires i < n
    ensures Bit(XorBits(x, y, n), i) == (Bit(x, i) + Bit(y, i)) % 2
  {
    LowBit(XorBits(x / 2, y / 2, n - 1), (x + y) % 2);
    if i > 0 {
      XorBit(x / 2, y / 2, n - 1, i - 1);
    } else {
      LowBitOfSum(x, y);
    }
  }

  lemma LowBit(high: nat, low: nat)
    requires low < 2
    ensures (2 * high + low) / 2 == high && (2 * high + low) % 2 == low
  {
  }

  lemma LowBitOfSum(x: nat, y: nat)
    ensures (x + y) % 2 == (x % 2 + y % 2) % 2
  {
  }

  lemma {:induction false} AndBit(x: nat, y: nat, n: nat, i: nat)
    requires i < n
    ensures Bit(AndBits(x, y, n), i) == if Bit(x, i) == 1 && Bit(y, i) == 1 then 1 else 0
  {
    if i > 0 {
      AndBit(x / 2, y / 2, n - 1, i - 1);
    }
  }

  lemma {:induction false} OrBit(x: nat, y: nat, n: nat, i: nat)
    requires i < n
    ensures Bit(OrBits(x, y, n), i) == if Bit(x, i) == 1 || Bit(y, i) == 1 then 1 else 0
  {
    if i > 0 {
      OrBit(x / 2, y / 2, n - 1, i - 1);
    }
  }

  lemma {:induction false} ComplementBit(x: nat, n: nat, i: nat)
    requires x < Pow2(n) && i < n
    ensures Bit(Pow2(n) - 1 - x, i) == 1 - Bit(x, i)
  {
    if i > 0 {
      assert (Pow2(n) - 1 - x) / 2 == Pow2(n - 1) - 1 - x / 2;
      ComplementBit(x / 2, n - 1, i - 1);
    }
  }

  lemma NotBit(x: Word, i: nat)
    requires i < 32
    ensures Bit(Not(x), i) == 1 - Bit(x, i)
  {
    var n := 32;
    WordRange();
    ComplementBit(x, n, i);
  }

  lemma {:induction false} ShrBit(x: Word, n: nat, i: nat)
    ensures Bit(Shr(x, n), i) == Bit(x, i + n)
  {
    if n > 0 {
      ShrBit(x, n - 1, i + 1);
    }
  }

  /** A bit put on top of n bits. */
  lemma {:induction false} TopBit(y: nat, b: nat, n: nat, i: nat)
    requires y < Pow2(n) && b < 2 && i <= n
    ensures Bit(y + b * Pow2(n), i) == if i == n then b else Bit(y, i)
  {
    if n > 0 {
      assert b * Pow2(n) == 2 * (b * Pow2(n - 1));
    }
    if i > 0 {
      assert (y + b * Pow2(n)) / 2 == y / 2 + b * Pow2(n - 1);
      TopBit(y / 2, b, n - 1, i - 1);
    }
  }

  /** One step: bit 0 goes to the top, the others move down. */
  lemma RotateStep(y: Word, z: Word, n: nat, i: nat)
    requires Pow2(n) == 0x8000_0000 && z == y / 2 + (y % 2) * 0x8000_0000 && i <= n
    ensures Bit(z, i) == if i == n then Bit(y, 0) else Bit(y, i + 1)
  {
    TopBit(y / 2, y % 2, n, i);
  }

  /** Rotation moves bit i + n, counted around the word, to place i. */
  lemma {:induction false} RotRBit(x: Word, n: nat, i: nat)
    requires i < 32
    ensures Bit(RotR(x, n), i) == Bit(x, Around(i + n))
  {
    if n == 0 {
      assert Around(i) == i;
    } else {
      ghost var y := RotR(x, n - 1);
      OneRotation(y, RotR(x, n), i);
      RotRBit(x, n - 1, Around(i + 1));
      AroundTwice(i, n);
    }
  }

  lemma OneRotation(y: Word, z: Word, i: nat)
    requires z == y / 2 + (y % 2) * 0x8000_0000 && i < 32
    ensures Bit(z, i) == Bit(y, Around(i + 1))
  {
    var n := 31;
    TopWeight(n);
    RotateStep(y, z, n, i);
  }

  lemma AroundTwice(i: nat, n: nat)
    requires n > 0
    ensures Around(Around(i + 1) + (n - 1)) == Around(i + n)
  {
  }

  function Around(i: nat): nat { i % 32 }

  lemma TopWeight(n: nat)
    requires n == 31
    ensures Pow2(n) == 0x8000_0000
  {
    WordRange();
    assert Pow2(n + 1) == 2 * Pow2(n);
  }
}
