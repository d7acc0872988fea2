/** Bytes and 32-bit words as numbers, with the machine operations on them spelled out. */
module Words {
  import opened Arithmetic

  const WORD_LIMIT: nat := 0x1_0000_0000

  type Byte = x: nat | x < 256
  type Word = x: nat | x < WORD_LIMIT

  function Pow2(n: nat): (r: nat)
    ensures r > 0
  {
    if n == 0 then 1 else 2 * Pow2(n - 1)
  }

  function Pow256(n: nat): (r: nat)
    ensures r > 0
  {
    if n == 0 then 1 else 256 * Pow256(n - 1)
  }

  lemma WordRange()
    ensures Pow2(32) == WORD_LIMIT
  {
    assert Pow2(8) == 0x100;
    assert Pow2(16) == 0x1_0000;
    assert Pow2(24) == 0x100_0000;
  }

  /** Addition that wraps at 32 bits. */
  function Add(x: Word, y: Word): Word { (x + y) % WORD_LIMIT }

  /** A sum in words is the sum of the numbers, reduced. */
  lemma OneMore(x: Word, sum: nat, y: Word, z: nat)
    requires x == sum % WORD_LIMIT && y == z % WORD_LIMIT
    ensures Add(x, y) == (sum + z) % WORD_LIMIT
  {
  }

  lemma SumOfFour(a: Word, b: Word, c: Word, d: Word)
    ensures Add(Add(Add(a, b), c), d) == (a + b + c + d) % WORD_LIMIT
  {
    OneMore(Add(a, b), a + b, c, c);
    OneMore(Add(Add(a, b), c), a + b + c, d, d);
  }

  /** Shift right by one bit, n times. */
  function Shr(x: Word, n: nat): Word {
    if n == 0 then x else Shr(x, n - 1) / 2
  }

  /** Rotate right by one bit, n times. */
  function RotR(x: Word, n: nat): Word {
    if n == 0 then x else var y := RotR(x, n - 1); y / 2 + (y % 2) * 0x8000_0000
  }

  function Not(x: Word): Word { WORD_LIMIT - 1 - x }

  /** The low n bits of the exclusive or, and of the conjunction, bit by bit. */
  function XorBits(x: nat, y: nat, n: nat): (r: nat)
    ensures r < Pow2(n)
  {
    if n == 0 then 0 else 2 * XorBits(x / 2, y / 2, n - 1) + (x + y) % 2
  }

  function AndBits(x: nat, y: nat, n: nat): (r: nat)
    ensures r < Pow2(n)
  {
    if n == 0 then 0
    else 2 * AndBits(x / 2, y / 2, n - 1) + if x % 2 == 1 && y % 2 == 1 then 1 else 0
  }

  function OrBits(x: nat, y: nat, n: nat): (r: nat)
    ensures r < Pow2(n)
  {
    if n == 0 then 0
    else 2 * OrBits(x / 2, y / 2, n - 1) + if x % 2 == 1 || y % 2 == 1 then 1 else 0
  }

  function Or(x: Word, y: Word): Word { WordRange(); OrBits(x, y, 32) }
  function Xor(x: Word, y: Word): Word { WordRange(); XorBits(x, y, 32) }
  function And(x: Word, y: Word): Word { WordRange(); AndBits(x, y, 32) }

  /** Masking with k ones keeps the low k bits: the remainder modulo 2^k. */
  lemma {:induction false} MaskIsRemainder(x: nat, k: nat, n: nat)
    requires k <= n
    ensures AndBits(x, Pow2(k) - 1, n) == x % Pow2(k)
  {
    if k == 0 {
      AndZero(x, n);
    } else {
      MaskIsRemainder(x / 2, k - 1, n - 1);
      RemainderByBits(x, Pow2(k - 1));
    }
  }

  /** A k-bit number passes a k-bit mask unchanged. */
  lemma MaskKeeps(x: nat, mask: nat, k: nat, n: nat)
    requires x <= mask && mask + 1 == Pow2(k) && k <= n
    ensures AndBits(x, mask, n) == x
  {
    MaskIsRemainder(x, k, n);
    QuotientRemainder(x, mask + 1, 0, x);
  }

  lemma RemainderByBits(x: nat, m: nat)
    requires m > 0
    ensures (2 * m - 1) / 2 == m - 1 && (2 * m - 1) % 2 == 1
    ensures x % (2 * m) == 2 * (x / 2 % m) + x % 2
  {
    var q, r := x / 2 / m, x / 2 % m;
    assert x / 2 == m * q + r;
    assert (2 * m) * q == 2 * (m * q);
    QuotientRemainder(x, 2 * m, q, 2 * r + x % 2);
  }

  lemma {:induction false} AndZero(x: nat, n: nat)
    ensures AndBits(x, 0, n) == 0
  {
    if n != 0 {
      AndZero(x / 2, n - 1);
    }
  }

  lemma {:induction false} AndBound(x: nat, y: nat, n: nat)
    ensures AndBits(x, y, n) <= x
  {
    if n != 0 {
      AndBound(x / 2, y / 2, n - 1);
    }
  }

  /** Or-ing a field above the low j bits into a j-bit value is addition. */
  lemma {:induction false} OrIsSum(x: nat, y: nat, j: nat, n: nat)
    requires x < Pow2(j) && y < Pow2(n)
    ensures OrBits(x, y * Pow2(j), j + n) == y * Pow2(j) + x
  {
    if j == 0 {
      OrZero(y, n);
    } else {
      var p := Pow2(j - 1);
      assert y * Pow2(j) == 2 * (y * p);
      OrIsSum(x / 2, y, j - 1, n);
    }
  }

  /** A j-bit value or-ed with a field shifted above it: both can be read back. */
  lemma OrFieldReadsBack(low: nat, field: nat, shift: nat, j: nat, n: nat)
    requires j <= n && low < shift == Pow2(j) && field < Pow2(n - j)
    ensures OrBits(low, field * shift, n) / shift == field
    ensures OrBits(low, field * shift, n) % shift == low
  {
    OrIsSum(low, field, j, n - j);
    QuotientRemainder(field * shift + low, shift, field, low);
  }

  lemma {:induction false} OrZero(y: nat, n: nat)
    requires y < Pow2(n)
    ensures OrBits(0, y, n) == y
  {
    if n != 0 {
      OrZero(y / 2, n - 1);
    }
  }

  /** The four bytes of a word, most significant first. */
  function BeWord(b0: Byte, b1: Byte, b2: Byte, b3: Byte): Word {
    b0 * 0x100_0000 + b1 * 0x1_0000 + b2 * 0x100 + b3
  }

  function BeBytes(x: Word): (s: seq<Byte>)
    ensures |s| == 4
  {
    [x / 0x100_0000, x / 0x1_0000 % 256, x / 0x100 % 256, x % 256]
  }

  /** The bytes of a word make it up again. */
  lemma BytesOfWord(w: Word)
    ensures BeWord(w / 0x100_0000, w / 0x1_0000 % 256, w / 0x100 % 256, w % 256) == w
  {
    assert w / 0x1_0000 == w / 0x100 / 0x100;
    assert w / 0x100_0000 == w / 0x1_0000 / 0x100;
  }

  /** The four bytes of a word, least significant first. */
  function LeWord(b0: Byte, b1: Byte, b2: Byte, b3: Byte): Word {
    BeWord(b3, b2, b1, b0)
  }

  lemma BeWordReadsBack(b0: Byte, b1: Byte, b2: Byte, b3: Byte)
    ensures BeBytes(BeWord(b0, b1, b2, b3)) == [b0, b1, b2, b3]
  {
    var x := BeWord(b0, b1, b2, b3);
    assert x / 0x100 == b0 * 0x1_0000 + b1 * 0x100 + b2;
    assert x / 0x1_0000 == b0 * 0x100 + b1;
    assert x / 0x100_0000 == b0;
    assert x % 256 == b3;
    assert (b0 * 0x1_0000 + b1 * 0x100 + b2) % 256 == b2;
    assert (b0 * 0x100 + b1) % 256 == b1;
  }

  lemma LeWordByte(b0: Byte, b1: Byte, b2: Byte, b3: Byte, i: nat)
    requires i < 4
    ensures LeWord(b0, b1, b2, b3) / Pow256(i) % 256 == [b0, b1, b2, b3][i]
  {
    var x := LeWord(b0, b1, b2, b3);
    BeWordReadsBack(b3, b2, b1, b0);
    assert BeBytes(x)[0] == b3 && BeBytes(x)[1] == b2 && BeBytes(x)[2] == b1 && BeBytes(x)[3] == b0;
    assert Pow256(0) == 1 && Pow256(1) == 256;
    assert Pow256(2) == 0x1_0000;
    assert Pow256(3) == 0x100_0000;
  }
}
