/** The Secure Hash Algorithm SHA-256 as FIPS 180-4 defines it: the functions of section 4.1.2,
    the constants of sections 4.2.2 and 5.3.3, the padding of section 5.1.1 and the hash
    computation of section 6.2.2. Nothing here is buffered: the whole message is one sequence.
    The computation takes its table of round constants as a parameter; SHA-256 is it with K. */
module Sha256Spec {
  import opened Arithmetic
  import opened BigEndian
  import opened Words

  const H: seq<Word> := [
    0x6a09e667, 0xbb67ae85, 0x3c6ef372, 0xa54ff53a, 0x510e527f, 0x9b05688c, 0x1f83d9ab, 0x5be0cd19
  ]

  // The rows of the table of round constants, as section 4.2.2 prints them.
  const ROW0: seq<Word> := [0x428a2f98, 0x71374491, 0xb5c0fbcf, 0xe9b5dba5, 0x3956c25b, 0x59f111f1, 0x923f82a4, 0xab1c5ed5]
  const ROW1: seq<Word> := [0xd807aa98, 0x12835b01, 0x243185be, 0x550c7dc3, 0x72be5d74, 0x80deb1fe, 0x9bdc06a7, 0xc19bf174]
  const ROW2: seq<Word> := [0xe49b69c1, 0xefbe4786, 0x0fc19dc6, 0x240ca1cc, 0x2de92c6f, 0x4a7484aa, 0x5cb0a9dc, 0x76f988da]
  const ROW3: seq<Word> := [0x983e5152, 0xa831c66d, 0xb00327c8, 0xbf597fc7, 0xc6e00bf3, 0xd5a79147, 0x06ca6351, 0x14292967]
  const ROW4: seq<Word> := [0x27b70a85, 0x2e1b2138, 0x4d2c6dfc, 0x53380d13, 0x650a7354, 0x766a0abb, 0x81c2c92e, 0x92722c85]
  const ROW5: seq<Word> := [0xa2bfe8a1, 0xa81a664b, 0xc24b8b70, 0xc76c51a3, 0xd192e819, 0xd6990624, 0xf40e3585, 0x106aa070]
  const ROW6: seq<Word> := [0x19a4c116, 0x1e376c08, 0x2748774c, 0x34b0bcb5, 0x391c0cb3, 0x4ed8aa4a, 0x5b9cca4f, 0x682e6ff3]
  const ROW7: seq<Word> := [0x748f82ee, 0x78a5636f, 0x84c87814, 0x8cc70208, 0x90befffa, 0xa4506ceb, 0xbef9a3f7, 0xc67178f2]

  const K: seq<Word> := ROW0 + ROW1 + ROW2 + ROW3 + ROW4 + ROW5 + ROW6 + ROW7

  // ----- section 4.1.2: functions on words

  function Ch(x: Word, y: Word, z: Word): Word { Xor(And(x, y), And(Not(x), z)) }
  function Maj(x: Word, y: Word, z: Word): Word { Xor(Xor(And(x, y), And(x, z)), And(y, z)) }
  function BigSigma0(x: Word): Word { Xor(Xor(RotR(x, 2), RotR(x, 13)), RotR(x, 22)) }
  function BigSigma1(x: Word): Word { Xor(Xor(RotR(x, 6), RotR(x, 11)), RotR(x, 25)) }
  function SmallSigma0(x: Word): Word { Xor(Xor(RotR(x, 7), RotR(x, 18)), Shr(x, 3)) }
  function SmallSigma1(x: Word): Word { Xor(Xor(RotR(x, 17), RotR(x, 19)), Shr(x, 10)) }

  // ----- section 3.1: words and integers as big-endian byte strings

  function DigestBytes(h: seq<Word>): (s: seq<Byte>)
    ensures |s| == 4 * |h|
  {
    if h == [] then [] else DigestBytes(h[..|h| - 1]) + BeBytes(h[|h| - 1])
  }

  /** The 64-bit big-endian representation of `n`. */
  function BigEndian64(n: nat): (s: seq<Byte>)
    ensures |s| == 8
  {
    seq(8, i requires 0 <= i < 8 => BigEndianByte(n, i))
  }

  function BigEndianByte(n: nat, i: nat): Byte
    requires i < 8
  {
    n / Pow256(7 - i) % 256
  }

  // ----- section 5.1.1: padding, counted in bytes

  /** The number of zero bytes after the byte 0x80 in the padding of an n-byte message. */
  function ZeroCount(n: nat): nat { (119 - n % 64) % 64 }

  function Zeros(n: nat): (s: seq<Byte>)
    ensures |s| == n
  {
    seq(n, i => 0)
  }

  function Pad(message: seq<Byte>): (s: seq<Byte>)
    ensures |s| % 64 == 0
  {
    message + [0x80] + Zeros(ZeroCount(|message|)) + BigEndian64(8 * |message|)
  }

  // ----- section 6.2.2: the hash computation

  function Schedule(block: seq<Byte>, t: nat): Word
    requires |block| == 64 && t < 64
  {
    if t < 16 then
      BeWord(block[4 * t], block[4 * t + 1], block[4 * t + 2], block[4 * t + 3])
    else
      Add(Add(Add(SmallSigma1(Schedule(block, t - 2)), Schedule(block, t - 7)),
              SmallSigma0(Schedule(block, t - 15))),
          Schedule(block, t - 16))
  }

  datatype Working = Working(a: Word, b: Word, c: Word, d: Word, e: Word, f: Word, g: Word, h: Word)

  function WorkingOf(h: seq<Word>): Working
    requires |h| == 8
  {
    Working(h[0], h[1], h[2], h[3], h[4], h[5], h[6], h[7])
  }

  /** One round, with its constant and its word of the schedule. */
  function NextWorking(v: Working, constant: Word, word: Word): Working {
    var t1 := Add(Add(Add(Add(v.h, BigSigma1(v.e)), Ch(v.e, v.f, v.g)), constant), word);
    var t2 := Add(BigSigma0(v.a), Maj(v.a, v.b, v.c));
    Working(Add(t1, t2), v.a, v.b, v.c, Add(v.d, t1), v.e, v.f, v.g)
  }

  /** The working variables after the first t rounds on a block. */
  function Rounds(k: seq<Word>, start: Working, block: seq<Byte>, t: nat): Working
    requires |k| == |block| == 64 && t <= 64
    decreases block, t, 0
  {
    if t == 0 then start else Round(k, start, block, t - 1)
  }

  /** Round number t, counted from 0. */
  function Round(k: seq<Word>, start: Working, block: seq<Byte>, t: nat): Working
    requires |k| == |block| == 64 && t < 64
    decreases block, t, 1
  {
    NextWorking(Rounds(k, start, block, t), k[t], Schedule(block, t))
  }

  function AddWorking(h: seq<Word>, v: Working): (r: seq<Word>)
    requires |h| == 8
    ensures |r| == 8
  {
    [Add(h[0], v.a), Add(h[1], v.b), Add(h[2], v.c), Add(h[3], v.d),
     Add(h[4], v.e), Add(h[5], v.f), Add(h[6], v.g), Add(h[7], v.h)]
  }

  function Compress(k: seq<Word>, h: seq<Word>, block: seq<Byte>): (r: seq<Word>)
    requires |h| == 8 && |k| == |block| == 64
    ensures |r| == 8
  {
    AddWorking(h, Rounds(k, WorkingOf(h), block, 64))
  }

  /** The intermediate hash value after the blocks of `message`, a whole number of blocks. */
  function HashBlocks(k: seq<Word>, message: seq<Byte>): (r: seq<Word>)
    requires |k| == 64 && |message| % 64 == 0
    ensures |r| == 8
  {
    if message == [] then H
    else Compress(k, HashBlocks(k, message[..|message| - 64]), message[|message| - 64..])
  }

  /** The hash computation with any table of round constants. */
  function HashWith(k: seq<Word>, message: seq<Byte>): (digest: seq<Byte>)
    requires |k| == 64
    ensures |digest| == 32
  {
    DigestBytes(HashBlocks(k, Pad(message)))
  }

  function Sha256(message: seq<Byte>): (digest: seq<Byte>)
    ensures |digest| == 32
  {
    HashWith(K, message)
  }

  // ----- what the definitions above mean

  /** Section 5.1.1 asks for the smallest number of zeros that leaves room for the length. */
  lemma ZeroCountIsLeast(n: nat, k: nat)
    ensures (n + 1 + ZeroCount(n)) % 64 == 56
    ensures (n + 1 + k) % 64 == 56 ==> ZeroCount(n) <= k
    ensures (n + 1 + k) % 64 == 56 && k < 64 ==> ZeroCount(n) == k
  {
    var r := n % 64;
    var z := if r < 56 then 55 - r else 119 - r;
    assert ZeroCount(n) == z;
    assert n + 1 + z == 64 * (n / 64) + (r + 1 + z);
    assert (n + 1 + k) % 64 == 56 ==> (k - z) % 64 == 0;
  }

  /** The length field reads back as the length, of any message below 2^64 bits. */
  lemma LengthReadsBack(n: nat)
    requires n < Pow256(8)
    ensures ValueOf(BigEndian64(n)) == n
  {
    PrefixValue(n, 8);
    assert BigEndian64(n)[..8] == BigEndian64(n);
    assert Pow256(0) == 1;
  }

  lemma {:induction false} PrefixValue(n: nat, k: nat)
    requires n < Pow256(8) && k <= 8
    ensures ValueOf(BigEndian64(n)[..k]) == n / Pow256(8 - k)
  {
    var s := BigEndian64(n);
    if k == 0 {
      QuotientRemainder(n, Pow256(8), 0, n);
    } else {
      PrefixValue(n, k - 1);
      assert s[..k][..k - 1] == s[..k - 1];
      var high := n / Pow256(8 - k);
      DivideTwice(n, Pow256(8 - k), 256);
      assert Pow256(9 - k) == Pow256(8 - k) * 256;
      assert high == high / 256 * 256 + high % 256;
    }
  }
}
