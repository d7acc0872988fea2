/** What the definitions of `Sha256Spec` compute, said bit by bit, word by word and byte by byte: the
    functions of section 4.1.2 of FIPS 180-4, the padding of section 5.1.1 and the steps of section 6.2.2. */
module Sha256Meaning {
  import opened BigEndian
  import opened Sha256Spec
  import opened WordBits
  import opened Words

  // ----- the functions on words, bit by bit

  lemma XorWordBit(x: Word, y: Word, i: nat)
    requires i < 32
    ensures Bit(Xor(x, y), i) == (Bit(x, i) + Bit(y, i)) % 2
  {
    var n := 32;
    XorBit(x, y, n, i);
  }

  lemma AndWordBit(x: Word, y: Word, i: nat)
    requires i < 32
    ensures Bit(And(x, y), i) == Both(Bit(x, i), Bit(y, i))
  {
    var n := 32;
    AndBit(x, y, n, i);
  }

  lemma XorOfThree(x: Word, y: Word, z: Word, i: nat)
    requires i < 32
    ensures Bit(Xor(Xor(x, y), z), i) == (Bit(x, i) + Bit(y, i) + Bit(z, i)) % 2
  {
    XorWordBit(x, y, i);
    XorWordBit(Xor(x, y), z, i);
    OneSum(Bit(x, i), Bit(y, i), Bit(z, i));
  }

  lemma OneSum(a: nat, b: nat, c: nat)
    ensures ((a + b) % 2 + c) % 2 == (a + b + c) % 2
  {
  }

  /** Rotations by m, n and o, and a shift in place of the third: the exclusive or of three bits. */
  lemma RotationsBit(x: Word, m: nat, n: nat, o: nat, i: nat)
    requires i < 32
    ensures Bit(Xor(Xor(RotR(x, m), RotR(x, n)), RotR(x, o)), i)
         == (Bit(x, Around(i + m)) + Bit(x, Around(i + n)) + Bit(x, Around(i + o))) % 2
    ensures Bit(Xor(Xor(RotR(x, m), RotR(x, n)), Shr(x, o)), i)
         == (Bit(x, Around(i + m)) + Bit(x, Around(i + n)) + Bit(x, i + o)) % 2
  {
    RotRBit(x, m, i);
    RotRBit(x, n, i);
    RotRBit(x, o, i);
    ShrBit(x, o, i);
    XorOfThree(RotR(x, m), RotR(x, n), RotR(x, o), i);
    XorOfThree(RotR(x, m), RotR(x, n), Shr(x, o), i);
  }

  // Which bits of x each bit of a sigma adds modulo 2.

  lemma BigSigma0Bit(x: Word, i: nat)
    requires i < 32
    ensures Bit(BigSigma0(x), i) == (Bit(x, (i + 2) % 32) + Bit(x, (i + 13) % 32) + Bit(x, (i + 22) % 32)) % 2
  {
    RotationsBit(x, 2, 13, 22, i);
  }

  lemma BigSigma1Bit(x: Word, i: nat)
    requires i < 32
    ensures Bit(BigSigma1(x), i) == (Bit(x, (i + 6) % 32) + Bit(x, (i + 11) % 32) + Bit(x, (i + 25) % 32)) % 2
  {
    RotationsBit(x, 6, 11, 25, i);
  }

  lemma SmallSigma0Bit(x: Word, i: nat)
    requires i < 32
    ensures Bit(SmallSigma0(x), i) == (Bit(x, (i + 7) % 32) + Bit(x, (i + 18) % 32) + Bit(x, i + 3)) % 2
  {
    RotationsBit(x, 7, 18, 3, i);
  }

  lemma SmallSigma1Bit(x: Word, i: nat)
    requires i < 32
    ensures Bit(SmallSigma1(x), i) == (Bit(x, (i + 17) % 32) + Bit(x, (i + 19) % 32) + Bit(x, i + 10)) % 2
  {
    RotationsBit(x, 17, 19, 10, i);
  }

  /** Each bit of x chooses between those of y and z. */
  lemma ChBit(x: Word, y: Word, z: Word, i: nat)
    requires i < 32
    ensures Bit(Ch(x, y, z), i) == if Bit(x, i) == 1 then Bit(y, i) else Bit(z, i)
  {
    BitIsDigit(x, i);
    BitIsDigit(y, i);
    BitIsDigit(z, i);
    NotBit(x, i);
    AndWordBit(x, y, i);
    AndWordBit(Not(x), z, i);
    XorWordBit(And(x, y), And(Not(x), z), i);
    Choice(Bit(x, i), Bit(y, i), Bit(z, i));
  }

  lemma Choice(a: nat, b: nat, c: nat)
    requires a < 2 && b < 2 && c < 2
    ensures (Both(a, b) + Both(1 - a, c)) % 2 == if a == 1 then b else c
  {
  }

  /** The bit that two or three of the words have. */
  lemma MajBit(x: Word, y: Word, z: Word, i: nat)
    requires i < 32
    ensures Bit(Maj(x, y, z), i) == if Bit(x, i) + Bit(y, i) + Bit(z, i) >= 2 then 1 else 0
  {
    BitIsDigit(x, i);
    BitIsDigit(y, i);
    BitIsDigit(z, i);
    AndWordBit(x, y, i);
    AndWordBit(x, z, i);
    AndWordBit(y, z, i);
    XorOfThree(And(x, y), And(x, z), And(y, z), i);
    Majority(Bit(x, i), Bit(y, i), Bit(z, i));
  }

  function Both(a: nat, b: nat): nat { if a == 1 && b == 1 then 1 else 0 }

  lemma Majority(a: nat, b: nat, c: nat)
    requires a < 2 && b < 2 && c < 2
    ensures (Both(a, b) + Both(a, c) + Both(b, c)) % 2 == if a + b + c >= 2 then 1 else 0
  {
  }

  lemma BitIsDigit(x: nat, i: nat)
    ensures Bit(x, i) < 2
  {
    BitByWeight(x, i);
  }

  // ----- the padding

  /** The message, one byte 0x80, as few zeros as leave eight bytes in a block, and the length in bits. */
  lemma PaddingExact(message: seq<Byte>, i: nat)
    requires 8 * |message| < Pow256(8)
    ensures var padded, n := Pad(message), |message|;
            && |padded| % 64 == 0 && n + 9 <= |padded| < n + 9 + 64
            && padded[..n] == message && padded[n] == 0x80
            && (n < i < |padded| - 8 ==> padded[i] == 0)
            && ValueOf(padded[|padded| - 8..]) == 8 * n
  {
    LengthReadsBack(8 * |message|);
    assert Pad(message)[|Pad(message)| - 8..] == BigEndian64(8 * |message|);
  }

  // ----- the schedule and the rounds

  /** The first sixteen words are the block's, big-endian; each later one is a sum of four. */
  lemma ScheduleExact(block: seq<Byte>, t: nat)
    requires |block| == 64 && t < 64
    ensures t < 16 ==> Schedule(block, t) == ValueOf(block[4 * t..4 * t + 4])
    ensures t >= 16 ==>
              Schedule(block, t) == (SmallSigma1(Schedule(block, t - 2)) + Schedule(block, t - 7)
                                     + SmallSigma0(Schedule(block, t - 15)) + Schedule(block, t - 16)) % WORD_LIMIT
  {
    if t < 16 {
      WordValue(block[4 * t..4 * t + 4]);
    } else {
      SumOfFour(SmallSigma1(Schedule(block, t - 2)), Schedule(block, t - 7),
                SmallSigma0(Schedule(block, t - 15)), Schedule(block, t - 16));
    }
  }

  lemma WordValue(s: seq<Byte>)
    requires |s| == 4
    ensures BeWord(s[0], s[1], s[2], s[3]) == ValueOf(s)
  {
    ValueOfWord(s, 0);
    assert s[..4] == s && s[..0] == [];
  }

  /** Working variable number i, a being number 0. */
  function Variable(v: Working, i: nat): Word
    requires i < 8
  {
    match i
    case 0 => v.a
    case 1 => v.b
    case 2 => v.c
    case 3 => v.d
    case 4 => v.e
    case 5 => v.f
    case 6 => v.g
    case 7 => v.h
  }

  /** The rounds start from the state. */
  lemma StateIsStart(h: seq<Word>, i: nat)
    requires |h| == 8 && i < 8
    ensures Variable(WorkingOf(h), i) == h[i]
  {
  }

  lemma AddedAt(h: seq<Word>, v: Working, i: nat)
    requires |h| == 8 && i < 8
    ensures AddWorking(h, v)[i] == (h[i] + Variable(v, i)) % WORD_LIMIT
  {
  }

  /** After the last round the state is added to the working variables, one by one. */
  lemma CompressExact(k: seq<Word>, h: seq<Word>, block: seq<Byte>, n: nat, i: nat)
    requires |h| == 8 && |k| == |block| == n == 64 && i < 8
    ensures Compress(k, h, block)[i] == (h[i] + Variable(Rounds(k, WorkingOf(h), block, n), i)) % WORD_LIMIT
  {
    AddedAt(h, Rounds(k, WorkingOf(h), block, n), i);
  }

  /** Round t, counted from 0, takes constant t and word t. */
  lemma RoundsExact(k: seq<Word>, start: Working, block: seq<Byte>, t: nat)
    requires |k| == |block| == 64 && t < 64
    ensures Rounds(k, start, block, 0) == start
    ensures Rounds(k, start, block, t + 1) == NextWorking(Rounds(k, start, block, t), k[t], Schedule(block, t))
  {
    assert Rounds(k, start, block, t + 1) == Round(k, start, block, t);
  }

  // ----- the chain of blocks and the digest

  lemma ChainExact(k: seq<Word>, blocks: seq<Byte>, block: seq<Byte>)
    requires |k| == 64 && |blocks| % 64 == 0 && |block| == 64
    ensures HashBlocks(k, []) == H
    ensures HashBlocks(k, blocks + block) == Compress(k, HashBlocks(k, blocks), block)
  {
    var whole := blocks + block;
    assert whole[..|whole| - 64] == blocks && whole[|whole| - 64..] == block;
  }

  /** Bytes 4i to 4i + 3 of a digest are word i, big-endian. */
  lemma {:induction false} DigestExact(h: seq<Word>, i: nat)
    requires i < |h|
    ensures ValueOf(DigestBytes(h)[4 * i..4 * i + 4]) == h[i]
  {
    var n := |h| - 1;
    var digest := DigestBytes(h);
    if i == n {
      assert digest[4 * i..4 * i + 4] == BeBytes(h[n]);
      WordValue(BeBytes(h[n]));
      BytesOfWord(h[n]);
    } else {
      DigestExact(h[..n], i);
      assert digest[4 * i..4 * i + 4] == DigestBytes(h[..n])[4 * i..4 * i + 4];
    }
  }

  /** A hash is the state behind the last block of the padded message, its words big-endian. */
  lemma HashExact(k: seq<Word>, message: seq<Byte>, i: nat)
    requires |k| == 64 && i < 8
    ensures ValueOf(HashWith(k, message)[4 * i..4 * i + 4]) == HashBlocks(k, Pad(message))[i]
  {
    DigestExact(HashBlocks(k, Pad(message)), i);
  }
}
