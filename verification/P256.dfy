/** The field prime of the curve P-256, the 32-byte constants of chips/ws63/rf/src/crypto_sae.rs
    written word by word, and what the constants decode to. */
module P256 {
  import opened BigEndian
  import opened Words

  const PRIME: nat := 0xffffffff00000001000000000000000000000000ffffffffffffffffffffffff

  /** A 32-byte string as its eight words, first byte first. */
  function Bytes32(w0: Word, w1: Word, w2: Word, w3: Word, w4: Word, w5: Word, w6: Word, w7: Word): (s: seq<Byte>)
    ensures |s| == 32
  {
    BeBytes(w0) + BeBytes(w1) + BeBytes(w2) + BeBytes(w3) + BeBytes(w4) + BeBytes(w5) + BeBytes(w6) + BeBytes(w7)
  }

  function FieldPrime(): seq<Byte> {
    Bytes32(0xffffffff, 0x00000001, 0, 0, 0, 0xffffffff, 0xffffffff, 0xffffffff)
  }

  function InverseExponent(): seq<Byte> {
    Bytes32(0xffffffff, 0x00000001, 0, 0, 0, 0xffffffff, 0xffffffff, 0xfffffffd)
  }

  function LegendreExponent(): seq<Byte> {
    Bytes32(0x7fffffff, 0x80000000, 0x80000000, 0, 0, 0x7fffffff, 0xffffffff, 0xffffffff)
  }

  function FieldOne(): seq<Byte> {
    Bytes32(0, 0, 0, 0, 0, 0, 0, 1)
  }

  function FieldMinusOne(): seq<Byte> {
    Bytes32(0xffffffff, 0x00000001, 0, 0, 0, 0xffffffff, 0xffffffff, 0xfffffffe)
  }

  /** The prime is the one of FIPS 186-4, appendix D.1.2.3: with b = 2^32 it is
      b^8 - b^7 + b^6 + b^3 - 1; and it is 3 modulo 4. */
  lemma PrimeIsFips(b: nat)
    requires b == WORD_LIMIT
    ensures PRIME == b * b * b * b * b * b * b * b - b * b * b * b * b * b * b + b * b * b * b * b * b + b * b * b - 1
    ensures PRIME % 4 == 3
  {
  }

  // ----- what the byte constants mean

  lemma ValueOfAppendedWord(s: seq<Byte>, w: Word)
    ensures ValueOf(s + BeBytes(w)) == ValueOf(s) * WORD_LIMIT + w
  {
    var whole := s + BeBytes(w);
    ValueOfWord(whole, |s|);
    assert whole[..|s|] == s && whole[..|s| + 4] == whole;
    BytesOfWord(w);
  }

  function Join(v: nat, w0: nat, w1: nat, w2: nat, w3: nat): nat {
    (((v * WORD_LIMIT + w0) * WORD_LIMIT + w1) * WORD_LIMIT + w2) * WORD_LIMIT + w3
  }

  lemma ValueOfFourWords(s: seq<Byte>, w0: Word, w1: Word, w2: Word, w3: Word)
    ensures ValueOf(s + BeBytes(w0) + BeBytes(w1) + BeBytes(w2) + BeBytes(w3)) == Join(ValueOf(s), w0, w1, w2, w3)
  {
    ValueOfAppendedWord(s, w0);
    ValueOfAppendedWord(s + BeBytes(w0), w1);
    ValueOfAppendedWord(s + BeBytes(w0) + BeBytes(w1), w2);
    ValueOfAppendedWord(s + BeBytes(w0) + BeBytes(w1) + BeBytes(w2), w3);
  }

  lemma ValueOfBytes32(w0: Word, w1: Word, w2: Word, w3: Word, w4: Word, w5: Word, w6: Word, w7: Word)
    ensures ValueOf(Bytes32(w0, w1, w2, w3, w4, w5, w6, w7)) == Join(Join(0, w0, w1, w2, w3), w4, w5, w6, w7)
  {
    ValueOfFourWords([], w0, w1, w2, w3);
    assert [] + BeBytes(w0) == BeBytes(w0);
    ValueOfFourWords(BeBytes(w0) + BeBytes(w1) + BeBytes(w2) + BeBytes(w3), w4, w5, w6, w7);
  }

  lemma PrimeDecodes()
    ensures ValueOf(FieldPrime()) == PRIME
  {
    ValueOfBytes32(0xffffffff, 1, 0, 0, 0, 0xffffffff, 0xffffffff, 0xffffffff);
  }

  lemma InverseExponentDecodes()
    ensures ValueOf(InverseExponent()) == PRIME - 2
  {
    ValueOfBytes32(0xffffffff, 1, 0, 0, 0, 0xffffffff, 0xffffffff, 0xfffffffd);
  }

  lemma LegendreExponentDecodes()
    ensures ValueOf(LegendreExponent()) == (PRIME - 1) / 2
  {
    ValueOfBytes32(0x7fffffff, 0x80000000, 0x80000000, 0, 0, 0x7fffffff, 0xffffffff, 0xffffffff);
  }

  lemma OneDecodes()
    ensures ValueOf(FieldOne()) == 1
  {
    ValueOfBytes32(0, 0, 0, 0, 0, 0, 0, 1);
  }

  lemma MinusOneDecodes()
    ensures ValueOf(FieldMinusOne()) == PRIME - 1
  {
    ValueOfBytes32(0xffffffff, 1, 0, 0, 0, 0xffffffff, 0xffffffff, 0xfffffffe);
  }
}
