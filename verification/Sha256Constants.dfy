/** The constants of FIPS 180-4 are what the standard says: in section 4.2.2 the first 32 bits of the
    fractional parts of the cube roots of the first sixty-four primes, in section 5.3.3 those of the
    square roots of the first eight. */
module Sha256Constants {
  import opened Sha256Spec
  import opened Words

  const PRIMES0: seq<nat> := [2, 3, 5, 7, 11, 13, 17, 19]
  const PRIMES1: seq<nat> := [23, 29, 31, 37, 41, 43, 47, 53]
  const PRIMES2: seq<nat> := [59, 61, 67, 71, 73, 79, 83, 89]
  const PRIMES3: seq<nat> := [97, 101, 103, 107, 109, 113, 127, 131]
  const PRIMES4: seq<nat> := [137, 139, 149, 151, 157, 163, 167, 173]
  const PRIMES5: seq<nat> := [179, 181, 191, 193, 197, 199, 211, 223]
  const PRIMES6: seq<nat> := [227, 229, 233, 239, 241, 251, 257, 263]
  const PRIMES7: seq<nat> := [269, 271, 277, 281, 283, 293, 307, 311]

  const PRIMES: seq<nat> :=
    PRIMES0 + PRIMES1 + PRIMES2 + PRIMES3 + PRIMES4 + PRIMES5 + PRIMES6 + PRIMES7

  function Cube(x: nat): nat { x * x * x }

  function Square(x: nat): nat { x * x }

  /** The cube root of p, times 2^32, is w * 2^32 + k and a fraction below 1. */
  predicate IsCubeRoot(p: nat, w: nat, k: Word) {
    Cube(w * 0x1_0000_0000 + k) <= p * Cube(0x1_0000_0000) < Cube(w * 0x1_0000_0000 + k + 1)
  }

  predicate IsSquareRoot(p: nat, w: nat, h: Word) {
    Square(w * 0x1_0000_0000 + h) <= p * Square(0x1_0000_0000) < Square(w * 0x1_0000_0000 + h + 1)
  }

  ghost predicate HasCubeFraction(p: nat, k: Word) { exists w :: IsCubeRoot(p, w, k) }

  ghost predicate HasSquareFraction(p: nat, h: Word) { exists w :: IsSquareRoot(p, w, h) }

  ghost predicate AreCubeFractions(primes: seq<nat>, constants: seq<Word>) {
    |primes| == |constants| && forall t :: 0 <= t < |primes| ==> HasCubeFraction(primes[t], constants[t])
  }

  lemma Joined(p: seq<nat>, k: seq<Word>, q: seq<nat>, l: seq<Word>)
    requires AreCubeFractions(p, k) && AreCubeFractions(q, l)
    ensures AreCubeFractions(p + q, k + l)
  {
  }

  // ----- section 4.2.2

  lemma Row0()
    ensures AreCubeFractions(PRIMES0, ROW0)
  {
    Roots0();
  }

  lemma Roots0()
    ensures IsCubeRoot(PRIMES0[0], 1, ROW0[0])
    ensures IsCubeRoot(PRIMES0[1], 1, ROW0[1])
    ensures IsCubeRoot(PRIMES0[2], 1, ROW0[2])
    ensures IsCubeRoot(PRIMES0[3], 1, ROW0[3])
    ensures IsCubeRoot(PRIMES0[4], 2, ROW0[4])
    ensures IsCubeRoot(PRIMES0[5], 2, ROW0[5])
    ensures IsCubeRoot(PRIMES0[6], 2, ROW0[6])
    ensures IsCubeRoot(PRIMES0[7], 2, ROW0[7])
  {
  }

  lemma Row1()
    ensures AreCubeFractions(PRIMES1, ROW1)
  {
    Roots1();
  }

  lemma Roots1()
    ensures IsCubeRoot(PRIMES1[0], 2, ROW1[0])
    ensures IsCubeRoot(PRIMES1[1], 3, ROW1[1])
    ensures IsCubeRoot(PRIMES1[2], 3, ROW1[2])
    ensures IsCubeRoot(PRIMES1[3], 3, ROW1[3])
    ensures IsCubeRoot(PRIMES1[4], 3, ROW1[4])
    ensures IsCubeRoot(PRIMES1[5], 3, ROW1[5])
    ensures IsCubeRoot(PRIMES1[6], 3, ROW1[6])
    ensures IsCubeRoot(PRIMES1[7], 3, ROW1[7])
  {
  }

  lemma Row2()
    ensures AreCubeFractions(PRIMES2, ROW2)
  {
    Roots2();
  }

  lemma Roots2()
    ensures IsCubeRoot(PRIMES2[0], 3, ROW2[0])
    ensures IsCubeRoot(PRIMES2[1], 3, ROW2[1])
    ensures IsCubeRoot(PRIMES2[2], 4, ROW2[2])
    ensures IsCubeRoot(PRIMES2[3], 4, ROW2[3])
    ensures IsCubeRoot(PRIMES2[4], 4, ROW2[4])
    ensures IsCubeRoot(PRIMES2[5], 4, ROW2[5])
    ensures IsCubeRoot(PRIMES2[6], 4, ROW2[6])
    ensures IsCubeRoot(PRIMES2[7], 4, ROW2[7])
  {
  }

  lemma Row3()
    ensures AreCubeFractions(PRIMES3, ROW3)
  {
    Roots3();
  }

  lemma Roots3()
    ensures IsCubeRoot(PRIMES3[0], 4, ROW3[0])
    ensures IsCubeRoot(PRIMES3[1], 4, ROW3[1])
    ensures IsCubeRoot(PRIMES3[2], 4, ROW3[2])
    ensures IsCubeRoot(PRIMES3[3], 4, ROW3[3])
    ensures IsCubeRoot(PRIMES3[4], 4, ROW3[4])
    ensures IsCubeRoot(PRIMES3[5], 4, ROW3[5])
    ensures IsCubeRoot(PRIMES3[6], 5, ROW3[6])
    ensures IsCubeRoot(PRIMES3[7], 5, ROW3[7])
  {
  }

  lemma Row4()
    ensures AreCubeFractions(PRIMES4, ROW4)
  {
    Roots4();
  }

  lemma Roots4()
    ensures IsCubeRoot(PRIMES4[0], 5, ROW4[0])
    ensures IsCubeRoot(PRIMES4[1], 5, ROW4[1])
    ensures IsCubeRoot(PRIMES4[2], 5, ROW4[2])
    ensures IsCubeRoot(PRIMES4[3], 5, ROW4[3])
    ensures IsCubeRoot(PRIMES4[4], 5, ROW4[4])
    ensures IsCubeRoot(PRIMES4[5], 5, ROW4[5])
    ensures IsCubeRoot(PRIMES4[6], 5, ROW4[6])
    ensures IsCubeRoot(PRIMES4[7], 5, ROW4[7])
  {
  }

  lemma Row5()
    ensures AreCubeFractions(PRIMES5, ROW5)
  {
    Roots5();
  }

  lemma Roots5()
    ensures IsCubeRoot(PRIMES5[0], 5, ROW5[0])
    ensures IsCubeRoot(PRIMES5[1], 5, ROW5[1])
    ensures IsCubeRoot(PRIMES5[2], 5, ROW5[2])
    ensures IsCubeRoot(PRIMES5[3], 5, ROW5[3])
    ensures IsCubeRoot(PRIMES5[4], 5, ROW5[4])
    ensures IsCubeRoot(PRIMES5[5], 5, ROW5[5])
    ensures IsCubeRoot(PRIMES5[6], 5, ROW5[6])
    ensures IsCubeRoot(PRIMES5[7], 6, ROW5[7])
  {
  }

  lemma Row6()
    ensures AreCubeFractions(PRIMES6, ROW6)
  {
    Roots6();
  }

  lemma Roots6()
    ensures IsCubeRoot(PRIMES6[0], 6, ROW6[0])
    ensures IsCubeRoot(PRIMES6[1], 6, ROW6[1])
    ensures IsCubeRoot(PRIMES6[2], 6, ROW6[2])
    ensures IsCubeRoot(PRIMES6[3], 6, ROW6[3])
    ensures IsCubeRoot(PRIMES6[4], 6, ROW6[4])
    ensures IsCubeRoot(PRIMES6[5], 6, ROW6[5])
    ensures IsCubeRoot(PRIMES6[6], 6, ROW6[6])
    ensures IsCubeRoot(PRIMES6[7], 6, ROW6[7])
  {
  }

  lemma Row7()
    ensures AreCubeFractions(PRIMES7, ROW7)
  {
    Roots7();
  }

  lemma Roots7()
    ensures IsCubeRoot(PRIMES7[0], 6, ROW7[0])
    ensures IsCubeRoot(PRIMES7[1], 6, ROW7[1])
    ensures IsCubeRoot(PRIMES7[2], 6, ROW7[2])
    ensures IsCubeRoot(PRIMES7[3], 6, ROW7[3])
    ensures IsCubeRoot(PRIMES7[4], 6, ROW7[4])
    ensures IsCubeRoot(PRIMES7[5], 6, ROW7[5])
    ensures IsCubeRoot(PRIMES7[6], 6, ROW7[6])
    ensures IsCubeRoot(PRIMES7[7], 6, ROW7[7])
  {
  }

  /** Every round constant is the fraction of the cube root of its prime. */
  lemma RoundConstants()
    ensures |K| == 64 && AreCubeFractions(PRIMES, K)
  {
    var p, k := PRIMES0, ROW0;
    Row0();
    Row1();
    Joined(p, k, PRIMES1, ROW1);
    p, k := p + PRIMES1, k + ROW1;
    Row2();
    Joined(p, k, PRIMES2, ROW2);
    p, k := p + PRIMES2, k + ROW2;
    Row3();
    Joined(p, k, PRIMES3, ROW3);
    p, k := p + PRIMES3, k + ROW3;
    Row4();
    Joined(p, k, PRIMES4, ROW4);
    p, k := p + PRIMES4, k + ROW4;
    Row5();
    Joined(p, k, PRIMES5, ROW5);
    p, k := p + PRIMES5, k + ROW5;
    Row6();
    Joined(p, k, PRIMES6, ROW6);
    p, k := p + PRIMES6, k + ROW6;
    Row7();
    Joined(p, k, PRIMES7, ROW7);
    p, k := p + PRIMES7, k + ROW7;
    assert p == PRIMES && k == K;
  }

  // ----- section 5.3.3

  lemma InitialValue()
    ensures |H| == |PRIMES0|
    ensures forall t: nat :: t < 8 ==> HasSquareFraction(PRIMES0[t], H[t])
  {
    assert IsSquareRoot(PRIMES0[0], 1, H[0]);
    assert IsSquareRoot(PRIMES0[1], 1, H[1]);
    assert IsSquareRoot(PRIMES0[2], 2, H[2]);
    assert IsSquareRoot(PRIMES0[3], 2, H[3]);
    assert IsSquareRoot(PRIMES0[4], 3, H[4]);
    assert IsSquareRoot(PRIMES0[5], 3, H[5]);
    assert IsSquareRoot(PRIMES0[6], 4, H[6]);
    assert IsSquareRoot(PRIMES0[7], 4, H[7]);
  }
}
