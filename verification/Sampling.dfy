/** Rejection sampling behind a bit mask (chips/ws63/rf/src/crypto_sae.rs): random bytes as wide as
    the modulus, the top byte masked to the modulus's bit width, values not below it rejected. */
module Sampling {
  import opened Arithmetic
  import opened BigEndian
  import opened Words
  import opened Wrappers

  /** The shortest big-endian form; empty for 0. */
  function MinimalBytes(n: nat): (s: seq<Byte>) {
    if n == 0 then [] else MinimalBytes(n / 256) + [n % 256]
  }

  lemma {:induction false} MinimalBytesMeaning(n: nat)
    ensures ValueOf(MinimalBytes(n)) == n
    ensures n > 0 ==> MinimalBytes(n) != [] && MinimalBytes(n)[0] != 0
  {
    if n != 0 {
      MinimalBytesMeaning(n / 256);
      assert MinimalBytes(n)[..|MinimalBytes(n)| - 1] == MinimalBytes(n / 256);
    }
  }

  function LeadingZeros(b: Byte): nat
    requires b > 0
    decreases 256 - b
  {
    if b >= 128 then 0 else 1 + LeadingZeros(2 * b)
  }

  function EntropyTopMask(first: Byte): Option<Byte> {
    if first != 0 then Some(255 / Pow2(LeadingZeros(first))) else None
  }

  /** The byte lies in the band that its leading zeros say. */
  predicate Band(b: nat, zeros: nat) {
    match zeros
    case 0 => 128 <= b < 256
    case 1 => 64 <= b < 128
    case 2 => 32 <= b < 64
    case 3 => 16 <= b < 32
    case 4 => 8 <= b < 16
    case 5 => 4 <= b < 8
    case 6 => 2 <= b < 4
    case 7 => b == 1
    case _ => false
  }

  lemma {:induction false} LeadingZerosBand(b: Byte)
    requires b > 0
    ensures Band(b, LeadingZeros(b))
    decreases 256 - b
  {
    if b < 128 {
      LeadingZerosBand(2 * b);
    }
  }

  /** A power of two that divides 256. */
  predicate IsSpan(span: nat, bits: int) {
    match bits
    case 1 => span == 2
    case 2 => span == 4
    case 3 => span == 8
    case 4 => span == 16
    case 5 => span == 32
    case 6 => span == 64
    case 7 => span == 128
    case 8 => span == 256
    case _ => false
  }

  lemma SpanIsPower(span: nat, bits: nat)
    requires IsSpan(span, bits)
    ensures bits >= 0 && span == Pow2(bits) && span * (256 / span) == 256
  {
    assert Pow2(1) == 2 && Pow2(2) == 4 && Pow2(3) == 8 && Pow2(4) == 16;
    assert Pow2(5) == 32 && Pow2(6) == 64 && Pow2(7) == 128 && Pow2(8) == 256;
  }

  /** The mask is all ones and has exactly the bit width of the byte. */
  lemma MaskWidth(first: Byte)
    requires first > 0
    ensures var span := EntropyTopMask(first).value + 1;
            IsSpan(span, 8 - LeadingZeros(first)) && first < span <= 2 * first
  {
    LeadingZerosBand(first);
    ShiftedOnes(LeadingZeros(first));
  }

  lemma ShiftedOnes(zeros: nat)
    requires zeros <= 7
    ensures IsSpan(255 / Pow2(zeros) + 1, 8 - zeros)
  {
    match zeros
    case 0 => assert Pow2(0) == 1;
    case 1 => assert Pow2(1) == 2;
    case 2 => assert Pow2(2) == 4;
    case 3 => assert Pow2(3) == 8;
    case 4 => assert Pow2(4) == 16;
    case 5 => assert Pow2(5) == 32;
    case 6 => assert Pow2(6) == 64;
    case 7 => assert Pow2(7) == 128;
  }

  // ----- one draw

  ghost predicate IsDraw(raw: seq<Byte>, modulus: nat) {
    modulus > 0 && |raw| == |MinimalBytes(modulus)|
  }

  function TopByte(modulus: nat): Byte
    requires modulus > 0
  {
    MinimalBytesMeaning(modulus);
    MinimalBytes(modulus)[0]
  }

  function TopMask(modulus: nat): Byte
    requires modulus > 0
  {
    MinimalBytesMeaning(modulus);
    EntropyTopMask(TopByte(modulus)).value
  }

  /** The number a draw stands for: the top byte masked, then read big-endian. */
  function Candidate(raw: seq<Byte>, modulus: nat): nat
    requires IsDraw(raw, modulus)
  {
    MinimalBytesMeaning(modulus);
    AndBound(raw[0], TopMask(modulus), 8);
    ValueOf(raw[0 := AndBits(raw[0], TopMask(modulus), 8)])
  }

  /** The number of masked top bytes. */
  function Span(modulus: nat): nat
    requires modulus > 0
  {
    TopMask(modulus) + 1
  }

  lemma SpanFacts(modulus: nat)
    requires modulus > 0
    ensures TopByte(modulus) < Span(modulus) <= 2 * TopByte(modulus)
    ensures Span(modulus) <= 256 && Span(modulus) * (256 / Span(modulus)) == 256
    ensures forall x: nat :: AndBits(x, TopMask(modulus), 8) == x % Span(modulus)
  {
    MinimalBytesMeaning(modulus);
    var first := TopByte(modulus);
    MaskWidth(first);
    var bits := 8 - LeadingZeros(first);
    SpanIsPower(Span(modulus), bits);
    forall x: nat
      ensures AndBits(x, TopMask(modulus), 8) == x % Span(modulus)
    {
      MaskIsRemainder(x, bits, 8);
    }
  }

  /** The candidate is the top byte modulo the span, followed by the other bytes. */
  lemma CandidateParts(raw: seq<Byte>, modulus: nat)
    requires IsDraw(raw, modulus)
    ensures raw != []
    ensures Candidate(raw, modulus) == raw[0] % Span(modulus) * Pow256(|raw| - 1) + ValueOf(raw[1..])
    ensures ValueOf(raw[1..]) < Pow256(|raw| - 1)
  {
    MinimalBytesMeaning(modulus);
    SpanFacts(modulus);
    var masked := raw[0 := AndBits(raw[0], TopMask(modulus), 8)];
    ValueFromFront(masked);
    assert masked[1..] == raw[1..];
    ValueBound(raw[1..]);
  }

  lemma ModulusParts(modulus: nat)
    requires modulus > 0
    ensures MinimalBytes(modulus) != []
    ensures TopByte(modulus) * Pow256(|MinimalBytes(modulus)| - 1) <= modulus
    ensures modulus < TopByte(modulus) * Pow256(|MinimalBytes(modulus)| - 1) + Pow256(|MinimalBytes(modulus)| - 1)
  {
    var m := MinimalBytes(modulus);
    MinimalBytesMeaning(modulus);
    ValueFromFront(m);
    ValueBound(m[1..]);
  }

  /** Every candidate is below twice the modulus. */
  lemma CandidateBound(raw: seq<Byte>, modulus: nat)
    requires IsDraw(raw, modulus)
    ensures Candidate(raw, modulus) < 2 * modulus
  {
    CandidateParts(raw, modulus);
    ModulusParts(modulus);
    SpanFacts(modulus);
    TwiceAsMuch(raw[0] % Span(modulus), TopByte(modulus), Pow256(|raw| - 1), ValueOf(raw[1..]), modulus);
  }

  lemma TwiceAsMuch(r: nat, top: nat, weight: nat, rest: nat, modulus: nat)
    requires r < 2 * top && rest < weight && top * weight <= modulus
    ensures r * weight + rest < 2 * modulus
  {
    MulLe(weight, r + 1, 2 * top);
    assert weight * (r + 1) == r * weight + weight;
    assert weight * (2 * top) == 2 * (top * weight);
  }

  // ----- every value is equally likely

  /** The buffers whose first byte is r modulo the span and below `limit`, with the given tail. */
  ghost function Buffers(r: nat, span: nat, limit: nat, tail: seq<Byte>): (s: set<seq<Byte>>)
    requires r < span && limit <= 256 && limit % span == 0
  {
    if limit < span then {} else
      StepDown(limit, span);
      Buffers(r, span, limit - span, tail) + {[limit - span + r] + tail}
  }

  lemma StepDown(n: nat, span: nat)
    requires 0 < span <= n
    ensures (n - span) % span == n % span && (n - span) / span == n / span - 1
  {
    assert n - span == span * (n / span - 1) + n % span;
    QuotientRemainder(n - span, span, n / span - 1, n % span);
  }

  lemma {:induction false} BuffersExact(r: nat, span: nat, limit: nat, tail: seq<Byte>, raw: seq<Byte>)
    requires r < span && limit <= 256 && limit % span == 0 && raw != []
    ensures raw in Buffers(r, span, limit, tail) <==> raw[0] < limit && raw[0] % span == r && raw[1..] == tail
  {
    if limit < span {
      QuotientRemainder(limit, span, 0, limit);
    } else {
      var base := limit - span;
      StepDown(limit, span);
      BuffersExact(r, span, base, tail, raw);
      assert raw == [raw[0]] + raw[1..];
      InLastSpan(raw[0], base, span, r);
    }
  }

  lemma InLastSpan(x: nat, base: nat, span: nat, r: nat)
    requires r < span && base % span == 0
    ensures base <= x < base + span ==> (x % span == r <==> x == base + r)
  {
    if base <= x < base + span {
      assert x == span * (base / span) + (x - base);
      QuotientRemainder(x, span, base / span, x - base);
    }
  }

  lemma {:induction false} BuffersSize(r: nat, span: nat, limit: nat, tail: seq<Byte>)
    requires r < span && limit <= 256 && limit % span == 0
    ensures |Buffers(r, span, limit, tail)| == limit / span
  {
    if limit < span {
      QuotientRemainder(limit, span, 0, limit);
    } else {
      StepDown(limit, span);
      BuffersSize(r, span, limit - span, tail);
      BuffersExact(r, span, limit - span, tail, [limit - span + r] + tail);
    }
  }

  lemma SpanDivides(modulus: nat)
    requires modulus > 0
    ensures 256 % Span(modulus) == 0
  {
    SpanFacts(modulus);
    QuotientRemainder(256, Span(modulus), 256 / Span(modulus), 0);
  }

  function Digits(v: nat, modulus: nat): seq<Byte> { Encode(v, |MinimalBytes(modulus)|) }

  /** The raw buffers that stand for `v`. */
  ghost function Preimages(v: nat, modulus: nat): set<seq<Byte>>
    requires v < modulus
  {
    DigitBelowSpan(v, modulus);
    SpanDivides(modulus);
    Buffers(Digits(v, modulus)[0], Span(modulus), 256, Digits(v, modulus)[1..])
  }

  lemma DigitBelowSpan(v: nat, modulus: nat)
    requires v < modulus
    ensures Digits(v, modulus) != [] && Digits(v, modulus)[0] < Span(modulus)
    ensures ValueOf(Digits(v, modulus)) == v
  {
    var m, digits := MinimalBytes(modulus), Digits(v, modulus);
    MinimalBytesMeaning(modulus);
    ValueBound(m);
    EncodeReadsBack(v, |m|);
    ValueFromFront(digits);
    ModulusParts(modulus);
    SpanFacts(modulus);
    LeadingDigit(digits[0], m[0], Pow256(|m| - 1), v);
  }

  lemma LeadingDigit(d: nat, top: nat, weight: nat, v: nat)
    requires d * weight <= v < top * weight + weight
    ensures d <= top
  {
    assert weight * (top + 1) == top * weight + weight;
    assert weight * d == d * weight;
    if d > top {
      MulLe(weight, top + 1, d);
    }
  }

  lemma {:induction false} BuffersWidth(r: nat, span: nat, limit: nat, tail: seq<Byte>, raw: seq<Byte>)
    requires r < span && limit <= 256 && limit % span == 0 && raw in Buffers(r, span, limit, tail)
    ensures |raw| == |tail| + 1
  {
    if limit >= span {
      StepDown(limit, span);
      if raw != [limit - span + r] + tail {
        BuffersWidth(r, span, limit - span, tail, raw);
      }
    }
  }

  lemma PreimagesAreDraws(v: nat, modulus: nat, raw: seq<Byte>)
    requires v < modulus && raw in Preimages(v, modulus)
    ensures IsDraw(raw, modulus)
  {
    DigitBelowSpan(v, modulus);
    SpanDivides(modulus);
    BuffersWidth(Digits(v, modulus)[0], Span(modulus), 256, Digits(v, modulus)[1..], raw);
  }

  /** A draw that is read as `v`. */
  ghost predicate StandsFor(raw: seq<Byte>, modulus: nat, v: nat) {
    IsDraw(raw, modulus) && Candidate(raw, modulus) == v
  }

  /** The preimages are exactly the draws that are read as `v`. */
  lemma PreimagesExact(v: nat, modulus: nat, raw: seq<Byte>)
    requires v < modulus
    ensures raw in Preimages(v, modulus) <==> StandsFor(raw, modulus, v)
  {
    if raw in Preimages(v, modulus) {
      PreimagesAreDraws(v, modulus, raw);
    }
    if IsDraw(raw, modulus) {
      DrawsExact(v, modulus, raw);
    }
  }

  lemma DrawsExact(v: nat, modulus: nat, raw: seq<Byte>)
    requires v < modulus && IsDraw(raw, modulus)
    ensures Candidate(raw, modulus) == v <==> raw in Preimages(v, modulus)
  {
    var digits, span, weight := Digits(v, modulus), Span(modulus), Pow256(|raw| - 1);
    CandidateParts(raw, modulus);
    DigitBelowSpan(v, modulus);
    SpanDivides(modulus);
    BuffersExact(digits[0], span, 256, digits[1..], raw);
    ValueFromFront(digits);
    ValueBound(digits[1..]);
    if Candidate(raw, modulus) == v {
      SamePosition(raw[0] % span, ValueOf(raw[1..]), digits[0], ValueOf(digits[1..]), weight);
      ValueReadsBack(raw[1..]);
      ValueReadsBack(digits[1..]);
    }
  }

  lemma SamePosition(a: nat, x: nat, b: nat, y: nat, weight: nat)
    requires x < weight && y < weight && a * weight + x == b * weight + y
    ensures a == b && x == y
  {
    assert a * weight == weight * a && b * weight == weight * b;
    QuotientRemainder(a * weight + x, weight, a, x);
    QuotientRemainder(b * weight + y, weight, b, y);
  }

  /** Every value below the modulus is read from the same number of draws: they are its preimages. */
  lemma EquallyLikely(v: nat, modulus: nat)
    requires v < modulus
    ensures forall raw :: raw in Preimages(v, modulus) <==> StandsFor(raw, modulus, v)
    ensures |Preimages(v, modulus)| == 256 / Span(modulus)
  {
    forall raw
      ensures raw in Preimages(v, modulus) <==> StandsFor(raw, modulus, v)
    {
      PreimagesExact(v, modulus, raw);
    }
    DigitBelowSpan(v, modulus);
    SpanDivides(modulus);
    BuffersSize(Digits(v, modulus)[0], Span(modulus), 256, Digits(v, modulus)[1..]);
  }
}
