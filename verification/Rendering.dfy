/** What the bounded formatter of the Wi-Fi port writes (chips/ws63/rf/src/log.rs), as a function of
    the format and the arguments alone: no buffer, no limit. */
module Rendering {
  import opened Arithmetic
  import opened Words
  import opened Wrappers

  const USIZE_MAX: nat := 0xFFFF_FFFF
  const MAX_STRING: nat := 256

  const PERCENT: Byte := 0x25
  const MINUS: Byte := 0x2D
  const ZERO: Byte := 0x30
  const SPACE: Byte := 0x20
  const LOWER_A: Byte := 0x61
  const SPEC_D: Byte := 0x64
  const SPEC_S: Byte := 0x73
  const SPEC_U: Byte := 0x75
  const SPEC_X: Byte := 0x78

  // ----- C strings

  /** The readable memory behind a string pointer: it ends in a NUL or is longer than the scan. */
  ghost predicate IsCString(memory: seq<Byte>) {
    0 in memory || |memory| >= MAX_STRING
  }

  /** The bytes before the first NUL, at most 256 of them. */
  function CString(memory: seq<Byte>, n: nat): (s: seq<Byte>)
    requires IsCString(memory) && n <= |memory| && n <= MAX_STRING && 0 !in memory[..n]
    ensures n <= |s| <= MAX_STRING && s <= memory && 0 !in s
    ensures |s| == MAX_STRING || memory[|s|] == 0
    decreases MAX_STRING - n, memory
  {
    if n < MAX_STRING then
      assert n < |memory| by {
        assert memory[..|memory|] == memory;
      }
      if memory[n] == 0 then memory[..n]
      else
        assert memory[..n + 1] == memory[..n] + [memory[n]];
        CString(memory, n + 1)
    else memory[..n]
  }

  /** A null pointer renders as nothing. */
  function StringBytes(pointer: Option<seq<Byte>>): (s: seq<Byte>)
    requires pointer.Some? ==> IsCString(pointer.value)
    ensures |s| <= MAX_STRING
  {
    if pointer.None? then [] else CString(pointer.value, 0)
  }

  // ----- numerals

  function DigitByte(d: nat): Byte
    requires d < 16
  {
    if d < 10 then ZERO + d else LOWER_A + d - 10
  }

  function DigitOf(b: Byte): nat {
    if b < LOWER_A then (if b < ZERO then 0 else b - ZERO) else b - LOWER_A + 10
  }

  function Numeral(value: nat, radix: nat): (s: seq<Byte>)
    requires 2 <= radix <= 16
    ensures |s| > 0
    decreases value
  {
    if value < radix then [DigitByte(value)]
    else
      QuotientSmaller(value, radix);
      Numeral(value / radix, radix) + [DigitByte(value % radix)]
  }

  lemma QuotientSmaller(value: nat, radix: nat)
    requires 2 <= radix <= value
    ensures value / radix < value
  {
    var q := value / radix;
    assert value == radix * q + value % radix;
    MulLe(q, 2, radix);
  }

  function ReadNumeral(s: seq<Byte>, radix: nat): nat {
    if s == [] then 0 else ReadNumeral(s[..|s| - 1], radix) * radix + DigitOf(s[|s| - 1])
  }

  lemma ReadAppend(front: seq<Byte>, q: nat, r: nat, radix: nat)
    requires r < radix <= 16 && ReadNumeral(front, radix) == q
    ensures ReadNumeral(front + [DigitByte(r)], radix) == q * radix + r
  {
    assert (front + [DigitByte(r)])[..|front|] == front;
    DigitReadsBack(r);
  }

  /** A numeral of several digits is a shorter one and its last digit. */
  lemma LastDigit(value: nat, radix: nat) returns (q: nat, r: nat)
    requires 2 <= radix <= 16 && radix <= value
    ensures 0 < q < value && r < radix && value == q * radix + r
    ensures Numeral(value, radix) == Numeral(q, radix) + [DigitByte(r)]
  {
    q, r := value / radix, value % radix;
    assert value == radix * q + r && radix * q == q * radix;
    QuotientSmaller(value, radix);
    QuotientPositive(value, radix);
  }

  /** A numeral reads back to its number. */
  lemma {:induction false} NumeralReadsBack(value: nat, radix: nat)
    requires 2 <= radix <= 16
    ensures ReadNumeral(Numeral(value, radix), radix) == value
    decreases value
  {
    if value < radix {
      ReadAppend([], 0, value, radix);
      assert [] + [DigitByte(value)] == [DigitByte(value)];
    } else {
      var q, r := LastDigit(value, radix);
      NumeralReadsBack(q, radix);
      ReadAppend(Numeral(q, radix), q, r, radix);
    }
  }

  lemma {:induction false} NoLeadingZero(value: nat, radix: nat)
    requires 2 <= radix <= 16 && value > 0
    ensures Numeral(value, radix)[0] != ZERO
    decreases value
  {
    if value < radix {
      DigitReadsBack(value);
    } else {
      var q, r := LastDigit(value, radix);
      NoLeadingZero(q, radix);
    }
  }

  lemma DigitReadsBack(d: nat)
    requires d < 16
    ensures DigitOf(DigitByte(d)) == d && (d > 0 ==> DigitByte(d) != ZERO)
  {
  }

  lemma QuotientPositive(value: nat, radix: nat)
    requires 0 < radix <= value
    ensures value / radix > 0
  {
    assert value == radix * (value / radix) + value % radix;
  }

  lemma {:induction false} NumeralLength(value: nat, radix: nat, n: nat)
    requires 2 <= radix <= 16 && n > 0 && value < Pow(radix, n)
    ensures |Numeral(value, radix)| <= n
    decreases n
  {
    if value >= radix {
      var q, p := value / radix, Pow(radix, n - 1);
      assert value == radix * q + value % radix;
      if q >= p {
        MulLe(radix, p, q);
      }
      QuotientPositive(value, radix);
      if n > 1 {
        NumeralLength(q, radix, n - 1);
      }
    }
  }

  /** Ten digits hold every 32-bit number in both bases. */
  lemma NumeralFits(value: Word, radix: nat)
    requires radix == 10 || radix == 16
    ensures |Numeral(value, radix)| <= 10
  {
    TenPowers();
    NumeralLength(value, radix, if radix == 10 then 10 else 8);
  }

  lemma TenPowers()
    ensures Pow(10, 10) == 100_0000_0000 && Pow(16, 8) == WORD_LIMIT
  {
    assert Pow(10, 5) == 10_0000;
    assert Pow(16, 4) == 0x1_0000;
  }

  // ----- directives

  datatype Directive = Literal(byte: Byte) | Conversion(specifier: Byte, zeroPad: bool, width: nat)

  predicate IsDigit(b: Byte) { ZERO <= b <= ZERO + 9 }

  predicate IsSpecifier(b: Byte) { b == SPEC_S || b == SPEC_U || b == SPEC_D || b == SPEC_X }

  function Saturate(n: nat): nat { if n > USIZE_MAX then USIZE_MAX else n }

  /** The end of the digits from i on, and the width they add to `width`. */
  function ScanWidth(src: seq<Byte>, i: nat, width: nat): (r: (nat, nat))
    requires i <= |src|
    ensures i <= r.0 <= |src|
    decreases |src| - i
  {
    if i < |src| && IsDigit(src[i]) then ScanWidth(src, i + 1, Saturate(Saturate(width * 10) + (src[i] - ZERO)))
    else (i, width)
  }

  /** The directive that starts at i, and where the next one starts. */
  function NextDirective(src: seq<Byte>, i: nat): (r: (Directive, nat))
    requires i < |src|
    ensures i < r.1 <= |src|
  {
    var zeroPad := i + 1 < |src| && src[i + 1] == ZERO;
    var (end, width) := ScanWidth(src, if zeroPad then i + 2 else i + 1, 0);
    if src[i] == PERCENT && end < |src| && IsSpecifier(src[end]) then (Conversion(src[end], zeroPad, width), end + 1)
    else if src[i] == PERCENT && i + 1 < |src| && src[i + 1] == PERCENT then (Literal(PERCENT), i + 2)
    else (Literal(src[i]), i + 1)
  }

  function Parse(src: seq<Byte>, i: nat): seq<Directive>
    requires i <= |src|
    decreases src, |src| - i, 0
  {
    if i == |src| then [] else ParseOne(src, i)
  }

  function ParseOne(src: seq<Byte>, i: nat): seq<Directive>
    requires i < |src|
    decreases src, |src| - i - 1, 1
  {
    var (d, next) := NextDirective(src, i);
    [d] + Parse(src, next)
  }

  // ----- arguments

  /** A promoted C argument: a string pointer, or 32 bits. */
  datatype Argument = Str(pointer: Option<seq<Byte>>) | Int(bits: Word)

  ghost predicate Fits(d: Directive, a: Argument)
    requires d.Conversion?
  {
    if d.specifier == SPEC_S then a.Str? && (a.pointer.Some? ==> IsCString(a.pointer.value)) else a.Int?
  }

  /** The caller passes what the conversions consume. */
  ghost predicate Matches(directives: seq<Directive>, arguments: seq<Argument>)
    decreases directives, arguments, 1
  {
    directives == [] || MatchesOne(directives, arguments)
  }

  ghost predicate MatchesOne(directives: seq<Directive>, arguments: seq<Argument>)
    requires directives != []
    decreases directives, arguments, 0
  {
    if directives[0].Literal? then Matches(directives[1..], arguments)
    else arguments != [] && Fits(directives[0], arguments[0]) && Matches(directives[1..], arguments[1..])
  }

  /** Two's complement: is the sign bit set, and what is the magnitude. */
  function IsNegative(bits: Word): bool { bits >= 0x8000_0000 }

  function Magnitude(bits: Word): Word { if IsNegative(bits) then WORD_LIMIT - bits else bits }

  function Repeat(b: Byte, n: nat): (s: seq<Byte>)
    ensures |s| == n
  {
    seq<Byte>(n, i => b)
  }

  function Negative(specifier: Byte, bits: Word): bool { specifier == SPEC_D && IsNegative(bits) }

  function DigitsOf(specifier: Byte, bits: Word): (s: seq<Byte>)
    ensures |s| > 0
  {
    Numeral(if specifier == SPEC_D then Magnitude(bits) else bits, if specifier == SPEC_X then 16 else 10)
  }

  /** Sign, then padding up to the width, then digits. */
  function RenderInt(specifier: Byte, zeroPad: bool, width: nat, bits: Word): (s: seq<Byte>)
    ensures |s| >= width
  {
    var digits := DigitsOf(specifier, bits);
    var sign := if Negative(specifier, bits) then [MINUS] else [];
    var padding := if width > |digits| + |sign| then width - |digits| - |sign| else 0;
    sign + Repeat(if zeroPad then ZERO else SPACE, padding) + digits
  }

  function Render(d: Directive, a: Argument): seq<Byte>
    requires d.Conversion? && Fits(d, a)
  {
    if d.specifier == SPEC_S then StringBytes(a.pointer)
    else RenderInt(d.specifier, d.zeroPad, d.width, a.bits)
  }

  function RenderAll(directives: seq<Directive>, arguments: seq<Argument>): seq<Byte>
    requires Matches(directives, arguments)
    decreases directives, arguments, 1
  {
    if directives == [] then [] else RenderOne(directives, arguments)
  }

  function RenderOne(directives: seq<Directive>, arguments: seq<Argument>): seq<Byte>
    requires directives != [] && MatchesOne(directives, arguments)
    decreases directives, arguments, 0
  {
    if directives[0].Literal? then [directives[0].byte] + RenderAll(directives[1..], arguments)
    else Render(directives[0], arguments[0]) + RenderAll(directives[1..], arguments[1..])
  }

  // ----- compared with C

  /** The int that the bits are in two's complement. */
  function Signed(bits: Word): int { if bits < WORD_LIMIT / 2 then bits else bits - WORD_LIMIT }

  /** The number that a conversion is given: an int for d, an unsigned int for u and x. */
  function Given(specifier: Byte, bits: Word): int { if specifier == SPEC_D then Signed(bits) else bits }

  function Abs(x: int): nat { if x < 0 then -x else x }

  /** ISO C 7.21.6.1: the number in base 16 for x, 10 for d and u; spaces before the sign, zeros after it. */
  function CRenderInt(specifier: Byte, zeroPad: bool, width: nat, bits: Word): seq<Byte> {
    var value := Given(specifier, bits);
    var digits := Numeral(Abs(value), if specifier == SPEC_X then 16 else 10);
    var sign := if value < 0 then [MINUS] else [];
    var padding := if width > |digits| + |sign| then width - |digits| - |sign| else 0;
    if zeroPad then sign + Repeat(ZERO, padding) + digits else Repeat(SPACE, padding) + sign + digits
  }

  /** The digits read back to the magnitude of the number given, and the sign is there exactly below zero. */
  lemma FieldsMean(specifier: Byte, zeroPad: bool, width: nat, bits: Word)
    requires specifier in {SPEC_D, SPEC_U, SPEC_X}
    ensures var value := Given(specifier, bits);
            && ReadNumeral(DigitsOf(specifier, bits), if specifier == SPEC_X then 16 else 10) == Abs(value)
            && (RenderInt(specifier, zeroPad, width, bits)[..1] == [MINUS] <==> value < 0)
  {
    var value, radix := Given(specifier, bits), if specifier == SPEC_X then 16 else 10;
    NumeralReadsBack(Abs(value), radix);
    FirstIsDigit(Abs(value), radix);
    var field := RenderInt(specifier, zeroPad, width, bits);
    assert field != [] && (field[..1] == [MINUS] <==> field[0] == MINUS);
  }

  lemma {:induction false} FirstIsDigit(value: nat, radix: nat)
    requires 2 <= radix <= 16
    ensures Numeral(value, radix)[0] != MINUS
    decreases value
  {
    if value >= radix {
      var q, r := LastDigit(value, radix);
      FirstIsDigit(q, radix);
    }
  }

  /** Integer fields agree with C except for a negative number padded with spaces. */
  lemma IntFieldsAsInC(specifier: Byte, zeroPad: bool, width: nat, bits: Word)
    ensures RenderInt(specifier, zeroPad, width, bits) == CRenderInt(specifier, zeroPad, width, bits)
       <==> !(Given(specifier, bits) < 0 && !zeroPad && width > |DigitsOf(specifier, bits)| + 1)
  {
    var ours, theirs := RenderInt(specifier, zeroPad, width, bits), CRenderInt(specifier, zeroPad, width, bits);
    if Given(specifier, bits) < 0 && !zeroPad && width > |DigitsOf(specifier, bits)| + 1 {
      assert ours[0] == MINUS && theirs[0] == SPACE;
    }
  }

  /** Such a field: -3 in width 5 has the spaces behind the sign, in C before it. */
  lemma MinusThree(width: nat, bits: Word)
    requires width == 5 && Signed(bits) == -3
    ensures RenderInt(SPEC_D, false, width, bits) == [MINUS, SPACE, SPACE, SPACE, ZERO + 3]
    ensures CRenderInt(SPEC_D, false, width, bits) == [SPACE, SPACE, SPACE, MINUS, ZERO + 3]
  {
    assert Magnitude(bits) == 3;
    assert Numeral(Magnitude(bits), 10) == [ZERO + 3];
  }
}
