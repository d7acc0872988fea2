/** The format language of the bounded formatter (chips/ws63/rf/src/log.rs), said of the text alone:
    which piece of a format spells which directive, and that parsing finds exactly these pieces. */
module FormatGrammar {
  import opened Rendering
  import opened Words

  function Ascii(c: char): nat { c as int }

  ghost predicate Decimal(digits: seq<Byte>) {
    forall k :: 0 <= k < |digits| ==> Ascii('0') <= digits[k] <= Ascii('9')
  }

  /** A percent sign, a zero to ask for zeros, the width, the letter; a width starts with 0 only behind that zero. */
  ghost predicate SpellsConversion(text: seq<Byte>, zeroPad: bool, width: nat, specifier: Byte) {
    var start := if zeroPad then 2 else 1;
    && |text| > start
    && text[0] == Ascii('%') && text[|text| - 1] == specifier
    && (zeroPad <==> text[1] == Ascii('0'))
    && specifier in {Ascii('s'), Ascii('u'), Ascii('d'), Ascii('x')}
    && Decimal(text[start..|text| - 1])
    && width == Saturate(ReadNumeral(text[start..|text| - 1], 10))
  }

  /** A percent sign is doubled, any other byte stands for itself. */
  ghost predicate Spells(text: seq<Byte>, d: Directive) {
    match d
    case Literal(b) => if b == Ascii('%') then text == [b, b] else text == [b]
    case Conversion(specifier, zeroPad, width) => SpellsConversion(text, zeroPad, width, specifier)
  }

  /** Nothing is spelled here: such a percent sign is taken literally. */
  ghost predicate StrayPercent(text: seq<Byte>) {
    text != [] && text[0] == Ascii('%') && forall n: nat, d :: n <= |text| ==> !Spelled(text, n, d)
  }

  ghost predicate Spelled(text: seq<Byte>, n: nat, d: Directive) {
    n <= |text| && Spells(text[..n], d)
  }

  ghost predicate Begins(text: seq<Byte>, n: nat, d: Directive) {
    Spelled(text, n, d) || (n == 1 && StrayPercent(text) && d == Literal(Ascii('%')))
  }

  /** The text is made of pieces for these directives. */
  ghost predicate Composed(text: seq<Byte>, directives: seq<Directive>)
    decreases |directives|
  {
    if directives == [] then text == []
    else exists n :: 0 < n <= |text| && Begins(text, n, directives[0]) && Composed(text[n..], directives[1..])
  }

  // ----- the digits

  lemma SaturateStep(exact: nat, d: nat)
    requires d < 10
    ensures Saturate(Saturate(Saturate(exact) * 10) + d) == Saturate(exact * 10 + d)
  {
  }

  lemma LastOfDigits(src: seq<Byte>, start: nat, end: nat)
    requires start < end <= |src| && Decimal(src[start..end])
    ensures Decimal(src[start..end - 1]) && Ascii('0') <= src[end - 1] <= Ascii('9')
    ensures ReadNumeral(src[start..end], 10) == ReadNumeral(src[start..end - 1], 10) * 10 + (src[end - 1] - Ascii('0'))
  {
    var digits := src[start..end];
    assert digits[|digits| - 1] == src[end - 1];
    assert digits[..|digits| - 1] == src[start..end - 1];
  }

  /** The scan passes over digits with their value. */
  lemma {:induction false} ScanPasses(src: seq<Byte>, start: nat, end: nat)
    requires start <= end <= |src| && Decimal(src[start..end])
    ensures ScanWidth(src, start, 0) == ScanWidth(src, end, Saturate(ReadNumeral(src[start..end], 10)))
    decreases end
  {
    if start < end {
      LastOfDigits(src, start, end);
      ScanPasses(src, start, end - 1);
      SaturateStep(ReadNumeral(src[start..end - 1], 10), src[end - 1] - Ascii('0'));
    }
  }

  /** It stops behind the last digit. */
  lemma {:induction false} ScanStops(src: seq<Byte>, start: nat, width: nat)
    requires start <= |src|
    ensures var end := ScanWidth(src, start, width).0;
            Decimal(src[start..end]) && (end < |src| ==> !(Ascii('0') <= src[end] <= Ascii('9')))
    decreases |src| - start
  {
    if start < |src| && IsDigit(src[start]) {
      var next := Saturate(Saturate(width * 10) + (src[start] - ZERO));
      ScanStops(src, start + 1, next);
      var end := ScanWidth(src, start + 1, next).0;
      assert src[start..end] == [src[start]] + src[start + 1..end];
    }
  }

  /** The width is the number that the digits from here on read as, cut off at the largest usize. */
  lemma WidthIsDecimal(src: seq<Byte>, start: nat)
    requires start <= |src|
    ensures var (end, width) := ScanWidth(src, start, 0);
            && Decimal(src[start..end])
            && (end < |src| ==> !(Ascii('0') <= src[end] <= Ascii('9')))
            && width == Saturate(ReadNumeral(src[start..end], 10))
  {
    ScanStops(src, start, 0);
    ScanPasses(src, start, ScanWidth(src, start, 0).0);
  }

  // ----- one directive

  lemma Slice(src: seq<Byte>, i: nat, n: nat, start: nat, end: nat)
    requires i <= start <= end <= i + n <= |src|
    ensures src[i..][..n][start - i..end - i] == src[start..end]
  {
  }

  /** The body of a conversion, in the text and in the format. */
  lemma ReadConversion(src: seq<Byte>, i: nat, start: nat, end: nat)
    requires i < |src| && start <= end < |src|
    requires start == if i + 1 < |src| && src[i + 1] == ZERO then i + 2 else i + 1
    requires src[i] == PERCENT && IsSpecifier(src[end]) && Decimal(src[start..end])
    ensures NextDirective(src, i) ==
            (Conversion(src[end], start == i + 2, Saturate(ReadNumeral(src[start..end], 10))), end + 1)
  {
    ScanPasses(src, start, end);
    assert !IsDigit(src[end]);
  }

  /** What is spelled at i is read there. */
  lemma SpelledIsRead(src: seq<Byte>, i: nat, n: nat, d: Directive)
    requires i < |src| && Spelled(src[i..], n, d)
    ensures 0 < n && NextDirective(src, i) == (d, i + n)
  {
    if d.Conversion? {
      var start, end := if d.zeroPad then i + 2 else i + 1, i + n - 1;
      assert |src[i..][..n]| == n;
      Slice(src, i, n, start, end);
      ReadConversion(src, i, start, end);
    }
  }

  /** What is read at i is spelled there, or is a stray percent sign. */
  lemma ReadIsSpelled(src: seq<Byte>, i: nat)
    requires i < |src|
    ensures var (d, next) := NextDirective(src, i);
            Begins(src[i..], next - i, d)
  {
    var (d, next) := NextDirective(src, i);
    if d.Conversion? {
      ConversionIsSpelled(src, i);
    } else if src[i] == PERCENT && next == i + 1 {
      NothingIsSpelled(src, i);
    }
  }

  lemma ConversionIsSpelled(src: seq<Byte>, i: nat)
    requires i < |src| && NextDirective(src, i).0.Conversion?
    ensures var (d, next) := NextDirective(src, i);
            Spelled(src[i..], next - i, d)
  {
    var (d, next) := NextDirective(src, i);
    var start := if d.zeroPad then i + 2 else i + 1;
    WidthIsDecimal(src, start);
    Slice(src, i, next - i, start, next - 1);
  }

  lemma NothingIsSpelled(src: seq<Byte>, i: nat)
    requires i < |src| && NextDirective(src, i) == (Literal(PERCENT), i + 1)
    ensures StrayPercent(src[i..])
  {
    forall n: nat, e | n <= |src[i..]|
      ensures !Spelled(src[i..], n, e)
    {
      if Spelled(src[i..], n, e) {
        SpelledIsRead(src, i, n, e);
      }
    }
  }

  lemma DirectiveExact(src: seq<Byte>, i: nat, n: nat, d: Directive)
    requires i < |src|
    ensures NextDirective(src, i) == (d, i + n) <==> Begins(src[i..], n, d)
  {
    ReadIsSpelled(src, i);
    if Spelled(src[i..], n, d) {
      SpelledIsRead(src, i, n, d);
    }
  }

  // ----- the whole format

  /** Parsing gives these directives exactly when the text is made of pieces that spell them. */
  lemma {:induction false} ParseExact(src: seq<Byte>, i: nat, directives: seq<Directive>)
    requires i <= |src|
    ensures Parse(src, i) == directives <==> Composed(src[i..], directives)
    decreases |src| - i
  {
    if i < |src| {
      var (d, next) := NextDirective(src, i);
      ReadIsSpelled(src, i);
      if directives != [] {
        ParseExact(src, next, directives[1..]);
        assert directives == [directives[0]] + directives[1..];
        FirstPieceIsRead(src, i, directives);
      }
    }
  }

  /** The only first piece is the one read. */
  lemma FirstPieceIsRead(src: seq<Byte>, i: nat, directives: seq<Directive>)
    requires i < |src| && directives != []
    ensures var (d, next) := NextDirective(src, i);
            Composed(src[i..], directives) <==> directives[0] == d && Composed(src[next..], directives[1..])
  {
    var (d, next) := NextDirective(src, i);
    var text, tail := src[i..], src[next..];
    ReadIsSpelled(src, i);
    if Composed(text, directives) {
      var n :| 0 < n <= |text| && Begins(text, n, directives[0]) && Composed(text[n..], directives[1..]);
      DirectiveExact(src, i, n, directives[0]);
      assert text[n..] == tail;
    }
    if directives[0] == d && Composed(tail, directives[1..]) {
      PutFirst(text, tail, next - i, directives);
    }
  }

  lemma PutFirst(text: seq<Byte>, tail: seq<Byte>, n: nat, directives: seq<Directive>)
    requires 0 < n <= |text| && tail == text[n..] && directives != []
    requires Begins(text, n, directives[0]) && Composed(tail, directives[1..])
    ensures Composed(text, directives)
  {
  }

  function Concat(pieces: seq<seq<Byte>>): seq<Byte> {
    if pieces == [] then [] else pieces[0] + Concat(pieces[1..])
  }

  /** A format spelled piece by piece parses to what was spelled. */
  lemma SpelledFormatParses(pieces: seq<seq<Byte>>, directives: seq<Directive>)
    requires |pieces| == |directives|
    requires forall k :: 0 <= k < |pieces| ==> Spells(pieces[k], directives[k])
    ensures Parse(Concat(pieces), 0) == directives
  {
    SpelledIsComposed(pieces, directives);
    assert Concat(pieces)[0..] == Concat(pieces);
    ParseExact(Concat(pieces), 0, directives);
  }

  lemma {:induction false} SpelledIsComposed(pieces: seq<seq<Byte>>, directives: seq<Directive>)
    requires |pieces| == |directives|
    requires forall k :: 0 <= k < |pieces| ==> Spells(pieces[k], directives[k])
    ensures Composed(Concat(pieces), directives)
  {
    if pieces != [] {
      var text, n := Concat(pieces), |pieces[0]|;
      SpelledIsComposed(pieces[1..], directives[1..]);
      assert Spells(pieces[0], directives[0]) && text[..n] == pieces[0];
      PutFirst(text, Concat(pieces[1..]), n, directives);
    }
  }
}
