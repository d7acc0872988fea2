/** The bounded formatter itself (chips/ws63/rf/src/log.rs, `vsnprintf_subset`): one pass over the
    format that writes the rendering in place, or clears the destination when it does not fit. */
module Formatter {
  import opened Rendering
  import opened Words
  import opened Wrappers

  const USIZE_LIMIT: nat := 0x1_0000_0000

  /** usize addition. */
  function WrapAdd(x: nat, y: nat): nat { (x + y) % USIZE_LIMIT }

  /** `cstr_bytes`: scan to the NUL, at most 256 bytes. */
  method CStrBytes(pointer: Option<seq<Byte>>) returns (s: seq<Byte>)
    requires pointer.Some? ==> IsCString(pointer.value)
    ensures s == StringBytes(pointer)
  {
    if pointer.None? {
      return [];
    }
    var p := pointer.value;
    var n := 0;
    assert p[..0] == [];
    while n < MAX_STRING && (n < |p| ==> p[n] != 0)
      invariant n <= |p| && n <= MAX_STRING && 0 !in p[..n]
      invariant CString(p, n) == CString(p, 0)
      decreases MAX_STRING - n
    {
      assert p[..|p|] == p;
      assert p[..n + 1] == p[..n] + [p[n]];
      n := n + 1;
    }
    return p[..n];
  }

  /** Most significant digit last, as the digit loop leaves it. */
  function Reversed(s: seq<Byte>): (r: seq<Byte>)
    ensures |r| == |s|
    ensures forall i :: 0 <= i < |s| ==> r[i] == s[|s| - 1 - i]
  {
    if s == [] then [] else [s[|s| - 1]] + Reversed(s[..|s| - 1])
  }

  /** The digit loop; the scratch array of ten bytes never overflows. */
  method Digits(argument: Word, radix: nat, digits: array<Byte>) returns (len: nat)
    requires radix == 10 || radix == 16
    requires digits.Length == 10
    modifies digits
    ensures 0 < len <= 10 && Reversed(digits[..len]) == Numeral(argument, radix)
  {
    NumeralFits(argument, radix);
    var value: nat := argument;
    len := 0;
    while true
      invariant len + |Numeral(value, radix)| <= 10
      invariant Numeral(value, radix) + Reversed(digits[..len]) == Numeral(argument, radix)
      decreases value
    {
      var digit, rest := NextDigit(value, radix);
      MoveDigit(if rest == 0 then [] else Numeral(rest, radix), DigitByte(digit), Reversed(digits[..len]));
      PutDigit(digits, len, digit);
      len := len + 1;
      if rest == 0 {
        break;
      }
      value := rest;
    }
  }

  /** The last digit and the number without it. */
  method NextDigit(value: nat, radix: nat) returns (digit: nat, rest: nat)
    requires 2 <= radix <= 16
    ensures digit < radix && (rest > 0 ==> rest < value)
    ensures Numeral(value, radix) == (if rest == 0 then [] else Numeral(rest, radix)) + [DigitByte(digit)]
  {
    digit, rest := value % radix, value / radix;
    NumeralStep(value, radix);
    if value >= radix {
      QuotientSmaller(value, radix);
    }
  }

  lemma MoveDigit(front: seq<Byte>, b: Byte, back: seq<Byte>)
    ensures front + [b] + back == front + ([b] + back)
  {
  }

  method PutDigit(digits: array<Byte>, at: nat, digit: nat)
    requires at < digits.Length && digit < 16
    modifies digits
    ensures digits[..at + 1] == old(digits[..at]) + [DigitByte(digit)]
    ensures Reversed(digits[..at + 1]) == [DigitByte(digit)] + Reversed(old(digits[..at]))
  {
    ghost var before := digits[..at];
    digits[at] := if digit < 10 then ZERO + digit else LOWER_A + digit - 10;
    ReversedSnoc(before, DigitByte(digit));
    assert digits[..at + 1] == before + [DigitByte(digit)];
  }

  lemma ReversedSnoc(s: seq<Byte>, b: Byte)
    ensures Reversed(s + [b]) == [b] + Reversed(s)
  {
  }

  lemma NumeralStep(value: nat, radix: nat)
    requires 2 <= radix <= 16
    ensures value / radix == 0 <==> value < radix
    ensures value / radix == 0 ==> Numeral(value, radix) == [DigitByte(value % radix)]
    ensures value / radix > 0 ==> Numeral(value, radix) == Numeral(value / radix, radix) + [DigitByte(value % radix)]
  {
    if value >= radix {
      QuotientPositive(value, radix);
    }
  }

  /** What the buffer holds once `done` is written at its front. */
  ghost predicate Written(now: seq<Byte>, before: seq<Byte>, done: seq<Byte>) {
    |now| == |before| && |done| <= |now| && now == done + before[|done|..]
  }

  method Append(buf: array<Byte>, start: nat, bytes: seq<Byte>, ghost before: seq<Byte>, ghost done: seq<Byte>)
    requires start == |done| && start + |bytes| <= buf.Length
    requires Written(buf[..], before, done)
    modifies buf
    ensures Written(buf[..], before, done + bytes)
  {
    for i := 0 to |bytes|
      invariant Written(buf[..], before, done + bytes[..i])
    {
      buf[start + i] := bytes[i];
      assert bytes[..i + 1] == bytes[..i] + [bytes[i]];
    }
    assert bytes[..|bytes|] == bytes;
  }

  /** One integer conversion: None when it does not fit below the limit. */
  method WriteInt(buf: array<Byte>, outputIndex: nat, limit: nat, specifier: Byte, zeroPad: bool, width: nat, bits: Word,
                  ghost before: seq<Byte>, ghost done: seq<Byte>) returns (next: Option<nat>)
    requires outputIndex == |done| <= limit < buf.Length
    requires outputIndex + |RenderInt(specifier, zeroPad, width, bits)| < USIZE_LIMIT
    requires Written(buf[..], before, done)
    modifies buf
    ensures var piece := RenderInt(specifier, zeroPad, width, bits);
            if outputIndex + |piece| <= limit
            then next == Some(outputIndex + |piece|) && Written(buf[..], before, done + piece)
            else next == None && buf[..] == old(buf[..])
  {
    var digits := ScratchDigits(specifier, bits);
    var sign := if Negative(specifier, bits) then [MINUS] else [];
    var renderedLen := if |digits| + |sign| > width then |digits| + |sign| else width;
    var pad := if zeroPad then ZERO else SPACE;
    RenderIntParts(specifier, zeroPad, width, bits, sign, pad, digits);
    NoWrap(outputIndex, renderedLen);
    if WrapAdd(outputIndex, renderedLen) > limit {
      return None;
    }
    WriteField(buf, outputIndex, sign, pad, renderedLen - |digits| - |sign|, digits, before, done);
    return Some(outputIndex + renderedLen);
  }

  lemma NoWrap(x: nat, y: nat)
    requires x + y < USIZE_LIMIT
    ensures WrapAdd(x, y) == x + y
  {
  }

  method ScratchDigits(specifier: Byte, bits: Word) returns (digits: seq<Byte>)
    ensures digits == DigitsOf(specifier, bits) && |digits| <= 10
  {
    var scratch := new Byte[10](i => 0);
    var argument := if specifier == SPEC_D then Magnitude(bits) else bits;
    var digitsLen := Digits(argument, if specifier == SPEC_X then 16 else 10, scratch);
    digits := Reversed(scratch[..digitsLen]);
  }

  lemma RenderIntParts(specifier: Byte, zeroPad: bool, width: nat, bits: Word,
                       sign: seq<Byte>, pad: Byte, digits: seq<Byte>)
    requires sign == if Negative(specifier, bits) then [MINUS] else []
    requires pad == if zeroPad then ZERO else SPACE
    requires digits == DigitsOf(specifier, bits)
    ensures var len := if |digits| + |sign| > width then |digits| + |sign| else width;
            RenderInt(specifier, zeroPad, width, bits) == sign + Repeat(pad, len - |digits| - |sign|) + digits
  {
  }

  method WriteField(buf: array<Byte>, start: nat, sign: seq<Byte>, pad: Byte, padding: nat, digits: seq<Byte>,
                    ghost before: seq<Byte>, ghost done: seq<Byte>)
    requires start == |done| && start + |sign| + padding + |digits| <= buf.Length
    requires Written(buf[..], before, done)
    modifies buf
    ensures Written(buf[..], before, done + (sign + Repeat(pad, padding) + digits))
  {
    Append(buf, start, sign, before, done);
    Append(buf, start + |sign|, Repeat(pad, padding), before, done + sign);
    Append(buf, start + |sign| + padding, digits, before, done + sign + Repeat(pad, padding));
    assert done + sign + Repeat(pad, padding) + digits == done + (sign + Repeat(pad, padding) + digits);
  }

  // ----- the pass over the format

  /** No sum of an output index and the length of a field overflows: said of the fields that are reached,
      from the one at output index `at` on. */
  ghost predicate SumsFit(directives: seq<Directive>, arguments: seq<Argument>, at: nat, limit: nat)
    requires Matches(directives, arguments)
    decreases directives, arguments, 1
  {
    directives == [] || SumsFitOne(directives, arguments, at, limit)
  }

  ghost predicate SumsFitOne(directives: seq<Directive>, arguments: seq<Argument>, at: nat, limit: nat)
    requires directives != [] && MatchesOne(directives, arguments)
    decreases directives, arguments, 0
  {
    if directives[0].Literal? then at < limit ==> SumsFit(directives[1..], arguments, at + 1, limit)
    else
      var end := at + |Render(directives[0], arguments[0])|;
      end < USIZE_LIMIT && (end <= limit ==> SumsFit(directives[1..], arguments[1..], end, limit))
  }

  /** Moderate widths and a limit below 2^32 - 256 are enough, whatever the arguments. */
  lemma {:induction false} ModerateWidthsFit(directives: seq<Directive>, arguments: seq<Argument>, at: nat, limit: nat)
    requires Matches(directives, arguments) && at <= limit && limit + MAX_STRING < USIZE_LIMIT
    requires forall d :: d in directives && d.Conversion? && d.specifier != SPEC_S ==> limit + d.width < USIZE_LIMIT
    ensures SumsFit(directives, arguments, at, limit)
    decreases directives
  {
    if directives != [] {
      var d := directives[0];
      assert MatchesOne(directives, arguments);
      if d.Literal? {
        if at < limit {
          ModerateWidthsFit(directives[1..], arguments, at + 1, limit);
        }
      } else {
        assert d in directives;
        var end := at + |Render(d, arguments[0])|;
        if d.specifier != SPEC_S {
          IntLength(d.specifier, d.zeroPad, d.width, arguments[0].bits);
        }
        if end <= limit {
          ModerateWidthsFit(directives[1..], arguments[1..], end, limit);
        }
      }
      assert SumsFitOne(directives, arguments, at, limit);
    }
  }

  lemma IntLength(specifier: Byte, zeroPad: bool, width: nat, bits: Word)
    ensures |RenderInt(specifier, zeroPad, width, bits)| <= if width > 11 then width else 11
  {
    NumeralFits(Magnitude(bits), 10);
    NumeralFits(bits, 10);
    NumeralFits(bits, 16);
    NumeralFits(Magnitude(bits), 16);
  }

  /** The check made of each field that is reached tells whether the field fits. */
  ghost predicate ChecksTellFit(directives: seq<Directive>, arguments: seq<Argument>, at: nat, limit: nat)
    requires Matches(directives, arguments)
    decreases directives, arguments, 1
  {
    directives == [] || ChecksTellFitOne(directives, arguments, at, limit)
  }

  ghost predicate ChecksTellFitOne(directives: seq<Directive>, arguments: seq<Argument>, at: nat, limit: nat)
    requires directives != [] && MatchesOne(directives, arguments)
    decreases directives, arguments, 0
  {
    if directives[0].Literal? then at < limit ==> ChecksTellFit(directives[1..], arguments, at + 1, limit)
    else
      var len := |Render(directives[0], arguments[0])|;
      && (WrapAdd(at, len) <= limit <==> at + len <= limit)
      && (at + len <= limit ==> ChecksTellFit(directives[1..], arguments[1..], at + len, limit))
  }

  /** A field that wraps the sum passes the check though it does not fit. */
  lemma FitCheckExact(at: nat, len: nat, limit: nat)
    requires at <= limit < USIZE_LIMIT && len < USIZE_LIMIT
    ensures (WrapAdd(at, len) <= limit <==> at + len <= limit) <==> at + len < USIZE_LIMIT
  {
    if at + len >= USIZE_LIMIT {
      assert WrapAdd(at, len) == at + len - USIZE_LIMIT;
    }
  }

  /** Whatever the format, its checks tell the truth exactly when no sum reached overflows. */
  lemma ChecksTellFitExactly(src: seq<Byte>, arguments: seq<Argument>, limit: nat)
    requires Matches(Parse(src, 0), arguments) && limit < USIZE_LIMIT
    ensures ChecksTellFit(Parse(src, 0), arguments, 0, limit) <==> SumsFit(Parse(src, 0), arguments, 0, limit)
  {
    ParsedWidths(src, 0);
    ChecksFrom(Parse(src, 0), arguments, 0, limit);
  }

  lemma {:induction false} ChecksFrom(directives: seq<Directive>, arguments: seq<Argument>, at: nat, limit: nat)
    requires Matches(directives, arguments) && at <= limit < USIZE_LIMIT
    requires forall d :: d in directives && d.Conversion? ==> d.width < USIZE_LIMIT
    ensures ChecksTellFit(directives, arguments, at, limit) <==> SumsFit(directives, arguments, at, limit)
    decreases directives
  {
    if directives != [] {
      var d := directives[0];
      assert MatchesOne(directives, arguments);
      if d.Literal? {
        if at < limit {
          ChecksFrom(directives[1..], arguments, at + 1, limit);
        }
      } else {
        var len := |Render(d, arguments[0])|;
        if d.specifier != SPEC_S {
          IntLength(d.specifier, d.zeroPad, d.width, arguments[0].bits);
        }
        FitCheckExact(at, len, limit);
        if at + len <= limit {
          ChecksFrom(directives[1..], arguments[1..], at + len, limit);
        }
      }
      assert ChecksTellFitOne(directives, arguments, at, limit) <==> SumsFitOne(directives, arguments, at, limit);
    }
  }

  lemma {:induction false} ParsedWidths(src: seq<Byte>, i: nat)
    requires i <= |src|
    ensures forall d :: d in Parse(src, i) && d.Conversion? ==> d.width < USIZE_LIMIT
    decreases |src| - i
  {
    if i < |src| {
      var (d, next) := NextDirective(src, i);
      WidthSaturates(src, if i + 1 < |src| && src[i + 1] == ZERO then i + 2 else i + 1, 0);
      ParsedWidths(src, next);
    }
  }

  lemma {:induction false} WidthSaturates(src: seq<Byte>, i: nat, width: nat)
    requires i <= |src| && width < USIZE_LIMIT
    ensures ScanWidth(src, i, width).1 < USIZE_LIMIT
    decreases |src| - i
  {
    if i < |src| && IsDigit(src[i]) {
      WidthSaturates(src, i + 1, Saturate(Saturate(width * 10) + (src[i] - ZERO)));
    }
  }

  /** The largest width behind one byte: its sum wraps to 0, which every limit admits. */
  lemma LargestWidth(d: Directive, bits: Word, limit: nat)
    requires d == Conversion(SPEC_U, false, USIZE_MAX) && 1 <= limit < USIZE_LIMIT
    ensures WrapAdd(1, |Render(d, Int(bits))|) == 0 && 1 + |Render(d, Int(bits))| > limit
    ensures !SumsFit([d], [Int(bits)], 1, limit)
  {
    NumeralFits(bits, 10);
    assert MatchesOne([d], [Int(bits)]);
    assert !SumsFitOne([d], [Int(bits)], 1, limit);
  }

  /** `as c_int`. */
  function CInt(n: nat): int { if n % WORD_LIMIT < WORD_LIMIT / 2 then n % WORD_LIMIT else n % WORD_LIMIT - WORD_LIMIT }

  /** The int that differs from the length by a multiple of 2^32. */
  lemma CIntExact(n: nat)
    ensures -0x8000_0000 <= CInt(n) < 0x8000_0000 && (n - CInt(n)) % 0x1_0000_0000 == 0
  {
  }

  /** The destination after a call: the text and its NUL, or an empty string. */
  ghost predicate Outcome(before: seq<Byte>, now: seq<Byte>, limit: nat, text: seq<Byte>, r: int)
    requires limit < |before|
  {
    if |text| <= limit then r == CInt(|text|) && Written(now, before, text + [0])
    else r == -1 && |now| == |before| && now[0] == 0
         && forall k :: limit <= k < |now| && k > 0 ==> now[k] == before[k]
  }

  method Vsnprintf(buf: array?<Byte>, size: nat, count: nat, fmt: Option<seq<Byte>>, arguments: seq<Argument>)
    returns (r: int)
    requires buf != null ==> size <= buf.Length
    requires fmt.Some? ==> IsCString(fmt.value)
    requires Matches(Parse(StringBytes(fmt), 0), arguments)
    requires buf != null && size > 0 ==>
               SumsFit(Parse(StringBytes(fmt), 0), arguments, 0, if size - 1 < count then size - 1 else count)
    modifies if buf == null then {} else {buf}
    ensures buf == null ==> r == -1
    ensures buf != null && size == 0 ==> r == -1 && buf[..] == old(buf[..])
    ensures buf != null && size > 0 ==>
              Outcome(old(buf[..]), buf[..], if size - 1 < count then size - 1 else count,
                      RenderAll(Parse(StringBytes(fmt), 0), arguments), r)
  {
    if buf == null || size == 0 {
      return -1;
    }
    var src := CStrBytes(fmt);
    var limit := if size - 1 < count then size - 1 else count;
    ghost var before := buf[..];
    ghost var text := RenderAll(Parse(src, 0), arguments);
    var end;
    ghost var done;
    end, done := WriteAll(buf, limit, src, arguments, before, text);
    ghost var written := buf[..];
    var last := if end.None? then 0 else end.value;
    buf[last] := 0;
    assert buf[..] == written[last := 0];
    r := if end.None? then -1 else CInt(end.value);
    Terminated(before, written, done, limit, text, r);
  }

  /** The byte written last makes the destination a C string: the text, or the empty one. */
  lemma Terminated(before: seq<Byte>, written: seq<Byte>, done: seq<Byte>, limit: nat, text: seq<Byte>, r: int)
    requires limit < |before| && Written(written, before, done) && |done| <= limit
    requires if |text| <= limit then done == text && r == CInt(|text|) else r == -1
    ensures Outcome(before, written[if |text| <= limit then |text| else 0 := 0], limit, text, r)
  {
  }

  /** The loop: the end of the text, or None as soon as a piece does not fit. */
  method WriteAll(buf: array<Byte>, limit: nat, src: seq<Byte>, arguments: seq<Argument>,
                  ghost before: seq<Byte>, ghost text: seq<Byte>)
    returns (end: Option<nat>, ghost done: seq<Byte>)
    requires limit < buf.Length && buf[..] == before
    requires Matches(Parse(src, 0), arguments) && SumsFit(Parse(src, 0), arguments, 0, limit)
    requires text == RenderAll(Parse(src, 0), arguments)
    modifies buf
    ensures |done| <= limit && Written(buf[..], before, done)
    ensures if |text| <= limit then end == Some(|text|) && done == text else end == None
  {
    done := [];
    var inputIndex, outputIndex, rest := 0, 0, arguments;
    while inputIndex < |src|
      invariant inputIndex <= |src| && outputIndex == |done| <= limit
      invariant Pending(src, inputIndex, rest, limit, done, text)
      invariant Written(buf[..], before, done)
    {
      var step;
      step, inputIndex, rest, done := WriteNext(buf, limit, src, inputIndex, outputIndex, rest, before, done, text);
      if step.None? {
        return None, done;
      }
      outputIndex := step.value;
    }
    assert Parse(src, inputIndex) == [];
    return Some(outputIndex), done;
  }

  /** The text is what is done and the rendering of what is left. */
  ghost predicate Pending(src: seq<Byte>, i: nat, rest: seq<Argument>, limit: nat, done: seq<Byte>, text: seq<Byte>) {
    && i <= |src|
    && Matches(Parse(src, i), rest)
    && SumsFit(Parse(src, i), rest, |done|, limit)
    && text == done + RenderAll(Parse(src, i), rest)
  }

  method WriteNext(buf: array<Byte>, limit: nat, src: seq<Byte>, inputIndex: nat, outputIndex: nat, arguments: seq<Argument>,
                   ghost before: seq<Byte>, ghost done: seq<Byte>, ghost text: seq<Byte>)
    returns (step: Option<nat>, next: nat, rest: seq<Argument>, ghost whole: seq<Byte>)
    requires inputIndex < |src| && outputIndex == |done| <= limit < buf.Length
    requires Pending(src, inputIndex, arguments, limit, done, text)
    requires Written(buf[..], before, done)
    modifies buf
    ensures inputIndex < next <= |src|
    ensures if step.Some? then step == Some(|whole|) && |whole| <= limit && Pending(src, next, rest, limit, whole, text)
            else |text| > limit && whole == done
    ensures Written(buf[..], before, whole)
  {
    var d;
    d, next := ReadDirective(src, inputIndex);
    TakePending(src, inputIndex, d, next, arguments, limit, done, text);
    rest := if d.Literal? then arguments else arguments[1..];
    var a := if d.Literal? then Int(0) else arguments[0];
    step, whole := WriteDirective(buf, outputIndex, limit, d, a, before, done);
    if step.None? {
      whole := done;
    }
  }

  /** What is pending once the first directive is written, if that fits. */
  lemma TakePending(src: seq<Byte>, i: nat, d: Directive, next: nat, arguments: seq<Argument>, limit: nat,
                    done: seq<Byte>, text: seq<Byte>)
    requires i < next <= |src| && Parse(src, i) == [d] + Parse(src, next)
    requires Pending(src, i, arguments, limit, done, text)
    ensures d.Conversion? ==> arguments != [] && Fits(d, arguments[0]) && |done| + |Render(d, arguments[0])| < USIZE_LIMIT
    ensures var whole := done + Piece(d, if d.Literal? then Int(0) else arguments[0]);
            && |whole| <= |text|
            && (|whole| <= limit ==>
                 Pending(src, next, if d.Literal? then arguments else arguments[1..], limit, whole, text))
  {
    var tail := Parse(src, next);
    TakeDirective(d, tail, arguments, |done|, limit);
    var piece := Piece(d, if d.Literal? then Int(0) else arguments[0]);
    Reassociate(done, piece, RenderAll(tail, if d.Literal? then arguments else arguments[1..]));
  }

  lemma Reassociate(x: seq<Byte>, y: seq<Byte>, z: seq<Byte>)
    ensures x + (y + z) == x + y + z
  {
  }

  /** What one directive writes; a literal consumes no argument. */
  ghost function Piece(d: Directive, a: Argument): seq<Byte>
    requires d.Conversion? ==> Fits(d, a)
  {
    if d.Literal? then [d.byte] else Render(d, a)
  }

  method WriteDirective(buf: array<Byte>, outputIndex: nat, limit: nat, d: Directive, a: Argument,
                        ghost before: seq<Byte>, ghost done: seq<Byte>)
    returns (next: Option<nat>, ghost whole: seq<Byte>)
    requires d.Conversion? ==> Fits(d, a) && outputIndex + |Render(d, a)| < USIZE_LIMIT
    requires outputIndex == |done| <= limit < buf.Length
    requires Written(buf[..], before, done)
    modifies buf
    ensures whole == done + Piece(d, a)
    ensures if |whole| <= limit then next == Some(|whole|) && Written(buf[..], before, whole)
            else next == None && buf[..] == old(buf[..])
  {
    whole := done + Piece(d, a);
    if d.Literal? {
      if outputIndex == limit {
        return None, whole;
      }
      Append(buf, outputIndex, [d.byte], before, done);
      next := Some(outputIndex + 1);
    } else if d.specifier == SPEC_S {
      var bytes := CStrBytes(a.pointer);
      next := WriteBytes(buf, outputIndex, limit, bytes, before, done);
    } else {
      next := WriteInt(buf, outputIndex, limit, d.specifier, d.zeroPad, d.width, a.bits, before, done);
    }
  }

  /** The first directive with its argument, and what is left. */
  lemma TakeDirective(d: Directive, tail: seq<Directive>, rest: seq<Argument>, at: nat, limit: nat)
    requires Matches([d] + tail, rest) && SumsFit([d] + tail, rest, at, limit)
    ensures d.Conversion? ==> rest != [] && Fits(d, rest[0]) && at + |Render(d, rest[0])| < USIZE_LIMIT
    ensures var more, end := if d.Literal? then rest else rest[1..], at + |Piece(d, if d.Literal? then Int(0) else rest[0])|;
            && Matches(tail, more)
            && (end <= limit ==> SumsFit(tail, more, end, limit))
            && RenderAll([d] + tail, rest) == Piece(d, if d.Literal? then Int(0) else rest[0]) + RenderAll(tail, more)
  {
    var all := [d] + tail;
    assert all[0] == d && all[1..] == tail;
    assert MatchesOne(all, rest);
    assert RenderAll(all, rest) == RenderOne(all, rest);
    assert SumsFitOne(all, rest, at, limit);
  }

  /** Read one directive: the width digits, then the conversion or a literal byte. */
  method ReadDirective(src: seq<Byte>, inputIndex: nat) returns (d: Directive, next: nat)
    requires inputIndex < |src|
    ensures inputIndex < next <= |src|
    ensures Parse(src, inputIndex) == [d] + Parse(src, next)
  {
    var conversionEnd := inputIndex + 1;
    var zeroPad := false;
    var width := 0;
    if conversionEnd < |src| && src[conversionEnd] == ZERO {
      zeroPad := true;
      conversionEnd := conversionEnd + 1;
    }
    ghost var start := conversionEnd;
    while conversionEnd < |src| && IsDigit(src[conversionEnd])
      invariant start <= conversionEnd <= |src|
      invariant ScanWidth(src, conversionEnd, width) == ScanWidth(src, start, 0)
    {
      width := Saturate(Saturate(width * 10) + (src[conversionEnd] - ZERO));
      conversionEnd := conversionEnd + 1;
    }
    if src[inputIndex] == PERCENT && conversionEnd < |src| && IsSpecifier(src[conversionEnd]) {
      d, next := Conversion(src[conversionEnd], zeroPad, width), conversionEnd + 1;
    } else if src[inputIndex] == PERCENT && inputIndex + 1 < |src| && src[inputIndex + 1] == PERCENT {
      d, next := Literal(PERCENT), inputIndex + 2;
    } else {
      d, next := Literal(src[inputIndex]), inputIndex + 1;
    }
    assert NextDirective(src, inputIndex) == (d, next);
    assert Parse(src, inputIndex) == ParseOne(src, inputIndex);
  }

  method WriteBytes(buf: array<Byte>, outputIndex: nat, limit: nat, bytes: seq<Byte>,
                    ghost before: seq<Byte>, ghost done: seq<Byte>) returns (next: Option<nat>)
    requires outputIndex == |done| <= limit < buf.Length
    requires outputIndex + |bytes| < USIZE_LIMIT
    requires Written(buf[..], before, done)
    modifies buf
    ensures if outputIndex + |bytes| <= limit
            then next == Some(outputIndex + |bytes|) && Written(buf[..], before, done + bytes)
            else next == None && buf[..] == old(buf[..])
  {
    NoWrap(outputIndex, |bytes|);
    if WrapAdd(outputIndex, |bytes|) > limit {
      return None;
    }
    Append(buf, outputIndex, bytes, before, done);
    return Some(outputIndex + |bytes|);
  }
}
