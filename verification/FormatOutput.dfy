/** What the bounded formatter (chips/ws63/rf/src/log.rs) prints for a format, said of each directive and
    the argument that it consumes, against ISO C. */
module FormatOutput {
  import opened FormatGrammar
  import opened Rendering
  import opened Words
  import opened Wrappers

  /** The bytes before the NUL, at most 256 of them; nothing for a null pointer. */
  ghost predicate PrintsString(pointer: Option<seq<Byte>>, out: seq<Byte>) {
    match pointer
    case None => out == []
    case Some(memory) =>
      && out <= memory && |out| <= 256 && 0 !in out
      && (|out| == 256 || (|out| < |memory| && memory[|out|] == 0))
  }

  /** The field of C, except that a negative number padded with spaces has its sign in front of them. */
  ghost predicate PrintsInt(specifier: Byte, zeroPad: bool, width: nat, bits: Word, out: seq<Byte>) {
    var value := if specifier == Ascii('d') then Signed(bits) else bits;
    var digits := Numeral(Abs(value), if specifier == Ascii('x') then 16 else 10);
    if value < 0 && !zeroPad && width > |digits| + 1
    then out == [Ascii('-')] + Repeat(Ascii(' '), width - 1 - |digits|) + digits
    else out == CRenderInt(specifier, zeroPad, width, bits)
  }

  /** What a directive prints, argument n being the first that is not consumed yet. */
  ghost predicate Prints(d: Directive, arguments: seq<Argument>, n: nat, out: seq<Byte>) {
    match d
    case Literal(b) => out == [b]
    case Conversion(specifier, zeroPad, width) =>
      && n < |arguments|
      && match arguments[n]
         case Str(pointer) => specifier == Ascii('s') && PrintsString(pointer, out)
         case Int(bits) => specifier != Ascii('s') && PrintsInt(specifier, zeroPad, width, bits, out)
  }

  /** The conversions among the first k directives. */
  function Conversions(directives: seq<Directive>, k: nat): (n: nat)
    requires k <= |directives|
  {
    if k == 0 then 0 else (if directives[0].Conversion? then 1 else 0) + Conversions(directives[1..], k - 1)
  }

  /** The outputs of the directives in turn, each conversion consuming the next argument. */
  ghost predicate Outputs(directives: seq<Directive>, arguments: seq<Argument>, outs: seq<seq<Byte>>) {
    && |outs| == |directives|
    && forall k: nat :: k < |outs| ==> Prints(directives[k], arguments, Conversions(directives, k), outs[k])
  }

  /** Digits above nine are small letters. */
  lemma DigitCharacters(d: nat)
    requires d < 16
    ensures DigitByte(d) == Ascii("0123456789abcdef"[d])
  {
  }

  lemma StringExact(pointer: Option<seq<Byte>>)
    requires pointer.Some? ==> IsCString(pointer.value)
    ensures PrintsString(pointer, StringBytes(pointer))
  {
  }

  lemma IntExact(specifier: Byte, zeroPad: bool, width: nat, bits: Word)
    ensures PrintsInt(specifier, zeroPad, width, bits, RenderInt(specifier, zeroPad, width, bits))
  {
    IntFieldsAsInC(specifier, zeroPad, width, bits);
  }

  lemma RenderExact(d: Directive, a: Argument)
    requires d.Conversion? && Fits(d, a)
    ensures Prints(d, [a], 0, Render(d, a))
  {
    if d.specifier == SPEC_S {
      StringExact(a.pointer);
    } else {
      IntExact(d.specifier, d.zeroPad, d.width, a.bits);
    }
  }

  /** The text of a format is what its directives print, one behind the other. */
  lemma {:induction false} TextExact(directives: seq<Directive>, arguments: seq<Argument>) returns (outs: seq<seq<Byte>>)
    requires Matches(directives, arguments)
    ensures Outputs(directives, arguments, outs) && RenderAll(directives, arguments) == Concat(outs)
    decreases directives
  {
    if directives == [] {
      outs := [];
    } else {
      var d := directives[0];
      assert MatchesOne(directives, arguments);
      if d.Literal? {
        outs := TextExact(directives[1..], arguments);
        outs := Cons(directives, arguments, arguments, [d.byte], outs);
      } else {
        RenderExact(d, arguments[0]);
        outs := TextExact(directives[1..], arguments[1..]);
        outs := Cons(directives, arguments, arguments[1..], Render(d, arguments[0]), outs);
      }
    }
  }

  /** One output in front of the others. */
  lemma Cons(directives: seq<Directive>, arguments: seq<Argument>, rest: seq<Argument>, out: seq<Byte>,
             outs: seq<seq<Byte>>)
    returns (all: seq<seq<Byte>>)
    requires directives != [] && Prints(directives[0], arguments, 0, out) && Outputs(directives[1..], rest, outs)
    requires directives[0].Conversion? ==> arguments != []
    requires rest == if directives[0].Conversion? then arguments[1..] else arguments
    ensures Outputs(directives, arguments, all) && Concat(all) == out + Concat(outs)
  {
    all := [out] + outs;
    assert all[1..] == outs;
    forall k: nat | k < |all|
      ensures Prints(directives[k], arguments, Conversions(directives, k), all[k])
    {
      if k > 0 {
        var i := k - 1;
        assert Prints(directives[1..][i], rest, Conversions(directives[1..], i), outs[i]);
      }
    }
  }

  /** A format spelled directive by directive prints, in turn, what these directives print. */
  lemma SpelledFormatPrints(pieces: seq<seq<Byte>>, directives: seq<Directive>, arguments: seq<Argument>)
    returns (outs: seq<seq<Byte>>)
    requires |pieces| == |directives| && Matches(directives, arguments)
    requires forall k :: 0 <= k < |pieces| ==> Spells(pieces[k], directives[k])
    ensures Parse(Concat(pieces), 0) == directives
    ensures Outputs(directives, arguments, outs) && RenderAll(directives, arguments) == Concat(outs)
  {
    SpelledFormatParses(pieces, directives);
    outs := TextExact(directives, arguments);
  }
}
