/** Natural numbers as big-endian byte strings. */
module BigEndian {
  import opened Words

  function ValueOf(s: seq<Byte>): nat {
    if s == [] then 0 else ValueOf(s[..|s| - 1]) * 256 + s[|s| - 1]
  }

  /** The low `width` bytes of n. */
  function Encode(n: nat, width: nat): (s: seq<Byte>)
    ensures |s| == width
  {
    if width == 0 then [] else Encode(n / 256, width - 1) + [n % 256]
  }

  lemma {:induction false} ValueBound(s: seq<Byte>)
    ensures ValueOf(s) < Pow256(|s|)
  {
    if s != [] {
      ValueBound(s[..|s| - 1]);
    }
  }

  lemma {:induction false} EncodeReadsBack(n: nat, width: nat)
    requires n < Pow256(width)
    ensures ValueOf(Encode(n, width)) == n
  {
    if width != 0 {
      EncodeReadsBack(n / 256, width - 1);
      assert Encode(n, width)[..width - 1] == Encode(n / 256, width - 1);
    }
  }

  /** A string of given width is determined by its value. */
  lemma {:induction false} ValueReadsBack(s: seq<Byte>)
    ensures Encode(ValueOf(s), |s|) == s
  {
    if s != [] {
      var front := s[..|s| - 1];
      ValueReadsBack(front);
      assert s == front + [s[|s| - 1]];
    }
  }

  /** Four more bytes shift the value by a word. */
  lemma ValueOfWord(s: seq<Byte>, k: nat)
    requires k + 4 <= |s|
    ensures ValueOf(s[..k + 4]) == ValueOf(s[..k]) * 0x1_0000_0000 + BeWord(s[k], s[k + 1], s[k + 2], s[k + 3])
  {
    ValueOfByte(s, k);
    ValueOfByte(s, k + 1);
    ValueOfByte(s, k + 2);
    ValueOfByte(s, k + 3);
  }

  lemma ValueOfByte(s: seq<Byte>, k: nat)
    requires k < |s|
    ensures ValueOf(s[..k + 1]) == ValueOf(s[..k]) * 256 + s[k]
  {
    assert s[..k + 1][..k] == s[..k];
  }

  /** The first byte carries the rest's weight. */
  lemma {:induction false} ValueFromFront(s: seq<Byte>)
    requires s != []
    ensures ValueOf(s) == s[0] * Pow256(|s| - 1) + ValueOf(s[1..])
  {
    if |s| == 1 {
      assert s[..0] == [] && s[1..] == [];
    } else {
      var front := s[..|s| - 1];
      ValueFromFront(front);
      assert s[1..][..|s| - 2] == front[1..];
      assert s[0] * Pow256(|s| - 1) == s[0] * Pow256(|s| - 2) * 256;
    }
  }
}
