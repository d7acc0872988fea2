/** Python's `strip`, `join` and `isspace`. */
module Text {
  /** Dropping from the front, from the back, and from both ends what satisfies p. */
  function StripLeft<T>(p: T -> bool, s: seq<T>): seq<T> {
    if s == [] || !p(s[0]) then s else StripLeft(p, s[1..])
  }

  function StripRight<T>(p: T -> bool, s: seq<T>): seq<T> {
    if s == [] || !p(s[|s| - 1]) then s else StripRight(p, s[..|s| - 1])
  }

  function Strip<T>(p: T -> bool, s: seq<T>): seq<T> { StripRight(p, StripLeft(p, s)) }

  lemma {:induction false} StripLeftKeeps<T>(p: T -> bool, s: seq<T>, x: T)
    ensures x in StripLeft(p, s) ==> x in s
    ensures x in s && !p(x) ==> x in StripLeft(p, s)
  {
    if s != [] && p(s[0]) {
      assert s == [s[0]] + s[1..];
      StripLeftKeeps(p, s[1..], x);
    }
  }

  lemma {:induction false} StripRightKeeps<T>(p: T -> bool, s: seq<T>, x: T)
    ensures x in StripRight(p, s) ==> x in s
    ensures x in s && !p(x) ==> x in StripRight(p, s)
  {
    if s != [] && p(s[|s| - 1]) {
      assert s == s[..|s| - 1] + [s[|s| - 1]];
      StripRightKeeps(p, s[..|s| - 1], x);
    }
  }

  /** Stripping loses nothing but what satisfies p. */
  lemma StripKeeps<T>(p: T -> bool, s: seq<T>, x: T)
    ensures x in Strip(p, s) ==> x in s
    ensures x in s && !p(x) ==> x in Strip(p, s)
  {
    StripLeftKeeps(p, s, x);
    StripRightKeeps(p, StripLeft(p, s), x);
  }

  lemma {:induction false} StripLeftExact<T>(p: T -> bool, s: seq<T>) returns (i: nat)
    ensures i <= |s| && StripLeft(p, s) == s[i..]
    ensures (forall k :: 0 <= k < i ==> p(s[k])) && (i < |s| ==> !p(s[i]))
  {
    if s == [] || !p(s[0]) {
      i := 0;
    } else {
      var n := StripLeftExact(p, s[1..]);
      assert forall k :: 0 < k <= n ==> s[k] == s[1..][k - 1];
      i := n + 1;
    }
  }

  lemma {:induction false} StripRightExact<T>(p: T -> bool, s: seq<T>) returns (j: nat)
    ensures j <= |s| && StripRight(p, s) == s[..j]
    ensures (forall k :: j <= k < |s| ==> p(s[k])) && (j > 0 ==> !p(s[j - 1]))
  {
    if s == [] || !p(s[|s| - 1]) {
      j := |s|;
    } else {
      j := StripRightExact(p, s[..|s| - 1]);
    }
  }

  /** What is left lies between two elements that do not satisfy p, everything around it does. */
  lemma StripExact<T>(p: T -> bool, s: seq<T>) returns (i: nat, j: nat)
    ensures i <= j <= |s| && Strip(p, s) == s[i..j]
    ensures forall k :: 0 <= k < i || j <= k < |s| ==> p(s[k])
    ensures i < j ==> !p(s[i]) && !p(s[j - 1])
  {
    i := StripLeftExact(p, s);
    var n := StripRightExact(p, s[i..]);
    j := i + n;
    forall k | j <= k < |s|
      ensures p(s[k])
    {
      assert s[i..][k - i] == s[k];
    }
  }

  predicate IsNewline(c: char) { c == '\n' }

  predicate IsEmptyLine(line: string) { line == "" }

  /** `str.isspace` of one character. */
  predicate IsSpace(c: char) {
    var n := c as int;
    || 0x09 <= n <= 0x0D || 0x1C <= n <= 0x20 || n == 0x85 || n == 0xA0 || n == 0x1680
    || 0x2000 <= n <= 0x200A || n == 0x2028 || n == 0x2029 || n == 0x202F || n == 0x205F || n == 0x3000
  }

  /** Some character is not whitespace: `text.strip()` is true. */
  predicate Visible(text: string) { exists c :: c in text && !IsSpace(c) }

  /** `any(line.strip() for line in lines)`. */
  predicate AnyVisible(lines: seq<string>) { exists line :: line in lines && Visible(line) }

  /** The length of the leading run without whitespace. */
  function WordEnd(s: string): (n: nat)
    ensures n <= |s|
    ensures s != "" && !IsSpace(s[0]) ==> n > 0
  {
    if s == "" || IsSpace(s[0]) then 0 else 1 + WordEnd(s[1..])
  }

  /** `s.split(None, n)`: at most n words and then what follows them, whitespace in front of each dropped. */
  function SplitWords(s: string, n: nat): seq<string>
    decreases |s|, n
  {
    var t := StripLeft(IsSpace, s);
    StripLeftShorter(IsSpace, s);
    if t == "" then []
    else if n == 0 then [t]
    else
      StripLeftFirst(IsSpace, s);
      [t[..WordEnd(t)]] + SplitWords(t[WordEnd(t)..], n - 1)
  }

  lemma {:induction false} StripLeftShorter<T>(p: T -> bool, s: seq<T>)
    ensures |StripLeft(p, s)| <= |s|
  {
    if s != [] && p(s[0]) {
      StripLeftShorter(p, s[1..]);
    }
  }

  lemma {:induction false} StripLeftFirst<T>(p: T -> bool, s: seq<T>)
    ensures StripLeft(p, s) != [] ==> !p(StripLeft(p, s)[0])
  {
    if s != [] && p(s[0]) {
      StripLeftFirst(p, s[1..]);
    }
  }

  lemma StripLeftTwice<T>(p: T -> bool, s: seq<T>)
    ensures StripLeft(p, StripLeft(p, s)) == StripLeft(p, s)
  {
    StripLeftFirst(p, s);
  }

  lemma {:induction false} WordEndExact(word: string, rest: string)
    requires (forall c :: c in word ==> !IsSpace(c)) && rest != "" && IsSpace(rest[0])
    ensures WordEnd(word + rest) == |word|
  {
    if word == "" {
      assert word + rest == rest;
    } else {
      assert (word + rest)[0] == word[0] && (word + rest)[1..] == word[1..] + rest;
      WordEndExact(word[1..], rest);
    }
  }

  /** A word in front, and the whitespace behind it, are split off. */
  lemma SplitWord(word: string, rest: string, n: nat)
    requires word != "" && (forall c :: c in word ==> !IsSpace(c))
    ensures SplitWords(word + (" " + rest), n + 1) == [word] + SplitWords(rest, n)
  {
    var s, more := word + (" " + rest), " " + rest;
    assert s[0] == word[0] && word[0] in word;
    WordEndExact(word, more);
    assert s[..|word|] == word && s[|word|..] == more;
    assert more[1..] == rest;
    assert SplitWords(more, n) == SplitWords(rest, n);
  }

  /** `separator.join(parts)`. */
  function Join(separator: char, parts: seq<string>): string {
    if parts == [] then ""
    else if |parts| == 1 then parts[0]
    else parts[0] + ([separator] + Join(separator, parts[1..]))
  }

  lemma {:induction false} JoinSnoc(lines: seq<string>, last: string)
    requires lines != []
    ensures Join('\n', lines + [last]) == Join('\n', lines) + ("\n" + last)
  {
    assert (lines + [last])[1..] == lines[1..] + [last];
    if |lines| > 1 {
      JoinSnoc(lines[1..], last);
    }
  }

  ghost predicate AreLines(lines: seq<string>) { forall line :: line in lines ==> '\n' !in line }

  lemma {:induction false} StripLeftJoin(lines: seq<string>)
    requires AreLines(lines)
    ensures StripLeft(IsNewline, Join('\n', lines)) == Join('\n', StripLeft(IsEmptyLine, lines))
  {
    if lines != [] {
      if lines[0] == "" {
        StripLeftJoin(lines[1..]);
        assert |lines| > 1 ==> Join('\n', lines) == "\n" + Join('\n', lines[1..]);
        assert |lines| > 1 ==> Join('\n', lines)[1..] == Join('\n', lines[1..]);
      } else {
        assert Join('\n', lines)[0] == lines[0][0];
        assert lines[0][0] in lines[0];
      }
    }
  }

  lemma {:induction false} StripRightJoin(lines: seq<string>)
    requires AreLines(lines)
    ensures StripRight(IsNewline, Join('\n', lines)) == Join('\n', StripRight(IsEmptyLine, lines))
  {
    if lines != [] {
      var front, last := lines[..|lines| - 1], lines[|lines| - 1];
      assert lines == front + [last];
      var text := Join('\n', lines);
      if front != [] { JoinSnoc(front, last); }
      if last == "" {
        StripRightJoin(front);
        assert front != [] ==> text == Join('\n', front) + "\n";
        assert front != [] ==> text[..|text| - 1] == Join('\n', front);
      } else {
        assert text[|text| - 1] == last[|last| - 1];
        assert last[|last| - 1] in last;
      }
    }
  }

  /** Stripping the newlines of a joined text strips the empty lines at its edges. */
  lemma StripJoin(lines: seq<string>)
    requires AreLines(lines)
    ensures Strip(IsNewline, Join('\n', lines)) == Join('\n', Strip(IsEmptyLine, lines))
  {
    StripLeftJoin(lines);
    var kept := StripLeft(IsEmptyLine, lines);
    assert AreLines(kept) by {
      forall line | line in kept
        ensures '\n' !in line
      {
        StripLeftKeeps(IsEmptyLine, lines, line);
      }
    }
    StripRightJoin(kept);
  }

  lemma {:induction false} JoinVisible(lines: seq<string>)
    ensures Visible(Join('\n', lines)) <==> AnyVisible(lines)
  {
    if |lines| > 1 {
      var first, rest := lines[0], lines[1..];
      JoinVisible(rest);
      assert lines == [first] + rest;
      assert AnyVisible(lines) <==> Visible(first) || AnyVisible(rest);
      VisibleEither(first, Join('\n', rest));
    } else if |lines| == 1 {
      assert AnyVisible(lines) <==> Visible(lines[0]);
    }
  }

  lemma VisibleEither(s: string, t: string)
    ensures Visible(s + ("\n" + t)) <==> Visible(s) || Visible(t)
  {
    assert forall c :: c in s + ("\n" + t) <==> c in s || c == '\n' || c in t;
  }

  /** The text shows something exactly when one of its lines does. */
  lemma StrippedVisible(lines: seq<string>)
    ensures Visible(Strip(IsNewline, Join('\n', lines))) <==> AnyVisible(lines)
  {
    JoinVisible(lines);
    var text := Join('\n', lines);
    var kept := Strip(IsNewline, text);
    forall c | !IsSpace(c)
      ensures c in text <==> c in kept
    {
      StripKeeps(IsNewline, text, c);
    }
  }
}
