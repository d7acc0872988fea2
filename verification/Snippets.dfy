/** The two scanners of the tutorial snippet file: `parse_snippets`, which collects errors
    (scripts/check-tutorial-snippets.py), and `load_snippets`, which stops at the first
    (scripts/mdbook-hisi-docs.py). */
module Snippets {
  import opened Text
  import opened Wrappers

  const START := "# docs:start "
  const END := "# docs:end"

  predicate IsStart(line: string) { START <= line }

  /** `line.split(None, 2)[2].strip()`, None when there is no third field. */
  function SnippetId(line: string): Option<string> {
    var fields := SplitWords(line, 2);
    if |fields| <= 2 then None else Some(Strip(IsSpace, fields[2]))
  }

  lemma ThirdField(first: string, second: string, rest: string)
    requires first != "" && (forall c :: c in first ==> !IsSpace(c))
    requires second != "" && (forall c :: c in second ==> !IsSpace(c))
    ensures SplitWords(first + (" " + (second + (" " + rest))), 2) == [first, second] + SplitWords(rest, 0)
  {
    SplitWord(first, second + (" " + rest), 1);
    SplitWord(second, rest, 0);
  }

  lemma LastField(rest: string)
    ensures SplitWords(rest, 0) == if Visible(rest) then [StripLeft(IsSpace, rest)] else []
  {
    if Visible(rest) {
      var c :| c in rest && !IsSpace(c);
      StripLeftKeeps(IsSpace, rest, c);
    } else if StripLeft(IsSpace, rest) != "" {
      var c := StripLeft(IsSpace, rest)[0];
      StripLeftKeeps(IsSpace, rest, c);
      StripLeftFirst(IsSpace, rest);
    }
  }

  /** The id is what follows the marker, stripped, and it is missing when that is only whitespace. */
  lemma IdAfterMarker(line: string)
    requires IsStart(line)
    ensures var rest := line[|START|..];
            SnippetId(line) == if Visible(rest) then Some(Strip(IsSpace, rest)) else None
  {
    var rest := line[|START|..];
    assert line == "#" + (" " + ("docs:start" + (" " + rest)));
    ThirdField("#", "docs:start", rest);
    LastField(rest);
    StripLeftTwice(IsSpace, rest);
  }

  /** What a line is to both scanners. */
  datatype Mark = Start(id: Option<string>) | End | Plain(text: string)

  function MarkOf(line: string): Mark {
    if IsStart(line) then Start(SnippetId(line)) else if line == END then End else Plain(line)
  }

  function Marks(lines: seq<string>): (marks: seq<Mark>)
    ensures |marks| == |lines|
  {
    seq(|lines|, i requires 0 <= i < |lines| => MarkOf(lines[i]))
  }

  function TextOf(lines: seq<string>): string { Strip(IsNewline, Join('\n', lines)) }

  /** The text of a snippet: its lines joined, without the empty ones in front and at the end. */
  lemma TextOfLines(lines: seq<string>) returns (i: nat, j: nat)
    requires AreLines(lines)
    ensures i <= j <= |lines| && TextOf(lines) == Join('\n', lines[i..j])
    ensures forall k :: 0 <= k < i || j <= k < |lines| ==> lines[k] == ""
    ensures i < j ==> lines[i] != "" && lines[j - 1] != ""
  {
    StripJoin(lines);
    i, j := StripExact(IsEmptyLine, lines);
  }

  // ----- parse_snippets

  datatype Problem =
    | Nested(lineno: nat, id: string)
    | EndWithoutStart(lineno: nat)
    | Duplicate(lineno: nat, id: string)
    | Empty(lineno: nat, id: string)
    | Unterminated(id: string)

  datatype Parser = Parser(snippets: map<string, seq<string>>, errors: seq<Problem>,
                             current: Option<string>, lines: seq<string>)

  /** One line; None when the missing id raises. */
  function CheckLine(s: Parser, lineno: nat, mark: Mark): Option<Parser> {
    match mark
    case Start(id) =>
      if s.current.Some? then Some(s.(errors := s.errors + [Nested(lineno, s.current.value)]))
      else if id.None? then None
      else Some(s.(current := id, lines := []))
    case End =>
      if s.current.None? then Some(s.(errors := s.errors + [EndWithoutStart(lineno)]))
      else
        var id := s.current.value;
        var closed := s.(current := None, lines := []);
        if id in s.snippets then Some(closed.(errors := s.errors + [Duplicate(lineno, id)]))
        else if !AnyVisible(s.lines) then Some(closed.(errors := s.errors + [Empty(lineno, id)]))
        else Some(closed.(snippets := s.snippets[id := s.lines]))
    case Plain(text) => Some(if s.current.Some? then s.(lines := s.lines + [text]) else s)
  }

  /** The first n lines. */
  function CheckLines(marks: seq<Mark>, n: nat): Option<Parser>
    requires n <= |marks|
  {
    if n == 0 then Some(Parser(map[], [], None, []))
    else
      var before := CheckLines(marks, n - 1);
      if before.None? then None else CheckLine(before.value, n, marks[n - 1])
  }

  datatype Parsed = Parsed(snippets: map<string, seq<string>>, errors: seq<Problem>) | ParseCrash

  function Parse(marks: seq<Mark>): Parsed {
    var s := CheckLines(marks, |marks|);
    if s.None? then ParseCrash
    else
      var open := s.value.current;
      Parsed(s.value.snippets, if open.Some? then s.value.errors + [Unterminated(open.value)] else s.value.errors)
  }

  /** `parse_snippets`. */
  method ParseSnippets(text: seq<string>) returns (r: Parsed)
    ensures r == Parse(Marks(text))
  {
    ghost var marks := Marks(text);
    var snippets: map<string, seq<string>> := map[];
    var errors: seq<Problem> := [];
    var current: Option<string> := None;
    var lines: seq<string> := [];
    for k := 0 to |text|
      invariant CheckLines(marks, k) == Some(Parser(snippets, errors, current, lines))
    {
      var line, lineno := text[k], k + 1;
      CheckedNext(marks, k, Parser(snippets, errors, current, lines));
      if IsStart(line) {
        if current.Some? {
          errors := errors + [Nested(lineno, current.value)];
          continue;
        }
        var id := SnippetId(line);
        if id.None? {
          CrashStays(marks, k + 1, |text|);
          return ParseCrash;
        }
        current, lines := id, [];
        continue;
      }
      if line == END {
        if current.None? {
          errors := errors + [EndWithoutStart(lineno)];
          continue;
        }
        if current.value in snippets {
          errors := errors + [Duplicate(lineno, current.value)];
        } else if !AnyVisible(lines) {
          errors := errors + [Empty(lineno, current.value)];
        } else {
          snippets := snippets[current.value := lines];
        }
        current, lines := None, [];
        continue;
      }
      if current.Some? {
        lines := lines + [line];
      }
    }
    if current.Some? {
      errors := errors + [Unterminated(current.value)];
    }
    return Parsed(snippets, errors);
  }

  lemma CheckedNext(marks: seq<Mark>, k: nat, s: Parser)
    requires k < |marks| && CheckLines(marks, k) == Some(s)
    ensures CheckLines(marks, k + 1) == CheckLine(s, k + 1, marks[k])
  {
  }

  lemma {:induction false} CrashStays(marks: seq<Mark>, n: nat, m: nat)
    requires n <= m <= |marks| && CheckLines(marks, n).None?
    ensures CheckLines(marks, m).None?
  {
    if n < m {
      CrashStays(marks, n, m - 1);
      assert CheckLines(marks, m - 1).None?;
    }
  }

  // ----- load_snippets

  datatype Loader = Loader(snippets: map<string, string>, current: Option<string>, lines: seq<string>)

  datatype Loading<T> = Running(value: T) | SystemExit | LoadCrash

  function LoadLine(s: Loader, mark: Mark): Loading<Loader> {
    match mark
    case Start(id) =>
      if s.current.Some? then SystemExit
      else if id.None? then LoadCrash
      else Running(s.(current := id, lines := []))
    case End =>
      if s.current.None? || s.current.value in s.snippets then SystemExit
      else Running(Loader(s.snippets[s.current.value := TextOf(s.lines)], None, []))
    case Plain(text) => Running(if s.current.Some? then s.(lines := s.lines + [text]) else s)
  }

  function LoadLines(marks: seq<Mark>, n: nat): Loading<Loader>
    requires n <= |marks|
  {
    if n == 0 then Running(Loader(map[], None, []))
    else
      var before := LoadLines(marks, n - 1);
      if before.Running? then LoadLine(before.value, marks[n - 1]) else before
  }

  function Load(marks: seq<Mark>): Loading<map<string, string>> {
    match LoadLines(marks, |marks|)
    case Running(s) => if s.current.Some? then SystemExit else Running(s.snippets)
    case SystemExit => SystemExit
    case LoadCrash => LoadCrash
  }

  /** `load_snippets`. */
  method LoadSnippets(text: seq<string>) returns (r: Loading<map<string, string>>)
    ensures r == Load(Marks(text))
  {
    ghost var marks := Marks(text);
    var snippets: map<string, string> := map[];
    var current: Option<string> := None;
    var lines: seq<string> := [];
    for k := 0 to |text|
      invariant LoadLines(marks, k) == Running(Loader(snippets, current, lines))
    {
      var line := text[k];
      LoadedNext(marks, k, Loader(snippets, current, lines));
      if IsStart(line) {
        if current.Some? {
          StopStays(marks, k + 1, |text|);
          return SystemExit;
        }
        var id := SnippetId(line);
        if id.None? {
          StopStays(marks, k + 1, |text|);
          return LoadCrash;
        }
        current, lines := id, [];
        continue;
      }
      if line == END {
        if current.None? || current.value in snippets {
          StopStays(marks, k + 1, |text|);
          return SystemExit;
        }
        snippets := snippets[current.value := TextOf(lines)];
        current, lines := None, [];
        continue;
      }
      if current.Some? {
        lines := lines + [line];
      }
    }
    if current.Some? {
      return SystemExit;
    }
    return Running(snippets);
  }

  lemma LoadedNext(marks: seq<Mark>, k: nat, s: Loader)
    requires k < |marks| && LoadLines(marks, k) == Running(s)
    ensures LoadLines(marks, k + 1) == LoadLine(s, marks[k])
  {
  }

  lemma {:induction false} StopStays(marks: seq<Mark>, n: nat, m: nat)
    requires n <= m <= |marks| && !LoadLines(marks, n).Running?
    ensures LoadLines(marks, m) == LoadLines(marks, n)
  {
    if n < m {
      StopStays(marks, n, m - 1);
    }
  }

  // ----- the two side by side

  /** The loader's texts are those of the parser's lines. */
  ghost predicate SameTexts(texts: map<string, string>, snippets: map<string, seq<string>>) {
    texts.Keys == snippets.Keys && forall id :: id in texts ==> texts[id] == TextOf(snippets[id])
  }

  ghost predicate AllVisible(texts: map<string, string>) {
    forall id :: id in texts ==> Visible(texts[id])
  }

  ghost predicate Agree(c: Parser, l: Loader) {
    && c.errors == [] && c.current == l.current && c.lines == l.lines
    && SameTexts(l.snippets, c.snippets) && AllVisible(l.snippets)
  }

  lemma StoredAlike(texts: map<string, string>, snippets: map<string, seq<string>>, id: string, lines: seq<string>)
    requires SameTexts(texts, snippets) && AllVisible(texts) && id !in texts
    ensures var texts', snippets' := texts[id := TextOf(lines)], snippets[id := lines];
            SameTexts(texts', snippets') && (AllVisible(texts') <==> AnyVisible(lines))
  {
    StrippedVisible(lines);
    var text := TextOf(lines);
    assert texts[id := text][id] == text;
  }

  /** From agreeing states a line leads the parser on without an error exactly when it leads the
      loader on and stores nothing invisible, and then to agreeing states. */
  lemma LineInStep(c: Parser, l: Loader, lineno: nat, mark: Mark)
    requires Agree(c, l)
    ensures var c', l' := CheckLine(c, lineno, mark), LoadLine(l, mark);
            && (c'.Some? && c'.value.errors == [] <==> l'.Running? && AllVisible(l'.value.snippets))
            && (c'.Some? && c'.value.errors == [] ==> Agree(c'.value, l'.value))
  {
    match mark
    case Start(_) =>
    case Plain(_) =>
    case End =>
      if c.current.Some? && c.current.value !in c.snippets {
        StoredAlike(l.snippets, c.snippets, c.current.value, c.lines);
      }
  }

  /** An error is never taken back, a stored text never replaced. */
  lemma NothingForgotten(c: Parser, l: Loader, lineno: nat, mark: Mark)
    ensures CheckLine(c, lineno, mark).Some? && CheckLine(c, lineno, mark).value.errors == [] ==> c.errors == []
    ensures LoadLine(l, mark).Running? && AllVisible(LoadLine(l, mark).value.snippets) ==> AllVisible(l.snippets)
  {
    if LoadLine(l, mark).Running? {
      var after := LoadLine(l, mark).value.snippets;
      assert forall id :: id in l.snippets ==> id in after && after[id] == l.snippets[id];
    }
  }

  lemma {:induction false} InStep(marks: seq<Mark>, n: nat)
    requires n <= |marks|
    ensures var c, l := CheckLines(marks, n), LoadLines(marks, n);
            && (c.Some? && c.value.errors == [] <==> l.Running? && AllVisible(l.value.snippets))
            && (c.Some? && c.value.errors == [] ==> Agree(c.value, l.value))
  {
    if n != 0 {
      InStep(marks, n - 1);
      var c, l, mark := CheckLines(marks, n - 1), LoadLines(marks, n - 1), marks[n - 1];
      if c.Some? && l.Running? {
        NothingForgotten(c.value, l.value, n, mark);
        if Agree(c.value, l.value) {
          LineInStep(c.value, l.value, n, mark);
        }
      } else if c.Some? {
        NothingForgotten(c.value, Loader(map[], None, []), n, mark);
      } else if l.Running? {
        NothingForgotten(Parser(map[], [], None, []), l.value, n, mark);
      }
    }
  }

  /** parse_snippets is clean exactly when load_snippets succeeds with every snippet visible, and then
      both have the same ids and texts. */
  lemma ScannersAgree(lines: seq<string>)
    ensures var parsed, loaded := Parse(Marks(lines)), Load(Marks(lines));
            && (parsed.Parsed? && parsed.errors == [] <==> loaded.Running? && AllVisible(loaded.value))
            && (parsed.Parsed? && parsed.errors == [] ==> SameTexts(loaded.value, parsed.snippets))
  {
    InStep(Marks(lines), |lines|);
  }
}
