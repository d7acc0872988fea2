/** What a snippet file is: lines of text and snippets, each between a start marker with an id and the
    end marker; and that the scanners accept exactly such files. */
module SnippetGrammar {
  import opened Snippets
  import opened Wrappers

  datatype Item = Line(text: string) | Snippet(opening: string, body: seq<string>)

  ghost predicate PlainLines(lines: seq<string>) { forall line :: line in lines ==> MarkOf(line) == Plain(line) }

  ghost predicate Opens(opening: string, id: string) { MarkOf(opening) == Start(Some(id)) }

  ghost predicate Proper(item: Item) {
    match item
    case Line(text) => MarkOf(text) == Plain(text)
    case Snippet(opening, body) => (exists id :: Opens(opening, id)) && PlainLines(body)
  }

  ghost predicate AllProper(items: seq<Item>) { forall item :: item in items ==> Proper(item) }

  function IdOf(item: Item): Option<string> {
    if item.Snippet? && MarkOf(item.opening).Start? then MarkOf(item.opening).id else None
  }

  /** No two snippets have the same id. */
  ghost predicate DistinctIds(items: seq<Item>) {
    forall i, j :: 0 <= i < j < |items| && items[i].Snippet? && items[j].Snippet? ==> IdOf(items[i]) != IdOf(items[j])
  }

  ghost predicate IsSnippetFile(items: seq<Item>) { AllProper(items) && DistinctIds(items) }

  function ItemLines(item: Item): seq<string> {
    match item
    case Line(text) => [text]
    case Snippet(opening, body) => [opening] + body + [END]
  }

  function LinesOf(items: seq<Item>): seq<string> {
    if items == [] then [] else LinesOf(items[..|items| - 1]) + ItemLines(items[|items| - 1])
  }

  /** The texts of the snippets by id. */
  ghost function TextsOf(items: seq<Item>): (texts: map<string, string>) {
    if items == [] then map[]
    else
      var item := items[|items| - 1];
      var texts := TextsOf(items[..|items| - 1]);
      if IdOf(item).Some? then texts[IdOf(item).value := TextOf(item.body)] else texts
  }

  ghost predicate HasId(items: seq<Item>, id: string) {
    exists i :: 0 <= i < |items| && IdOf(items[i]) == Some(id)
  }

  lemma HasIdSnoc(front: seq<Item>, last: Item, id: string)
    ensures HasId(front + [last], id) <==> HasId(front, id) || IdOf(last) == Some(id)
  {
    var items := front + [last];
    assert items[|front|] == last;
    if HasId(front, id) {
      var i :| 0 <= i < |front| && IdOf(front[i]) == Some(id);
      assert IdOf(items[i]) == Some(id);
    }
  }

  lemma {:induction false} TextsKeys(items: seq<Item>, id: string)
    ensures id in TextsOf(items) <==> HasId(items, id)
  {
    if items != [] {
      var front, last := items[..|items| - 1], items[|items| - 1];
      assert items == front + [last];
      TextsKeys(front, id);
      HasIdSnoc(front, last, id);
    }
  }

  // ----- scanning one line more

  /** The loader after all of the lines. */
  function Loaded(lines: seq<string>): Loading<Loader> { LoadLines(Marks(lines), |lines|) }

  lemma {:induction false} LoadPrefix(marks: seq<Mark>, more: seq<Mark>, n: nat)
    requires n <= |marks|
    ensures LoadLines(marks + more, n) == LoadLines(marks, n)
  {
    if n != 0 {
      LoadPrefix(marks, more, n - 1);
    }
  }

  lemma LoadedSnoc(lines: seq<string>, line: string)
    ensures Loaded(lines + [line]) ==
            if Loaded(lines).Running? then LoadLine(Loaded(lines).value, MarkOf(line)) else Loaded(lines)
  {
    assert Marks(lines + [line]) == Marks(lines) + [MarkOf(line)];
    LoadPrefix(Marks(lines), [MarkOf(line)], |lines|);
  }

  // ----- every snippet file is accepted

  lemma {:induction false} BodyLoads(lines: seq<string>, s: Loader, body: seq<string>)
    requires Loaded(lines) == Running(s) && s.current.Some? && s.lines == [] && PlainLines(body)
    ensures Loaded(lines + body) == Running(s.(lines := body))
  {
    if body == [] {
      assert lines + body == lines;
    } else {
      var front, last := body[..|body| - 1], body[|body| - 1];
      assert body == front + [last];
      BodyLoads(lines, s, front);
      LoadedSnoc(lines + front, last);
      assert lines + front + [last] == lines + body;
    }
  }

  lemma SnippetLoads(lines: seq<string>, texts: map<string, string>, opening: string, id: string, body: seq<string>,
                     end: string)
    requires Loaded(lines) == Running(Loader(texts, None, []))
    requires Opens(opening, id) && PlainLines(body) && id !in texts && MarkOf(end) == End
    ensures Loaded(lines + ([opening] + body + [end])) == Running(Loader(texts[id := TextOf(body)], None, []))
  {
    LoadedSnoc(lines, opening);
    BodyLoads(lines + [opening], Loader(texts, Some(id), []), body);
    LoadedSnoc(lines + [opening] + body, end);
    SameLines(lines, opening, body, end);
  }

  lemma {:induction false} FileLoads(items: seq<Item>)
    requires IsSnippetFile(items)
    ensures Loaded(LinesOf(items)) == Running(Loader(TextsOf(items), None, []))
  {
    if items != [] {
      var front, last := items[..|items| - 1], items[|items| - 1];
      assert items == front + [last];
      FileLoads(front);
      assert Proper(last);
      match last
      case Line(text) =>
        LoadedSnoc(LinesOf(front), text);
      case Snippet(opening, body) =>
        var id :| Opens(opening, id);
        TextsKeys(front, id);
        SnippetLoads(LinesOf(front), TextsOf(front), opening, id, body, END);
    }
  }

  // ----- only snippet files are accepted

  /** The lines read so far: whole items, then the snippet that is open. */
  ghost predicate ReadsAs(lines: seq<string>, s: Loader, items: seq<Item>, opening: string) {
    && IsSnippetFile(items) && s.snippets == TextsOf(items)
    && if s.current.Some? then
         && Opens(opening, s.current.value) && PlainLines(s.lines)
         && lines == LinesOf(items) + [opening] + s.lines
       else s.lines == [] && lines == LinesOf(items)
  }

  lemma ItemAdded(items: seq<Item>, item: Item)
    requires IsSnippetFile(items) && Proper(item)
    requires IdOf(item).Some? ==> IdOf(item).value !in TextsOf(items)
    ensures IsSnippetFile(items + [item])
  {
    if IdOf(item).Some? {
      TextsKeys(items, IdOf(item).value);
    }
    assert forall i :: 0 <= i < |items| && IdOf(items[i]) == IdOf(item) && IdOf(item).Some?
                   ==> HasId(items, IdOf(item).value);
  }

  lemma ItemRead(items: seq<Item>, item: Item)
    ensures LinesOf(items + [item]) == LinesOf(items) + ItemLines(item)
    ensures TextsOf(items + [item]) ==
            if IdOf(item).Some? then TextsOf(items)[IdOf(item).value := TextOf(item.body)] else TextsOf(items)
  {
    var all := items + [item];
    assert all[..|all| - 1] == items && all[|all| - 1] == item;
  }

  lemma EndReads(items: seq<Item>, texts: map<string, string>, opening: string, id: string, body: seq<string>)
    requires IsSnippetFile(items) && texts == TextsOf(items)
    requires Opens(opening, id) && PlainLines(body) && id !in texts
    ensures var items' := items + [Snippet(opening, body)];
            && IsSnippetFile(items') && texts[id := TextOf(body)] == TextsOf(items')
            && LinesOf(items) + [opening] + body + [END] == LinesOf(items')
  {
    var item := Snippet(opening, body);
    assert IdOf(item) == Some(id);
    ItemAdded(items, item);
    ItemRead(items, item);
    SameLines(LinesOf(items), opening, body, END);
  }

  lemma SameLines(lines: seq<string>, opening: string, body: seq<string>, end: string)
    ensures lines + [opening] + body + [end] == lines + ([opening] + body + [end])
  {
  }

  lemma TextReads(lines: seq<string>, line: string, s: Loader, items: seq<Item>, opening: string)
    requires ReadsAs(lines, s, items, opening) && s.current.None? && MarkOf(line) == Plain(line)
    ensures ReadsAs(lines + [line], s, items + [Line(line)], opening)
  {
    ItemAdded(items, Line(line));
    ItemRead(items, Line(line));
  }

  lemma LineReads(lines: seq<string>, line: string, s: Loader, items: seq<Item>, opening: string)
    returns (items': seq<Item>, opening': string)
    requires ReadsAs(lines, s, items, opening) && LoadLine(s, MarkOf(line)).Running?
    ensures ReadsAs(lines + [line], LoadLine(s, MarkOf(line)).value, items', opening')
  {
    items', opening' := items, opening;
    match MarkOf(line)
    case Start(id) =>
      opening' := line;
      assert lines + [line] == LinesOf(items) + [line] + [];
    case End =>
      EndReads(items, s.snippets, opening, s.current.value, s.lines);
      items' := items + [Snippet(opening, s.lines)];
    case Plain(_) =>
      if s.current.Some? {
        assert LinesOf(items) + [opening] + s.lines + [line] == LinesOf(items) + [opening] + (s.lines + [line]);
      } else {
        TextReads(lines, line, s, items, opening);
        items' := items + [Line(line)];
      }
  }

  lemma {:induction false} LoadedReads(lines: seq<string>) returns (items: seq<Item>, opening: string)
    requires Loaded(lines).Running?
    ensures ReadsAs(lines, Loaded(lines).value, items, opening)
  {
    if lines == [] {
      items, opening := [], "";
    } else {
      var front, last := lines[..|lines| - 1], lines[|lines| - 1];
      assert lines == front + [last];
      LoadedSnoc(front, last);
      items, opening := LoadedReads(front);
      items, opening := LineReads(front, last, Loaded(front).value, items, opening);
    }
  }

  /** load_snippets succeeds with these texts exactly on the snippet files that hold them. */
  lemma LoadExact(lines: seq<string>, texts: map<string, string>)
    ensures Load(Marks(lines)) == Running(texts)
        <==> exists items :: IsSnippetFile(items) && LinesOf(items) == lines && TextsOf(items) == texts
  {
    if Load(Marks(lines)) == Running(texts) {
      var items, _ := LoadedReads(lines);
      assert LinesOf(items) == lines;
    }
    if exists items :: IsSnippetFile(items) && LinesOf(items) == lines && TextsOf(items) == texts {
      var items :| IsSnippetFile(items) && LinesOf(items) == lines && TextsOf(items) == texts;
      FileLoads(items);
    }
  }

  /** The loader of the first n lines is that of a file of n lines. */
  lemma LoadedFront(lines: seq<string>, n: nat)
    requires n <= |lines|
    ensures LoadLines(Marks(lines), n) == Loaded(lines[..n])
  {
    assert Marks(lines) == Marks(lines[..n]) + Marks(lines)[n..];
    LoadPrefix(Marks(lines[..n]), Marks(lines)[n..], n);
  }

  /** The line at which the loader crashes. */
  lemma {:induction false} CrashLine(marks: seq<Mark>, m: nat) returns (n: nat)
    requires m <= |marks| && LoadLines(marks, m) == LoadCrash
    ensures n < m && LoadLines(marks, n).Running? && LoadLine(LoadLines(marks, n).value, marks[n]) == LoadCrash
  {
    if LoadLines(marks, m - 1).Running? {
      n := m - 1;
    } else {
      n := CrashLine(marks, m - 1);
    }
  }

  ghost predicate CrashAt(lines: seq<string>, n: int, items: seq<Item>) {
    0 <= n < |lines| && IsSnippetFile(items) && LinesOf(items) == lines[..n] && MarkOf(lines[n]) == Start(None)
  }

  /** load_snippets raises, on the missing id, exactly when a start marker without one follows a snippet file;
      everything else that it does not accept ends in its own message. */
  lemma LoadCrashExact(lines: seq<string>)
    ensures Load(Marks(lines)) == LoadCrash <==> exists n, items :: CrashAt(lines, n, items)
  {
    if Load(Marks(lines)) == LoadCrash {
      var n := CrashLine(Marks(lines), |lines|);
      LoadedFront(lines, n);
      var items, _ := LoadedReads(lines[..n]);
      assert CrashAt(lines, n, items);
    }
    forall n, items | CrashAt(lines, n, items)
      ensures Load(Marks(lines)) == LoadCrash
    {
      CrashFollows(lines, n, items);
    }
  }

  lemma CrashFollows(lines: seq<string>, n: nat, items: seq<Item>)
    requires CrashAt(lines, n, items)
    ensures Load(Marks(lines)) == LoadCrash
  {
    FileLoads(items);
    LoadedFront(lines, n);
    LoadedNext(Marks(lines), n, Loader(TextsOf(items), None, []));
    StopStays(Marks(lines), n + 1, |lines|);
  }

  /** parse_snippets finds no error exactly in the snippet files whose every snippet shows something. */
  lemma ParseExact(lines: seq<string>)
    ensures Parse(Marks(lines)).Parsed? && Parse(Marks(lines)).errors == []
        <==> exists items :: IsSnippetFile(items) && LinesOf(items) == lines && AllVisible(TextsOf(items))
  {
    ScannersAgree(lines);
    if Load(Marks(lines)).Running? {
      LoadExact(lines, Load(Marks(lines)).value);
    }
    forall items | IsSnippetFile(items) && LinesOf(items) == lines
      ensures Load(Marks(lines)) == Running(TextsOf(items))
    {
      LoadExact(lines, TextsOf(items));
    }
  }
}
