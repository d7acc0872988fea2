/** Which problems `parse_snippets` reports, at which lines (scripts/check-tutorial-snippets.py): said
    of the marks of the lines alone, without the scanner's state. */
module SnippetErrors {
  import opened Snippets
  import opened Text
  import opened Wrappers

  /** No end marker between lines i and n. */
  ghost predicate NoEnd(marks: seq<Mark>, i: nat, n: nat)
    requires n <= |marks|
  {
    forall j :: i < j < n ==> !marks[j].End?
  }

  /** The start marker in line k is the one open in front of line n: no end marker has come since, and one
      lies between every earlier start marker and it. */
  ghost predicate OpenAt(marks: seq<Mark>, n: nat, k: nat)
    requires n <= |marks|
  {
    && k < n && marks[k].Start? && NoEnd(marks, k, n)
    && forall j: nat :: j < k && marks[j].Start? ==> !NoEnd(marks, j, k)
  }

  ghost predicate IsOpen(marks: seq<Mark>, n: nat)
    requires n <= |marks|
  {
    exists k: nat :: OpenAt(marks, n, k)
  }

  ghost predicate OpenAs(marks: seq<Mark>, n: nat, id: string)
    requires n <= |marks|
  {
    exists k: nat :: OpenAt(marks, n, k) && marks[k].id == Some(id)
  }

  /** Some line of text between lines k and n shows something. */
  ghost predicate Shows(marks: seq<Mark>, k: nat, n: nat)
    requires n <= |marks|
  {
    exists j :: k < j < n && marks[j].Plain? && Visible(marks[j].text)
  }

  /** Line m ends a snippet with this id that shows something. */
  ghost predicate Ends(marks: seq<Mark>, m: nat, id: string)
    requires m < |marks|
  {
    marks[m].End? && exists k: nat :: OpenAt(marks, m, k) && marks[k].id == Some(id) && Shows(marks, k, m)
  }

  ghost predicate Ended(marks: seq<Mark>, n: nat, id: string)
    requires n <= |marks|
  {
    exists m :: 0 <= m < n && Ends(marks, m, id)
  }

  /** Line n has this problem. */
  ghost predicate ProblemAt(marks: seq<Mark>, n: nat, p: Problem)
    requires n < |marks|
  {
    match p
    case Nested(lineno, id) => lineno == n + 1 && marks[n].Start? && OpenAs(marks, n, id)
    case EndWithoutStart(lineno) => lineno == n + 1 && marks[n].End? && !IsOpen(marks, n)
    case Duplicate(lineno, id) =>
      lineno == n + 1 && marks[n].End? && OpenAs(marks, n, id) && Ended(marks, n, id)
    case Empty(lineno, id) =>
      lineno == n + 1 && marks[n].End? && OpenAs(marks, n, id) && !Ended(marks, n, id) && !Ends(marks, n, id)
    case Unterminated(_) => false
  }

  /** By line number, what is unterminated last. */
  ghost predicate InLineOrder(errors: seq<Problem>) {
    forall i, j :: 0 <= i < j < |errors| ==>
      !errors[i].Unterminated? && (errors[j].Unterminated? || errors[i].lineno < errors[j].lineno)
  }

  // ----- how the open marker moves

  /** The first start marker after the last end marker is the open one. */
  lemma {:induction false} StartMeansOpen(marks: seq<Mark>, n: nat, k: nat)
    requires k < n <= |marks| && marks[k].Start? && NoEnd(marks, k, n)
    ensures IsOpen(marks, n)
    decreases k
  {
    if exists j: nat :: j < k && marks[j].Start? && NoEnd(marks, j, k) {
      var j: nat :| j < k && marks[j].Start? && NoEnd(marks, j, k);
      StartMeansOpen(marks, n, j);
    } else {
      assert OpenAt(marks, n, k);
    }
  }

  lemma OpenMoves(marks: seq<Mark>, n: nat, k: nat)
    requires n < |marks|
    ensures OpenAt(marks, n + 1, k) <==>
            match marks[n]
            case Start(_) => if IsOpen(marks, n) then OpenAt(marks, n, k) else k == n
            case End => false
            case Plain(_) => OpenAt(marks, n, k)
  {
    if k < n {
      assert NoEnd(marks, k, n + 1) <==> NoEnd(marks, k, n) && !marks[n].End?;
      if OpenAt(marks, n + 1, k) && !marks[n].End? {
        assert OpenAt(marks, n, k);
      }
    } else if k == n && marks[n].Start? {
      if IsOpen(marks, n) {
        var j :| OpenAt(marks, n, j);
        assert NoEnd(marks, j, n);
      } else {
        forall j: nat | j < n && marks[j].Start?
          ensures !NoEnd(marks, j, n)
        {
          if NoEnd(marks, j, n) {
            StartMeansOpen(marks, n, j);
          }
        }
      }
    }
  }

  // ----- the scanner's state in front of line n

  ghost predicate CurrentMeans(marks: seq<Mark>, n: nat, s: Parser)
    requires n <= |marks|
  {
    && (s.current.Some? <==> IsOpen(marks, n))
    && forall k: nat :: OpenAt(marks, n, k) ==> s.current == marks[k].id && (AnyVisible(s.lines) <==> Shows(marks, k, n))
  }

  ghost predicate SnippetsMean(marks: seq<Mark>, n: nat, s: Parser)
    requires n <= |marks|
  {
    forall id :: id in s.snippets <==> Ended(marks, n, id)
  }

  ghost predicate ErrorsMean(marks: seq<Mark>, n: nat, s: Parser)
    requires n <= |marks|
  {
    && (forall p :: p in s.errors <==> exists m :: 0 <= m < n && ProblemAt(marks, m, p))
    && InLineOrder(s.errors)
  }

  ghost predicate Means(marks: seq<Mark>, n: nat, s: Parser)
    requires n <= |marks|
  {
    CurrentMeans(marks, n, s) && SnippetsMean(marks, n, s) && ErrorsMean(marks, n, s)
  }

  lemma CurrentIsOpen(marks: seq<Mark>, n: nat, s: Parser, id: string)
    requires n <= |marks| && CurrentMeans(marks, n, s)
    ensures s.current == Some(id) <==> OpenAs(marks, n, id)
  {
    if s.current.Some? {
      var k: nat :| OpenAt(marks, n, k);
      assert marks[k].id == s.current;
    }
  }

  lemma CurrentStep(marks: seq<Mark>, n: nat, s: Parser)
    requires n < |marks| && CurrentMeans(marks, n, s) && CheckLine(s, n + 1, marks[n]).Some?
    ensures CurrentMeans(marks, n + 1, CheckLine(s, n + 1, marks[n]).value)
  {
    var t, m := CheckLine(s, n + 1, marks[n]).value, n + 1;
    if marks[n].Start? && !IsOpen(marks, n) {
      OpenMoves(marks, n, n);
      assert t.current == marks[n].id && t.lines == [] && !Shows(marks, n, m);
      forall k: nat | OpenAt(marks, m, k)
        ensures k == n
      {
        OpenMoves(marks, n, k);
      }
    } else {
      forall k: nat
        ensures OpenAt(marks, m, k) <==> !marks[n].End? && OpenAt(marks, n, k)
      {
        OpenMoves(marks, n, k);
      }
      assert t.current == if marks[n].End? then None else s.current;
      forall k: nat | OpenAt(marks, m, k)
        ensures t.current == marks[k].id && (AnyVisible(t.lines) <==> Shows(marks, k, m))
      {
        assert OpenAt(marks, n, k) && IsOpen(marks, n);
        ShowsStep(marks, k, n);
        if marks[n].Plain? {
          VisibleSnoc(s.lines, marks[n].text);
        }
      }
      assert IsOpen(marks, m) <==> !marks[n].End? && IsOpen(marks, n);
    }
  }

  lemma ShowsStep(marks: seq<Mark>, k: nat, n: nat)
    requires k < n < |marks|
    ensures Shows(marks, k, n + 1) <==> Shows(marks, k, n) || (marks[n].Plain? && Visible(marks[n].text))
  {
  }

  lemma VisibleSnoc(lines: seq<string>, line: string)
    ensures AnyVisible(lines + [line]) <==> AnyVisible(lines) || Visible(line)
  {
    assert line in lines + [line];
    assert forall l :: l in lines + [line] <==> l in lines || l == line;
  }

  /** The id of a snippet that line n ends well. */
  lemma EndsMeans(marks: seq<Mark>, n: nat, s: Parser, id: string)
    requires n < |marks| && CurrentMeans(marks, n, s)
    ensures Ends(marks, n, id) <==> marks[n].End? && s.current == Some(id) && AnyVisible(s.lines)
  {
    if s.current.Some? {
      var k: nat :| OpenAt(marks, n, k);
      assert marks[k].id == s.current;
    }
  }

  lemma SnippetsStep(marks: seq<Mark>, n: nat, s: Parser)
    requires n < |marks| && CurrentMeans(marks, n, s) && SnippetsMean(marks, n, s)
    requires CheckLine(s, n + 1, marks[n]).Some?
    ensures SnippetsMean(marks, n + 1, CheckLine(s, n + 1, marks[n]).value)
  {
    var t := CheckLine(s, n + 1, marks[n]).value;
    forall id
      ensures id in t.snippets <==> Ended(marks, n + 1, id)
    {
      EndsMeans(marks, n, s, id);
      EndedStep(marks, n, id);
      SnippetAdded(s, n + 1, marks[n], id);
    }
  }

  lemma SnippetAdded(s: Parser, line: nat, mark: Mark, id: string)
    requires CheckLine(s, line, mark).Some?
    ensures id in CheckLine(s, line, mark).value.snippets <==>
            id in s.snippets || (mark.End? && s.current == Some(id) && AnyVisible(s.lines))
  {
  }

  lemma EndedStep(marks: seq<Mark>, n: nat, id: string)
    requires n < |marks|
    ensures Ended(marks, n + 1, id) <==> Ended(marks, n, id) || Ends(marks, n, id)
  {
  }

  /** What line n adds to the errors. */
  function Added(s: Parser, n: nat, mark: Mark): seq<Problem> {
    match mark
    case Start(_) => if s.current.Some? then [Nested(n + 1, s.current.value)] else []
    case End =>
      if s.current.None? then [EndWithoutStart(n + 1)]
      else if s.current.value in s.snippets then [Duplicate(n + 1, s.current.value)]
      else if !AnyVisible(s.lines) then [Empty(n + 1, s.current.value)]
      else []
    case Plain(_) => []
  }

  lemma AddedIsProblem(marks: seq<Mark>, n: nat, s: Parser, p: Problem)
    requires n < |marks| && CurrentMeans(marks, n, s) && SnippetsMean(marks, n, s)
    ensures p in Added(s, n, marks[n]) <==> ProblemAt(marks, n, p)
  {
    if !p.EndWithoutStart? {
      CurrentIsOpen(marks, n, s, p.id);
      EndsMeans(marks, n, s, p.id);
    }
  }

  lemma ErrorsStep(marks: seq<Mark>, n: nat, s: Parser)
    requires n < |marks| && Means(marks, n, s) && CheckLine(s, n + 1, marks[n]).Some?
    ensures ErrorsMean(marks, n + 1, CheckLine(s, n + 1, marks[n]).value)
  {
    var t, added := CheckLine(s, n + 1, marks[n]).value, Added(s, n, marks[n]);
    assert t.errors == s.errors + added;
    forall p
      ensures p in t.errors <==> exists m :: 0 <= m < n + 1 && ProblemAt(marks, m, p)
    {
      AddedIsProblem(marks, n, s, p);
      assert p in t.errors <==> p in s.errors || p in added;
    }
    forall e | e in s.errors
      ensures !e.Unterminated? && e.lineno <= n
    {
      var m :| 0 <= m < n && ProblemAt(marks, m, e);
    }
    forall i, j | 0 <= i < j < |t.errors|
      ensures !t.errors[i].Unterminated? && (t.errors[j].Unterminated? || t.errors[i].lineno < t.errors[j].lineno)
    {
      assert t.errors[i] == s.errors[i] && s.errors[i] in s.errors;
      if j < |s.errors| {
        assert t.errors[j] == s.errors[j];
      }
    }
  }

  lemma {:induction false} StateMeans(marks: seq<Mark>, n: nat)
    requires n <= |marks| && CheckLines(marks, n).Some?
    ensures Means(marks, n, CheckLines(marks, n).value)
  {
    if n > 0 {
      StateMeans(marks, n - 1);
      var s := CheckLines(marks, n - 1).value;
      CurrentStep(marks, n - 1, s);
      SnippetsStep(marks, n - 1, s);
      ErrorsStep(marks, n - 1, s);
    }
  }

  // ----- what is reported

  /** The errors are the problems of the lines, in line order, then the snippet that the end finds open. */
  lemma ErrorsExact(marks: seq<Mark>, p: Problem)
    requires Parse(marks).Parsed?
    ensures InLineOrder(Parse(marks).errors)
    ensures p in Parse(marks).errors <==>
            if p.Unterminated? then OpenAs(marks, |marks|, p.id)
            else exists n :: 0 <= n < |marks| && ProblemAt(marks, n, p)
  {
    StateMeans(marks, |marks|);
    var s := CheckLines(marks, |marks|).value;
    if p.Unterminated? {
      CurrentIsOpen(marks, |marks|, s, p.id);
    }
    forall e | e in s.errors
      ensures !e.Unterminated?
    {
      var m :| 0 <= m < |marks| && ProblemAt(marks, m, e);
    }
  }

  /** A missing id raises exactly where no other snippet is open. */
  lemma CrashExact(marks: seq<Mark>)
    ensures Parse(marks).ParseCrash? <==>
            exists n :: 0 <= n < |marks| && marks[n] == Start(None) && !IsOpen(marks, n)
  {
    CrashUpTo(marks, |marks|);
  }

  lemma {:induction false} CrashUpTo(marks: seq<Mark>, n: nat)
    requires n <= |marks|
    ensures CheckLines(marks, n).None? <==>
            exists m :: 0 <= m < n && marks[m] == Start(None) && !IsOpen(marks, m)
  {
    if n > 0 {
      CrashUpTo(marks, n - 1);
      if CheckLines(marks, n - 1).Some? {
        StateMeans(marks, n - 1);
        assert CheckLines(marks, n).None? <==> marks[n - 1] == Start(None) && !IsOpen(marks, n - 1);
      }
    }
  }
}
