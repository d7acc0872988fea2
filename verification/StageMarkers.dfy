/** The ordered stage check of the connectivity matrix (hil/ws63-connectivity-reset-matrix.py):
    every stage has a group of alternative markers, and each stage must appear in the log strictly
    after the one before it. The loop takes the earliest marker each time; that loses nothing. */
module StageMarkers {
  import opened Wrappers

  type Bytes = seq<nat>

  datatype Stage = Stage(name: string, markers: seq<Bytes>)

  datatype Violation = Missing(name: string) | OutOfOrder(name: string)

  // ----- finding markers

  /** `marker` stands at position `at` of the log. */
  predicate Occurs(log: Bytes, marker: Bytes, at: nat) {
    at + |marker| <= |log| && log[at..at + |marker|] == marker
  }

  /** Some marker of the group stands at `at`. */
  ghost predicate GroupOccurs(log: Bytes, markers: seq<Bytes>, at: nat) {
    exists m :: m in markers && Occurs(log, m, at)
  }

  /** `position` is the first place from `after` on where the marker stands, None if there is none. */
  ghost predicate IsFirst(log: Bytes, marker: Bytes, after: nat, position: Option<nat>) {
    && (position.Some? ==> position.value >= after && Occurs(log, marker, position.value))
    && forall k: nat :: after <= k && (position.Some? ==> k < position.value) ==> !Occurs(log, marker, k)
  }

  /** The same for any marker of a group. */
  ghost predicate IsFirstOfGroup(log: Bytes, markers: seq<Bytes>, after: nat, position: Option<nat>) {
    && (position.Some? ==> position.value >= after && GroupOccurs(log, markers, position.value))
    && forall k: nat :: after <= k && (position.Some? ==> k < position.value) ==> !GroupOccurs(log, markers, k)
  }

  /** `bytes.find(marker, after)`. */
  method Find(log: Bytes, marker: Bytes, after: nat) returns (position: Option<nat>)
    ensures IsFirst(log, marker, after, position)
  {
    var at := after;
    while at + |marker| <= |log|
      invariant after <= at
      invariant forall k: nat :: after <= k < at ==> !Occurs(log, marker, k)
    {
      if log[at..at + |marker|] == marker {
        return Some(at);
      }
      at := at + 1;
    }
    return None;
  }

  /** `marker_group_position`: the smallest of the positions found. */
  method MarkerGroupPosition(log: Bytes, markers: seq<Bytes>, after: nat) returns (position: Option<nat>)
    ensures IsFirstOfGroup(log, markers, after, position)
  {
    position := None;
    for i := 0 to |markers|
      invariant IsFirstOfGroup(log, markers[..i], after, position)
    {
      var found := Find(log, markers[i], after);
      var next := if found.Some? && (position.None? || found.value < position.value) then found else position;
      OneMoreMarker(log, markers[..i], markers[i], after, position, found, next);
      assert markers[..i + 1] == markers[..i] + [markers[i]];
      position := next;
    }
    assert markers[..|markers|] == markers;
  }

  lemma OneMoreMarker(log: Bytes, markers: seq<Bytes>, marker: Bytes, after: nat,
                      position: Option<nat>, found: Option<nat>, next: Option<nat>)
    requires IsFirstOfGroup(log, markers, after, position) && IsFirst(log, marker, after, found)
    requires next == if found.Some? && (position.None? || found.value < position.value) then found else position
    ensures IsFirstOfGroup(log, markers + [marker], after, next)
  {
    forall k: nat
      ensures GroupOccurs(log, markers + [marker], k) <==> GroupOccurs(log, markers, k) || Occurs(log, marker, k)
    {
      GroupGrows(log, markers, marker, k);
    }
  }

  lemma GroupGrows(log: Bytes, markers: seq<Bytes>, marker: Bytes, k: nat)
    ensures GroupOccurs(log, markers + [marker], k) <==> GroupOccurs(log, markers, k) || Occurs(log, marker, k)
  {
    assert marker in markers + [marker];
    assert forall m :: m in markers ==> m in markers + [marker];
  }

  // ----- chains of positions

  /** Strictly increasing positions, one marker of every stage in order, none before `from`. */
  ghost predicate IsChain(log: Bytes, stages: seq<Stage>, positions: seq<nat>, from: nat) {
    && |positions| == |stages|
    && (forall i :: 0 <= i < |stages| ==> GroupOccurs(log, stages[i].markers, positions[i]))
    && (forall i :: 0 <= i < |stages| ==> positions[i] >= from)
    && (forall i, j :: 0 <= i < j < |stages| ==> positions[i] < positions[j])
  }

  ghost predicate HasChain(log: Bytes, stages: seq<Stage>, from: nat) {
    exists positions :: IsChain(log, stages, positions, from)
  }

  lemma NoStages(log: Bytes, from: nat)
    ensures HasChain(log, [], from)
  {
    assert IsChain(log, [], [], from);
  }

  /** Taking the earliest position of the first stage is as good as any other choice. */
  lemma EarliestIsBest(log: Bytes, stage: Stage, rest: seq<Stage>, from: nat, first: nat)
    requires IsFirstOfGroup(log, stage.markers, from, Some(first))
    ensures HasChain(log, [stage] + rest, from) <==> HasChain(log, rest, first + 1)
  {
    if HasChain(log, [stage] + rest, from) {
      var positions :| IsChain(log, [stage] + rest, positions, from);
      DropFirst(log, stage, rest, positions, from, first);
    }
    if HasChain(log, rest, first + 1) {
      var later :| IsChain(log, rest, later, first + 1);
      AddFirst(log, stage, rest, later, from, first);
    }
  }

  lemma DropFirst(log: Bytes, stage: Stage, rest: seq<Stage>, positions: seq<nat>, from: nat, first: nat)
    requires IsFirstOfGroup(log, stage.markers, from, Some(first))
    requires IsChain(log, [stage] + rest, positions, from)
    ensures IsChain(log, rest, positions[1..], first + 1)
  {
    var stages := [stage] + rest;
    assert GroupOccurs(log, stages[0].markers, positions[0]);
    forall i | 0 <= i < |rest|
      ensures GroupOccurs(log, rest[i].markers, positions[1..][i]) && positions[1..][i] >= first + 1
    {
      assert GroupOccurs(log, stages[i + 1].markers, positions[i + 1]);
      assert positions[0] < positions[i + 1];
    }
  }

  lemma AddFirst(log: Bytes, stage: Stage, rest: seq<Stage>, later: seq<nat>, from: nat, first: nat)
    requires IsFirstOfGroup(log, stage.markers, from, Some(first))
    requires IsChain(log, rest, later, first + 1)
    ensures IsChain(log, [stage] + rest, [first] + later, from)
  {
    var stages, positions := [stage] + rest, [first] + later;
    forall i | 0 <= i < |stages|
      ensures GroupOccurs(log, stages[i].markers, positions[i]) && positions[i] >= from
    {
      if i > 0 {
        assert GroupOccurs(log, rest[i - 1].markers, later[i - 1]);
      }
    }
  }

  lemma NothingLeft(log: Bytes, stage: Stage, from: nat)
    requires IsFirstOfGroup(log, stage.markers, from, None)
    ensures !HasChain(log, [stage], from)
  {
    forall positions
      ensures !IsChain(log, [stage], positions, from)
    {
      if |positions| == 1 && positions[0] >= from {
        assert !GroupOccurs(log, [stage][0].markers, positions[0]);
      }
    }
  }

  // ----- the loop

  /** The stages found among the first n: each can follow, in one chain, those found before it. */
  ghost function Found(log: Bytes, stages: seq<Stage>, n: nat): seq<Stage>
    requires n <= |stages|
  {
    if n == 0 then []
    else
      var before := Found(log, stages, n - 1);
      if HasChain(log, before + [stages[n - 1]], 0) then before + [stages[n - 1]] else before
  }

  /** The other stages, reported as missing. */
  ghost function Report(log: Bytes, stages: seq<Stage>, n: nat): seq<Violation>
    requires n <= |stages|
  {
    if n == 0 then []
    else
      var before := Report(log, stages, n - 1);
      if HasChain(log, Found(log, stages, n - 1) + [stages[n - 1]], 0) then before
      else before + [Missing(stages[n - 1].name)]
  }

  lemma ChainPrefix(log: Bytes, stages: seq<Stage>, n: nat)
    requires n <= |stages| && HasChain(log, stages, 0)
    ensures HasChain(log, stages[..n], 0)
  {
    var positions :| IsChain(log, stages, positions, 0);
    assert IsChain(log, stages[..n], positions[..n], 0);
  }

  lemma {:induction false} NoReportMeansFound(log: Bytes, stages: seq<Stage>, n: nat)
    requires n <= |stages| && Report(log, stages, n) == []
    ensures Found(log, stages, n) == stages[..n] && HasChain(log, stages[..n], 0)
  {
    if n == 0 {
      NoStages(log, 0);
    } else {
      NoReportMeansFound(log, stages, n - 1);
      assert stages[..n - 1] + [stages[n - 1]] == stages[..n];
    }
  }

  lemma {:induction false} ChainMeansNoReport(log: Bytes, stages: seq<Stage>, n: nat)
    requires n <= |stages| && HasChain(log, stages, 0)
    ensures Found(log, stages, n) == stages[..n] && Report(log, stages, n) == []
  {
    if n > 0 {
      ChainMeansNoReport(log, stages, n - 1);
      ChainPrefix(log, stages, n);
      assert stages[..n - 1] + [stages[n - 1]] == stages[..n];
    }
  }

  /** Nothing is reported exactly when all stages stand in the log in order. */
  lemma ReportExact(log: Bytes, stages: seq<Stage>)
    ensures Report(log, stages, |stages|) == [] <==> HasChain(log, stages, 0)
  {
    if Report(log, stages, |stages|) == [] {
      NoReportMeansFound(log, stages, |stages|);
      assert stages[..|stages|] == stages;
    }
    if HasChain(log, stages, 0) {
      ChainMeansNoReport(log, stages, |stages|);
    }
  }

  /** Stage k can follow, in one chain, the stages found before it. */
  ghost predicate CanFollow(log: Bytes, stages: seq<Stage>, k: nat)
    requires k < |stages|
  {
    HasChain(log, Found(log, stages, k) + [stages[k]], 0)
  }

  lemma {:induction false} ReportGrows(log: Bytes, stages: seq<Stage>, k: nat, n: nat)
    requires k <= n <= |stages|
    ensures Report(log, stages, k) <= Report(log, stages, n)
    decreases n
  {
    if k < n {
      ReportGrows(log, stages, k, n - 1);
    }
  }

  /** Each stage is found, behind the stages found before it, when it can follow them; else its name is
      reported, behind those reported before it. Nothing else is. */
  lemma EachStageOnce(log: Bytes, stages: seq<Stage>, k: nat)
    requires k < |stages|
    ensures Found(log, stages, 0) == [] && Report(log, stages, 0) == []
    ensures var found, missing, whole := Found(log, stages, k), Report(log, stages, k), Report(log, stages, |stages|);
            && missing <= whole
            && if CanFollow(log, stages, k)
               then Found(log, stages, k + 1) == found + [stages[k]] && |Report(log, stages, k + 1)| == |missing|
               else && Found(log, stages, k + 1) == found && |Report(log, stages, k + 1)| == |missing| + 1
                    && |missing| < |whole| && whole[|missing|] == Missing(stages[k].name)
  {
    ReportGrows(log, stages, k, |stages|);
    ReportGrows(log, stages, k + 1, |stages|);
    assert !CanFollow(log, stages, k) ==>
             Report(log, stages, k + 1)[|Report(log, stages, k)|] == Missing(stages[k].name);
  }

  /** What can follow the found stages is what can stand from the cursor on. */
  ghost predicate Placed(log: Bytes, found: seq<Stage>, cursor: nat) {
    forall more: seq<Stage> :: HasChain(log, found + more, 0) <==> HasChain(log, more, cursor)
  }

  lemma PlacedAtStart(log: Bytes)
    ensures Placed(log, [], 0)
  {
    forall more: seq<Stage>
      ensures HasChain(log, [] + more, 0) <==> HasChain(log, more, 0)
    {
      assert [] + more == more;
    }
  }

  lemma PlaceNext(log: Bytes, found: seq<Stage>, stage: Stage, cursor: nat, position: nat)
    requires Placed(log, found, cursor) && IsFirstOfGroup(log, stage.markers, cursor, Some(position))
    ensures Placed(log, found + [stage], position + 1) && HasChain(log, found + [stage], 0)
  {
    var next := position + 1;
    forall more: seq<Stage>
      ensures HasChain(log, found + [stage] + more, 0) <==> HasChain(log, more, next)
    {
      assert found + [stage] + more == found + ([stage] + more);
      EarliestIsBest(log, stage, more, cursor, position);
    }
    NoStages(log, next);
    assert found + [stage] + [] == found + [stage];
  }

  lemma CannotPlace(log: Bytes, found: seq<Stage>, stage: Stage, cursor: nat)
    requires Placed(log, found, cursor) && IsFirstOfGroup(log, stage.markers, cursor, None)
    ensures !HasChain(log, found + [stage], 0)
  {
    NothingLeft(log, stage, cursor);
  }

  /** The ordered-stage loop. It reports, in order, exactly the stages that cannot follow the ones
      found before them, so none when a chain of all stages exists; none is ever out of order. */
  method CheckStages(log: Bytes, stages: seq<Stage>) returns (violations: seq<Violation>)
    ensures violations == Report(log, stages, |stages|)
    ensures violations == [] <==> HasChain(log, stages, 0)
  {
    violations := [];
    var cursor: nat := 0;
    PlacedAtStart(log);
    for i := 0 to |stages|
      invariant violations == Report(log, stages, i) && Placed(log, Found(log, stages, i), cursor)
    {
      var Stage(name, markers) := stages[i];
      var position := MarkerGroupPosition(log, markers, cursor);
      if position.None? {
        CannotPlace(log, Found(log, stages, i), stages[i], cursor);
        violations := violations + [Missing(name)];
      } else if position.value < cursor {
        violations := violations + [OutOfOrder(name)];
      } else {
        PlaceNext(log, Found(log, stages, i), stages[i], cursor, position.value);
        cursor := position.value + 1;
      }
    }
    ReportExact(log, stages);
  }
}
