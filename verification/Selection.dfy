/** Python's `max` with a key over a filtered list: it picks the first of the greatest. */
module Selection {
  import opened Lexicographic
  import opened Wrappers

  /** `max(candidates, key=...)` of items paired with their keys. */
  function MaxBy<S, K>(less: (K, K) -> bool, candidates: seq<(S, K)>): (S, K)
    requires candidates != []
  {
    var front, last := candidates[..|candidates| - 1], candidates[|candidates| - 1];
    if front == [] then last
    else
      var best := MaxBy(less, front);
      if less(best.1, last.1) then last else best
  }

  /** `[(item, key(item)) for item in items if key(item) is not None]`. */
  function Keyed<S, K>(key: S -> Option<K>, items: seq<S>): seq<(S, K)> {
    if items == [] then []
    else
      var last := items[|items| - 1];
      Keyed(key, items[..|items| - 1]) + if key(last).Some? then [(last, key(last).value)] else []
  }

  /** `[entry for entry in entries if pass(entry's key)]`. */
  function Passing<S, K>(pass: K -> bool, entries: seq<(S, K)>): seq<(S, K)> {
    if entries == [] then []
    else
      var last := entries[|entries| - 1];
      Passing(pass, entries[..|entries| - 1]) + if pass(last.1) then [last] else []
  }

  /** An item stands for at most one value. */
  ghost predicate Functional<S(!new), V(!new)>(admits: (S, V) -> bool) {
    forall s, v, w :: admits(s, v) && admits(s, w) ==> v == w
  }

  ghost function ValueOf<S, V(!new)>(admits: (S, V) -> bool, s: S): (v: V)
    requires exists v :: admits(s, v)
    ensures admits(s, v)
  {
    var v :| admits(s, v);
    v
  }

  /** The items that stand for some value, with the keys of the values. */
  ghost function Kept<S, V(!new), K>(admits: (S, V) -> bool, key: V -> K, items: seq<S>): seq<(S, K)> {
    if items == [] then []
    else
      var last := items[|items| - 1];
      Kept(admits, key, items[..|items| - 1])
      + if exists v :: admits(last, v) then [(last, key(ValueOf(admits, last)))] else []
  }

  lemma KeptSnoc<S(!new), V(!new), K>(admits: (S, V) -> bool, key: V -> K, front: seq<S>, last: S)
    requires Functional(admits)
    ensures forall v :: admits(last, v) ==>
              Kept(admits, key, front + [last]) == Kept(admits, key, front) + [(last, key(v))]
    ensures (forall v :: !admits(last, v)) ==> Kept(admits, key, front + [last]) == Kept(admits, key, front)
  {
    var items := front + [last];
    assert items[..|items| - 1] == front && items[|items| - 1] == last;
    forall v | admits(last, v)
      ensures v == ValueOf(admits, last)
    {
    }
  }

  ghost predicate AnyKept<S, V(!new)>(admits: (S, V) -> bool, items: seq<S>) {
    exists i, v :: 0 <= i < |items| && admits(items[i], v)
  }

  lemma {:induction false} KeptSome<S, V(!new), K>(admits: (S, V) -> bool, key: V -> K, items: seq<S>)
    ensures Kept(admits, key, items) != [] <==> AnyKept(admits, items)
  {
    if items != [] {
      var front, last := items[..|items| - 1], items[|items| - 1];
      KeptSome(admits, key, front);
      if AnyKept(admits, front) {
        var i, v :| 0 <= i < |front| && admits(front[i], v);
        assert admits(items[i], v);
      }
      if AnyKept(admits, items) {
        var i, v :| 0 <= i < |items| && admits(items[i], v);
        assert i < |front| ==> admits(front[i], v);
      }
    }
  }

  /** The computed key of an item is that of the value it stands for. */
  ghost predicate KeysAgree<S(!new), V(!new), K>(keyOf: S -> Option<K>, admits: (S, V) -> bool, key: V -> K) {
    forall s, v :: admits(s, v) ==> keyOf(s) == Some(key(v))
  }

  lemma {:induction false} KeyedIsKept<S(!new), V(!new), K>(
      keyOf: S -> Option<K>, admits: (S, V) -> bool, key: V -> K, items: seq<S>)
    requires Functional(admits) && KeysAgree(keyOf, admits, key)
    requires forall i :: 0 <= i < |items| && keyOf(items[i]).Some? ==> exists v :: admits(items[i], v)
    ensures Keyed(keyOf, items) == Kept(admits, key, items)
  {
    if items != [] {
      var front, last := items[..|items| - 1], items[|items| - 1];
      assert items == front + [last];
      KeyedIsKept(keyOf, admits, key, front);
      KeptSnoc(admits, key, front, last);
    }
  }

  lemma PassingSnoc<S, K>(pass: K -> bool, entries: seq<(S, K)>, last: (S, K))
    ensures Passing(pass, entries + [last]) == Passing(pass, entries) + if pass(last.1) then [last] else []
  {
    assert (entries + [last])[..|entries|] == entries;
  }

  lemma {:induction false} PassingIsKept<S(!new), V(!new), K>(
      keyOf: S -> Option<K>, pass: K -> bool, admits: (S, V) -> bool, key: V -> K, items: seq<S>)
    requires Functional(admits) && KeysAgree(keyOf, admits, key)
    requires forall s :: keyOf(s).Some? ==> (pass(keyOf(s).value) <==> exists v :: admits(s, v))
    ensures Passing(pass, Keyed(keyOf, items)) == Kept(admits, key, items)
  {
    if items != [] {
      var front, last := items[..|items| - 1], items[|items| - 1];
      assert items == front + [last];
      PassingIsKept(keyOf, pass, admits, key, front);
      KeptSnoc(admits, key, front, last);
      assert Keyed(keyOf, items) ==
             Keyed(keyOf, front) + if keyOf(last).Some? then [(last, keyOf(last).value)] else [];
      if keyOf(last).Some? {
        PassingSnoc(pass, Keyed(keyOf, front), (last, keyOf(last).value));
        if pass(keyOf(last).value) {
          assert admits(last, ValueOf(admits, last));
        }
      } else {
        assert forall v :: !admits(last, v);
        assert Keyed(keyOf, items) == Keyed(keyOf, front);
      }
    }
  }

  /** Item i stands for v, v precedes no listed value, and those listed before it precede v. */
  ghost predicate FirstGreatestAt<S, V(!new)>(precedes: (V, V) -> bool, admits: (S, V) -> bool, items: seq<S>,
                                              i: int, v: V) {
    && 0 <= i < |items| && admits(items[i], v)
    && forall j, w :: 0 <= j < |items| && admits(items[j], w) ==> !precedes(v, w) && (j < i ==> precedes(w, v))
  }

  /** `best` is the first greatest of the items. */
  ghost predicate IsFirstGreatest<S, V(!new)>(precedes: (V, V) -> bool, admits: (S, V) -> bool, items: seq<S>, best: S) {
    exists i, v :: FirstGreatestAt(precedes, admits, items, i, v) && items[i] == best
  }

  /** The key orders the values of the items as `precedes` does. */
  ghost predicate Reflects<S(!new), V(!new), K>(less: (K, K) -> bool, key: V -> K, precedes: (V, V) -> bool,
                                                admits: (S, V) -> bool) {
    forall s, t, v, w :: admits(s, v) && admits(t, w) ==> (precedes(v, w) <==> less(key(v), key(w)))
  }

  /** One more item takes the place of the first greatest exactly when its key is greater. */
  lemma FirstGreatestSnoc<S(!new), V(!new), K(!new)>(
      less: (K, K) -> bool, key: V -> K, precedes: (V, V) -> bool, admits: (S, V) -> bool,
      front: seq<S>, last: S, w: V, i: nat, v: V)
    requires StrictTotal(less) && Functional(admits) && Reflects(less, key, precedes, admits)
    requires FirstGreatestAt(precedes, admits, front, i, v) && admits(last, w)
    ensures if less(key(v), key(w)) then FirstGreatestAt(precedes, admits, front + [last], |front|, w)
            else FirstGreatestAt(precedes, admits, front + [last], i, v)
  {
    var items := front + [last];
    forall j, u | 0 <= j < |items| && admits(items[j], u)
      ensures less(key(v), key(w)) ==> !precedes(w, u) && (j < |front| ==> precedes(u, w))
      ensures !less(key(v), key(w)) ==> !precedes(v, u) && (j < i ==> precedes(u, v))
    {
      assert items[i] == front[i] && items[|front|] == last;
      if j < |front| {
        assert admits(front[j], u);
      }
    }
  }

  lemma OnlyGreatest<S(!new), V(!new), K(!new)>(
      less: (K, K) -> bool, key: V -> K, precedes: (V, V) -> bool, admits: (S, V) -> bool, front: seq<S>, last: S, w: V)
    requires StrictTotal(less) && Functional(admits) && Reflects(less, key, precedes, admits)
    requires !AnyKept(admits, front) && admits(last, w)
    ensures FirstGreatestAt(precedes, admits, front + [last], |front|, w)
  {
    var items := front + [last];
    forall j, u | 0 <= j < |front|
      ensures !admits(items[j], u)
    {
      assert admits(front[j], u) ==> AnyKept(admits, front);
    }
  }

  lemma SkipLast<S, V(!new)>(precedes: (V, V) -> bool, admits: (S, V) -> bool, front: seq<S>, last: S, i: nat, v: V)
    requires FirstGreatestAt(precedes, admits, front, i, v) && forall u :: !admits(last, u)
    ensures FirstGreatestAt(precedes, admits, front + [last], i, v)
  {
    var items := front + [last];
    forall j, u | 0 <= j < |items| && admits(items[j], u)
      ensures j < |front| && admits(front[j], u)
    {
    }
  }

  /** Taking the maximum by such a key takes the first greatest. */
  lemma {:induction false} MaxByIsFirst<S(!new), V(!new), K(!new)>(
      less: (K, K) -> bool, key: V -> K, precedes: (V, V) -> bool, admits: (S, V) -> bool, items: seq<S>)
    returns (i: nat, v: V)
    requires StrictTotal(less) && Functional(admits) && Reflects(less, key, precedes, admits)
    requires Kept(admits, key, items) != []
    ensures FirstGreatestAt(precedes, admits, items, i, v)
    ensures MaxBy(less, Kept(admits, key, items)) == (items[i], key(v))
  {
    var n := |items| - 1;
    var front, last := items[..n], items[n];
    var before := Kept(admits, key, front);
    assert items == front + [last];
    KeptSnoc(admits, key, front, last);
    KeptSome(admits, key, front);
    if !exists v :: admits(last, v) {
      i, v := MaxByIsFirst(less, key, precedes, admits, front);
      SkipLast(precedes, admits, front, last, i, v);
    } else {
      var w := ValueOf(admits, last);
      assert (before + [(last, key(w))])[..|before|] == before;
      if before == [] {
        OnlyGreatest(less, key, precedes, admits, front, last, w);
        i, v := n, w;
      } else {
        i, v := MaxByIsFirst(less, key, precedes, admits, front);
        FirstGreatestSnoc(less, key, precedes, admits, front, last, w, i, v);
        if less(key(v), key(w)) {
          i, v := n, w;
        }
      }
    }
  }
}
