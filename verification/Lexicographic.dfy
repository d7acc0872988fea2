/** Python's order on strings and tuples: the first difference decides, and a proper prefix is less. */
module Lexicographic {
  ghost predicate StrictTotal<T(!new)>(less: (T, T) -> bool) {
    && (forall x :: !less(x, x))
    && (forall x, y :: x == y || less(x, y) || less(y, x))
    && (forall x, y, z :: less(x, y) && less(y, z) ==> less(x, z))
  }

  predicate Lex<T(==)>(less: (T, T) -> bool, a: seq<T>, b: seq<T>)
    decreases b
  {
    if b == [] then false
    else if a == [] then true
    else if a[0] == b[0] then Lex(less, a[1..], b[1..])
    else less(a[0], b[0])
  }

  /** Position j decides: everything before it agrees, and there a ends or is less. */
  ghost predicate DecidedAt<T>(less: (T, T) -> bool, a: seq<T>, b: seq<T>, j: int) {
    && 0 <= j <= |a| && j < |b|
    && a[..j] == b[..j]
    && (j < |a| ==> a[j] != b[j] && less(a[j], b[j]))
  }

  lemma {:induction false} LexMeaning<T>(less: (T, T) -> bool, a: seq<T>, b: seq<T>)
    ensures Lex(less, a, b) <==> exists j :: DecidedAt(less, a, b, j)
    decreases b
  {
    if b != [] {
      if a == [] {
        assert DecidedAt(less, a, b, 0);
      } else if a[0] == b[0] {
        LexMeaning(less, a[1..], b[1..]);
        DecidedInTail(less, a, b);
      } else {
        assert less(a[0], b[0]) ==> DecidedAt(less, a, b, 0);
        forall j | DecidedAt(less, a, b, j)
          ensures less(a[0], b[0])
        {
          if j > 0 {
            assert a[..j][0] == b[..j][0];
          }
        }
      }
    }
  }

  lemma DecidedInTail<T>(less: (T, T) -> bool, a: seq<T>, b: seq<T>)
    requires a != [] && b != [] && a[0] == b[0]
    ensures (exists j :: DecidedAt(less, a, b, j)) <==> exists j :: DecidedAt(less, a[1..], b[1..], j)
  {
    if exists j :: DecidedAt(less, a, b, j) {
      var j :| DecidedAt(less, a, b, j);
      assert j < |a| ==> a[j] != b[j];
      var i := j - 1;
      assert a[1..][..i] == a[..j][1..] && b[1..][..i] == b[..j][1..];
      assert DecidedAt(less, a[1..], b[1..], i);
    }
    if exists j :: DecidedAt(less, a[1..], b[1..], j) {
      var j :| DecidedAt(less, a[1..], b[1..], j);
      assert a[..j + 1] == [a[0]] + a[1..][..j] && b[..j + 1] == [b[0]] + b[1..][..j];
      assert DecidedAt(less, a, b, j + 1);
    }
  }

  // ----- a strict total order on elements gives one on sequences

  lemma {:induction false} LexIrreflexive<T(!new)>(less: (T, T) -> bool, a: seq<T>)
    requires StrictTotal(less)
    ensures !Lex(less, a, a)
  {
    if a != [] {
      LexIrreflexive(less, a[1..]);
    }
  }

  lemma {:induction false} LexTotal<T(!new)>(less: (T, T) -> bool, a: seq<T>, b: seq<T>)
    requires StrictTotal(less)
    ensures a == b || Lex(less, a, b) || Lex(less, b, a)
    decreases b
  {
    if a != [] && b != [] && a[0] == b[0] {
      LexTotal(less, a[1..], b[1..]);
      assert a == [a[0]] + a[1..] && b == [b[0]] + b[1..];
    }
  }

  lemma {:induction false} LexTransitive<T(!new)>(less: (T, T) -> bool, a: seq<T>, b: seq<T>, c: seq<T>)
    requires StrictTotal(less) && Lex(less, a, b) && Lex(less, b, c)
    ensures Lex(less, a, c)
    decreases c
  {
    if a != [] && a[0] == b[0] && b[0] == c[0] {
      LexTransitive(less, a[1..], b[1..], c[1..]);
    }
  }

  /** All three at once, for the sequence order `lex` over `less`. */
  lemma LexStrictTotal<T(!new)>(less: (T, T) -> bool, lex: (seq<T>, seq<T>) -> bool)
    requires StrictTotal(less)
    requires forall a, b :: lex(a, b) <==> Lex(less, a, b)
    ensures StrictTotal(lex)
  {
    forall a
      ensures !lex(a, a)
    {
      LexIrreflexive(less, a);
    }
    forall a, b
      ensures a == b || lex(a, b) || lex(b, a)
    {
      LexTotal(less, a, b);
    }
    forall a, b, c | lex(a, b) && lex(b, c)
      ensures lex(a, c)
    {
      LexTransitive(less, a, b, c);
    }
  }
}
