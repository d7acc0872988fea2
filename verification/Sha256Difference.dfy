/** What the source's table of round constants (chips/ws63/flashboot/src/sha256.rs) changes: entry 52
    differs from the standard's, so on every state and block the compression differs, and no message
    of a single block gets its SHA-256. */
module Sha256Difference {
  import opened Sha256
  import opened Sha256Spec
  import opened Words

  /** Two tables that differ in entry c and nowhere else. */
  ghost predicate DifferAt(k: seq<Word>, l: seq<Word>, c: nat) {
    && |k| == |l| == 64 && c < 64 && k[c] != l[c]
    && forall t :: 0 <= t < 64 && t != c ==> k[t] == l[t]
  }

  lemma TablesDiffer()
    ensures DifferAt(K, TABLE, 52)
  {
    assert TABLE6 == ROW6[4 := 0x391c0cd3];
    var k, l := K, TABLE;
    forall t | 0 <= t < 64 && t != 52
      ensures k[t] == l[t]
    {
      assert 48 <= t < 56 ==> k[t] == ROW6[t - 48] && l[t] == TABLE6[t - 48];
    }
    assert k[52] == ROW6[4] && l[52] == TABLE6[4];
  }

  // ----- one round

  lemma AddCancels(x: Word, y: Word, z: Word)
    ensures Add(x, z) == Add(y, z) ==> x == y
  {
  }

  lemma AddCommutes(x: Word, y: Word)
    ensures Add(x, y) == Add(y, x)
  {
  }

  /** A round can be undone. */
  lemma RoundInjective(v: Working, w: Working, constant: Word, word: Word)
    requires NextWorking(v, constant, word) == NextWorking(w, constant, word)
    ensures v == w
  {
    var n := NextWorking(v, constant, word);
    var x := Add(Add(Add(v.h, BigSigma1(v.e)), Ch(v.e, v.f, v.g)), constant);
    var y := Add(Add(Add(w.h, BigSigma1(w.e)), Ch(w.e, w.f, w.g)), constant);
    var t2 := Add(BigSigma0(v.a), Maj(v.a, v.b, v.c));
    AddCancels(Add(x, word), Add(y, word), t2);
    AddCancels(v.d, w.d, Add(x, word));
    SumCancels(v.h, w.h, BigSigma1(v.e), Ch(v.e, v.f, v.g), constant, word);
  }

  lemma SumCancels(x: Word, y: Word, a: Word, b: Word, c: Word, d: Word)
    ensures Add(Add(Add(Add(x, a), b), c), d) == Add(Add(Add(Add(y, a), b), c), d) ==> x == y
  {
    AddCancels(Add(Add(Add(x, a), b), c), Add(Add(Add(y, a), b), c), d);
    AddCancels(Add(Add(x, a), b), Add(Add(y, a), b), c);
    AddCancels(Add(x, a), Add(y, a), b);
    AddCancels(x, y, a);
  }

  /** Another constant gives another result. */
  lemma ConstantMatters(v: Working, c: Word, d: Word, word: Word)
    requires c != d
    ensures NextWorking(v, c, word) != NextWorking(v, d, word)
  {
    var s := Add(Add(v.h, BigSigma1(v.e)), Ch(v.e, v.f, v.g));
    AddCommutes(s, c);
    AddCommutes(s, d);
    AddCancels(c, d, s);
    AddCancels(Add(s, c), Add(s, d), word);
    AddCommutes(v.d, Add(Add(s, c), word));
    AddCommutes(v.d, Add(Add(s, d), word));
    AddCancels(Add(Add(s, c), word), Add(Add(s, d), word), v.d);
  }

  // ----- the compression

  /** Up to the entry the rounds agree, and behind it they never agree again. */
  lemma {:induction false} RoundsDiffer(k: seq<Word>, l: seq<Word>, c: nat, start: Working, block: seq<Byte>, t: nat)
    requires DifferAt(k, l, c) && |block| == 64 && t <= 64
    ensures Rounds(k, start, block, t) == Rounds(l, start, block, t) <==> t <= c
  {
    if t > 0 {
      RoundsDiffer(k, l, c, start, block, t - 1);
      OneMoreRound(k, l, c, start, block, t - 1);
    }
  }

  lemma OneMoreRound(k: seq<Word>, l: seq<Word>, c: nat, start: Working, block: seq<Byte>, t: nat)
    requires DifferAt(k, l, c) && |block| == 64 && t < 64
    requires Rounds(k, start, block, t) == Rounds(l, start, block, t) <==> t <= c
    ensures Rounds(k, start, block, t + 1) == Rounds(l, start, block, t + 1) <==> t < c
  {
    var v, w, word := Rounds(k, start, block, t), Rounds(l, start, block, t), Schedule(block, t);
    assert Rounds(k, start, block, t + 1) == Round(k, start, block, t) == NextWorking(v, k[t], word);
    assert Rounds(l, start, block, t + 1) == Round(l, start, block, t) == NextWorking(w, l[t], word);
    if t == c {
      ConstantMatters(v, k[t], l[t], word);
    } else if NextWorking(v, k[t], word) == NextWorking(w, k[t], word) {
      RoundInjective(v, w, k[t], word);
    }
  }

  lemma AddingInjective(h: seq<Word>, v: Working, w: Working)
    requires |h| == 8 && AddWorking(h, v) == AddWorking(h, w)
    ensures v == w
  {
    var r, s := AddWorking(h, v), AddWorking(h, w);
    Cancel(h[0], v.a, w.a, r[0], s[0]);
    Cancel(h[1], v.b, w.b, r[1], s[1]);
    Cancel(h[2], v.c, w.c, r[2], s[2]);
    Cancel(h[3], v.d, w.d, r[3], s[3]);
    Cancel(h[4], v.e, w.e, r[4], s[4]);
    Cancel(h[5], v.f, w.f, r[5], s[5]);
    Cancel(h[6], v.g, w.g, r[6], s[6]);
    Cancel(h[7], v.h, w.h, r[7], s[7]);
  }

  lemma Cancel(h: Word, x: Word, y: Word, r: Word, s: Word)
    requires r == Add(h, x) && s == Add(h, y) && r == s
    ensures x == y
  {
    AddCommutes(h, x);
    AddCommutes(h, y);
    AddCancels(x, y, h);
  }

  /** From any state and on any block the source's table leads somewhere else than the standard's. */
  lemma CompressionDiffers(h: seq<Word>, block: seq<Byte>)
    requires |h| == 8 && |block| == 64
    ensures Compress(K, h, block) != Compress(TABLE, h, block)
  {
    TablesDiffer();
    var start := WorkingOf(h);
    RoundsDiffer(K, TABLE, 52, start, block, 64);
    var v, w := Rounds(K, start, block, 64), Rounds(TABLE, start, block, 64);
    if AddWorking(h, v) == AddWorking(h, w) {
      AddingInjective(h, v, w);
    }
  }

  // ----- the hash

  lemma {:induction false} DigestInjective(h: seq<Word>, g: seq<Word>)
    requires |h| == |g| && DigestBytes(h) == DigestBytes(g)
    ensures h == g
  {
    if h != [] {
      var n := |h| - 1;
      var x, y := DigestBytes(h), DigestBytes(g);
      assert x[..4 * n] == DigestBytes(h[..n]) && x[4 * n..] == BeBytes(h[n]);
      assert y[..4 * n] == DigestBytes(g[..n]) && y[4 * n..] == BeBytes(g[n]);
      DigestInjective(h[..n], g[..n]);
      BytesInjective(h[n], g[n]);
      assert h == h[..n] + [h[n]] && g == g[..n] + [g[n]];
    }
  }

  lemma BytesInjective(x: Word, y: Word)
    requires BeBytes(x) == BeBytes(y)
    ensures x == y
  {
    var s, t := BeBytes(x), BeBytes(y);
    assert s[0] == t[0] && s[1] == t[1] && s[2] == t[2] && s[3] == t[3];
    BytesOfWord(x);
    BytesOfWord(y);
  }

  /** The padded message without its last block. */
  function Front(message: seq<Byte>): (front: seq<Byte>)
    ensures |front| % 64 == 0
  {
    var padded := Pad(message);
    padded[..|padded| - 64]
  }

  /** The source finds the SHA-256 of a message only when, in front of the last block, the two chains of
      hash values have already parted, so that the last block brings them together again. */
  lemma MatchNeedsEarlierDifference(message: seq<Byte>)
    ensures LoaderHash(message) == Sha256Spec.Sha256(message) ==>
              HashBlocks(K, Front(message)) != HashBlocks(TABLE, Front(message))
  {
    var padded := Pad(message);
    if LoaderHash(message) == Sha256Spec.Sha256(message) {
      DigestInjective(HashBlocks(TABLE, padded), HashBlocks(K, padded));
    }
    CompressionDiffers(HashBlocks(K, Front(message)), padded[|padded| - 64..]);
  }

  /** A message below 56 bytes, one block when padded, never gets its SHA-256. */
  lemma ShortMessagesNeverMatch(message: seq<Byte>)
    requires |message| < 56
    ensures LoaderHash(message) != Sha256Spec.Sha256(message)
  {
    assert Front(message) == [];
    MatchNeedsEarlierDifference(message);
  }

  /** Such a message: the empty one. */
  lemma EmptyMessage()
    ensures LoaderHash([]) != Sha256Spec.Sha256([])
  {
    var message := [];
    ShortMessagesNeverMatch(message);
  }
}
