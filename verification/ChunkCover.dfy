/** Lists of half-open intervals: sorting, contiguous tiling, exact cover, and writing to flash. */
module ChunkCover {
  import opened Words

  /** The image offsets [start, end) that a write chunk carries. */
  datatype Chunk = Chunk(start: nat, end: nat) {
    predicate Covers(i: int) { start <= i < end }
  }

  ghost predicate Inside(chunks: seq<Chunk>, from: nat, to: nat) {
    forall c :: c in chunks ==> from <= c.start < c.end <= to
  }

  /** How many chunks write offset i. */
  function Count(chunks: seq<Chunk>, i: int): nat {
    if chunks == [] then 0 else (if chunks[0].Covers(i) then 1 else 0) + Count(chunks[1..], i)
  }

  /** Every offset below len lies in one and only one chunk. */
  ghost predicate ExactCover(chunks: seq<Chunk>, len: nat) {
    forall i :: 0 <= i < len ==> Count(chunks, i) == 1
  }

  /** Each chunk starts where the one before ended, from `from` to `to`. */
  predicate Tiles(chunks: seq<Chunk>, from: nat, to: nat) {
    if chunks == [] then from == to else chunks[0].start == from && Tiles(chunks[1..], chunks[0].end, to)
  }

  // ----- the order does not matter

  lemma {:induction false} CountAppend(a: seq<Chunk>, b: seq<Chunk>, i: int)
    ensures Count(a + b, i) == Count(a, i) + Count(b, i)
  {
    if a == [] {
      assert a + b == b;
    } else {
      assert (a + b)[1..] == a[1..] + b;
      CountAppend(a[1..], b, i);
    }
  }

  lemma CountWithout(chunks: seq<Chunk>, k: nat, i: int)
    requires k < |chunks|
    ensures Count(chunks, i) == (if chunks[k].Covers(i) then 1 else 0) + Count(chunks[..k] + chunks[k + 1..], i)
  {
    assert chunks == chunks[..k] + ([chunks[k]] + chunks[k + 1..]);
    CountAppend(chunks[..k], [chunks[k]] + chunks[k + 1..], i);
    assert ([chunks[k]] + chunks[k + 1..])[1..] == chunks[k + 1..];
    CountAppend(chunks[..k], chunks[k + 1..], i);
  }

  lemma MultisetWithout<T>(s: seq<T>, k: nat)
    requires k < |s|
    ensures multiset(s[..k] + s[k + 1..]) == multiset(s) - multiset{s[k]}
  {
    assert s == s[..k] + [s[k]] + s[k + 1..];
  }

  /** Where the head of one order stands in the other. */
  lemma HeadElsewhere<T>(s: seq<T>, t: seq<T>) returns (k: nat)
    requires multiset(s) == multiset(t) && s != []
    ensures k < |t| && t[k] == s[0] && multiset(s[1..]) == multiset(t[..k] + t[k + 1..])
  {
    TailMultiset(s);
    k := PlaceOf(t, s[0]);
    MultisetWithout(t, k);
  }

  lemma TailMultiset<T>(s: seq<T>)
    requires s != []
    ensures s[0] in multiset(s) && multiset(s[1..]) == multiset(s) - multiset{s[0]}
  {
    assert s == [s[0]] + s[1..];
  }

  lemma PlaceOf<T>(t: seq<T>, c: T) returns (k: nat)
    requires c in multiset(t)
    ensures k < |t| && t[k] == c
  {
    k :| k < |t| && t[k] == c;
  }

  lemma {:induction false} CountPermuted(s: seq<Chunk>, t: seq<Chunk>, i: int)
    requires multiset(s) == multiset(t)
    ensures Count(s, i) == Count(t, i)
  {
    if s == [] {
      assert |multiset(s)| == |s| && |multiset(t)| == |t|;
    } else {
      var k := HeadElsewhere(s, t);
      CountWithout(t, k, i);
      CountPermuted(s[1..], t[..k] + t[k + 1..], i);
    }
  }

  // ----- sorting, as Python orders tuples

  predicate Before(a: Chunk, b: Chunk) { a.start < b.start || (a.start == b.start && a.end <= b.end) }

  ghost predicate Sorted(chunks: seq<Chunk>) {
    forall i, j :: 0 <= i < j < |chunks| ==> Before(chunks[i], chunks[j])
  }

  /** `sorted(covered)`. */
  method SortChunks(covered: seq<Chunk>) returns (sorted: seq<Chunk>)
    ensures Sorted(sorted) && multiset(sorted) == multiset(covered)
  {
    sorted := [];
    for k := 0 to |covered|
      invariant Sorted(sorted) && multiset(sorted) == multiset(covered[..k])
    {
      assert covered[..k + 1] == covered[..k] + [covered[k]];
      sorted := Insert(sorted, covered[k]);
    }
    assert covered[..|covered|] == covered;
  }

  method Insert(sorted: seq<Chunk>, c: Chunk) returns (r: seq<Chunk>)
    requires Sorted(sorted)
    ensures Sorted(r) && multiset(r) == multiset(sorted) + multiset{c}
  {
    var k := 0;
    while k < |sorted| && Before(sorted[k], c)
      invariant k <= |sorted|
      invariant forall j :: 0 <= j < k ==> Before(sorted[j], c)
    {
      k := k + 1;
    }
    r := sorted[..k] + [c] + sorted[k..];
    InsertedSorted(sorted, k, c);
    InsertedMultiset(sorted, k, c);
  }

  lemma InsertedSorted(sorted: seq<Chunk>, k: nat, c: Chunk)
    requires Sorted(sorted) && k <= |sorted|
    requires forall j :: 0 <= j < k ==> Before(sorted[j], c)
    requires k < |sorted| ==> !Before(sorted[k], c)
    ensures Sorted(sorted[..k] + [c] + sorted[k..])
  {
    var r := sorted[..k] + [c] + sorted[k..];
    forall j | k <= j < |sorted|
      ensures Before(c, sorted[j])
    {
      if k < j { assert Before(sorted[k], sorted[j]); }
    }
    forall i, j | 0 <= i < j < |r|
      ensures Before(r[i], r[j])
    {
      var x, y := if i < k then i else i - 1, if j < k then j else j - 1;
      assert i != k ==> r[i] == sorted[x];
      assert j != k ==> r[j] == sorted[y];
    }
  }

  lemma InsertedMultiset<T>(s: seq<T>, k: nat, c: T)
    requires k <= |s|
    ensures multiset(s[..k] + [c] + s[k..]) == multiset(s) + multiset{c}
  {
    assert s == s[..k] + s[k..];
  }

  // ----- tiling is exact cover

  lemma {:induction false} TilesCount(chunks: seq<Chunk>, from: nat, to: nat, i: int)
    requires Tiles(chunks, from, to) && forall c :: c in chunks ==> c.start < c.end
    ensures from <= to && Count(chunks, i) == if from <= i < to then 1 else 0
  {
    if chunks != [] {
      TilesCount(chunks[1..], chunks[0].end, to, i);
    }
  }

  lemma {:induction false} CountFinds(chunks: seq<Chunk>, i: int)
    ensures Count(chunks, i) > 0 <==> exists c :: c in chunks && c.Covers(i)
  {
    if chunks != [] {
      CountFinds(chunks[1..], i);
      assert chunks == [chunks[0]] + chunks[1..];
    }
  }

  /** In sorted order an exact cover of [from, to) is a tiling of it. */
  lemma {:induction false} CoverTiles(chunks: seq<Chunk>, from: nat, to: nat)
    requires Sorted(chunks) && Inside(chunks, from, to) && from <= to
    requires forall i :: from <= i < to ==> Count(chunks, i) == 1
    ensures Tiles(chunks, from, to)
  {
    if chunks == [] {
      assert from < to ==> Count(chunks, from) == 1;
    } else {
      var first, rest := chunks[0], chunks[1..];
      assert Count(chunks, from) == 1 by {
        assert first.start < to;
      }
      CountFinds(chunks, from);
      assert first.start == from;
      RestIsBeyond(chunks, from, to);
      forall i | first.end <= i < to
        ensures Count(rest, i) == 1
      {
        assert Count(chunks, i) == 1;
      }
      CoverTiles(rest, first.end, to);
    }
  }

  /** No later chunk starts inside the first one. */
  lemma RestIsBeyond(chunks: seq<Chunk>, from: nat, to: nat)
    requires chunks != [] && Sorted(chunks) && Inside(chunks, from, to) && chunks[0].start == from
    requires forall i :: from <= i < to ==> Count(chunks, i) == 1
    ensures Inside(chunks[1..], chunks[0].end, to)
  {
    var rest := chunks[1..];
    forall c | c in rest
      ensures chunks[0].end <= c.start < c.end <= to
    {
      assert c in chunks;
      if c.start < chunks[0].end {
        assert Count(chunks, c.start) == 1;
        assert c.Covers(c.start);
        CountFinds(rest, c.start);
      }
    }
  }

  // ----- writing

  function Erased(flash: seq<Byte>, start: nat, end: nat): (r: seq<Byte>)
    requires start <= end <= |flash|
    ensures |r| == |flash|
  {
    seq<Byte>(|flash|, a requires 0 <= a < |flash| => if start <= a < end then 0xFF else flash[a])
  }

  /** Programming NOR flash can only clear bits. */
  function Programmed(before: Byte, data: Byte): Byte {
    AndBound(data, before, 8);
    AndBits(data, before, 8)
  }

  /** Program the bytes from an address on. */
  function Program(flash: seq<Byte>, addr: int, data: seq<Byte>): (r: seq<Byte>)
    ensures |r| == |flash|
  {
    seq<Byte>(|flash|, a requires 0 <= a < |flash| =>
      if addr <= a < addr + |data| then Programmed(flash[a], data[a - addr]) else flash[a])
  }

  /** A chunk's part of the image goes to the chunk's place behind the base. */
  function WriteChunk(flash: seq<Byte>, image: seq<Byte>, base: nat, c: Chunk): (r: seq<Byte>)
    requires c.start <= c.end <= |image|
    ensures |r| == |flash|
  {
    Program(flash, base + c.start, image[c.start..c.end])
  }

  ghost predicate Within(chunks: seq<Chunk>, len: nat) {
    forall c :: c in chunks ==> c.start <= c.end <= len
  }

  function WriteChunks(flash: seq<Byte>, image: seq<Byte>, base: nat, chunks: seq<Chunk>): (r: seq<Byte>)
    requires forall c :: c in chunks ==> c.start <= c.end <= |image|
    ensures |r| == |flash|
    decreases chunks
  {
    if chunks == [] then flash else WriteChunks(WriteChunk(flash, image, base, chunks[0]), image, base, chunks[1..])
  }

  /** A chunk programs the bytes it covers. */
  lemma WriteChunkAt(flash: seq<Byte>, image: seq<Byte>, base: nat, c: Chunk, a: nat)
    requires c.start <= c.end <= |image| && a < |flash|
    ensures WriteChunk(flash, image, base, c)[a] ==
            if c.Covers(a - base) then Programmed(flash[a], image[a - base]) else flash[a]
  {
  }

  lemma FirstWithin(chunks: seq<Chunk>, len: nat)
    requires chunks != [] && Within(chunks, len)
    ensures chunks[0].start <= chunks[0].end <= len && Within(chunks[1..], len)
  {
  }

  /** A byte written by no chunk stays; one written by a single chunk is programmed once. */
  lemma {:induction false} ByteAfterWrites(flash: seq<Byte>, image: seq<Byte>, base: nat, chunks: seq<Chunk>, a: nat)
    requires a < |flash| && Within(chunks, |image|)
    ensures Count(chunks, a - base) == 0 ==> WriteChunks(flash, image, base, chunks)[a] == flash[a]
    ensures Count(chunks, a - base) == 1 ==>
              0 <= a - base < |image| && WriteChunks(flash, image, base, chunks)[a] == Programmed(flash[a], image[a - base])
    decreases chunks
  {
    if chunks != [] {
      FirstWithin(chunks, |image|);
      WriteChunkAt(flash, image, base, chunks[0], a);
      ByteAfterWrites(WriteChunk(flash, image, base, chunks[0]), image, base, chunks[1..], a);
    }
  }

  lemma ProgramErased(data: Byte)
    ensures Programmed(0xFF, data) == data
  {
    assert Pow2(8) == 256;
    MaskKeeps(data, 0xFF, 8, 8);
  }

  /** Erase a range that contains the image, then write an exact cover of it in any order: flash holds the
      image at its base, 0xFF in the rest of the erased range, and everything else as before. */
  lemma AnyOrderWrites(chunks: seq<Chunk>, order: seq<Chunk>, image: seq<Byte>, base: nat, start: nat, end: nat,
                       flash: seq<Byte>, a: nat)
    requires Inside(chunks, 0, |image|) && ExactCover(chunks, |image|) && multiset(order) == multiset(chunks)
    requires start <= base && base + |image| <= end <= |flash| && a < |flash|
    ensures Within(order, |image|)
    ensures WriteChunks(Erased(flash, start, end), image, base, order)[a] ==
            if base <= a < base + |image| then image[a - base] else if start <= a < end then 0xFF else flash[a]
  {
    forall c | c in order
      ensures 0 <= c.start < c.end <= |image|
    {
      assert c in multiset(chunks);
    }
    CountPermuted(order, chunks, a - base);
    ByteAfterWrites(Erased(flash, start, end), image, base, order, a);
    if base <= a < base + |image| {
      ProgramErased(image[a - base]);
    } else {
      CountFinds(order, a - base);
    }
  }
}
