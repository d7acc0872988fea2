/** The streaming SHA-256 of the flash boot loader (chips/ws63/flashboot/src/sha256.rs): a 64-byte
    buffer that is compressed in place whenever it fills. The methods are proved to compute the
    one-shot hash, with the source's round constants, of the concatenation of everything absorbed. */
module Sha256 {
  import opened Sha256Spec
  import opened Words

  const LENGTH_LIMIT: nat := 0x2000_0000_0000_0000 // total_len * 8 is computed in 64 bits

  // The source's table of round constants, row by row. Entry 52, in the seventh row, is not the standard's.
  const TABLE0: seq<Word> := [0x428a2f98, 0x71374491, 0xb5c0fbcf, 0xe9b5dba5, 0x3956c25b, 0x59f111f1, 0x923f82a4, 0xab1c5ed5]
  const TABLE1: seq<Word> := [0xd807aa98, 0x12835b01, 0x243185be, 0x550c7dc3, 0x72be5d74, 0x80deb1fe, 0x9bdc06a7, 0xc19bf174]
  const TABLE2: seq<Word> := [0xe49b69c1, 0xefbe4786, 0x0fc19dc6, 0x240ca1cc, 0x2de92c6f, 0x4a7484aa, 0x5cb0a9dc, 0x76f988da]
  const TABLE3: seq<Word> := [0x983e5152, 0xa831c66d, 0xb00327c8, 0xbf597fc7, 0xc6e00bf3, 0xd5a79147, 0x06ca6351, 0x14292967]
  const TABLE4: seq<Word> := [0x27b70a85, 0x2e1b2138, 0x4d2c6dfc, 0x53380d13, 0x650a7354, 0x766a0abb, 0x81c2c92e, 0x92722c85]
  const TABLE5: seq<Word> := [0xa2bfe8a1, 0xa81a664b, 0xc24b8b70, 0xc76c51a3, 0xd192e819, 0xd6990624, 0xf40e3585, 0x106aa070]
  const TABLE6: seq<Word> := [0x19a4c116, 0x1e376c08, 0x2748774c, 0x34b0bcb5, 0x391c0cd3, 0x4ed8aa4a, 0x5b9cca4f, 0x682e6ff3]
  const TABLE7: seq<Word> := [0x748f82ee, 0x78a5636f, 0x84c87814, 0x8cc70208, 0x90befffa, 0xa4506ceb, 0xbef9a3f7, 0xc67178f2]

  const TABLE: seq<Word> := TABLE0 + TABLE1 + TABLE2 + TABLE3 + TABLE4 + TABLE5 + TABLE6 + TABLE7

  /** The source's initial state. */
  const INITIAL: seq<Word> := [
    0x6a09e667, 0xbb67ae85, 0x3c6ef372, 0xa54ff53a, 0x510e527f, 0x9b05688c, 0x1f83d9ab, 0x5be0cd19
  ]

  /** The one-shot hash that the source computes. */
  function LoaderHash(message: seq<Byte>): (digest: seq<Byte>)
    ensures |digest| == 32
  {
    HashWith(TABLE, message)
  }

  ghost predicate StateHolds(hashed: seq<Byte>, state: seq<Word>) {
    |hashed| % 64 == 0 && state == HashBlocks(TABLE, hashed)
  }

  lemma NextBlock(hashed: seq<Byte>, block: seq<Byte>, state: seq<Word>)
    requires StateHolds(hashed, state) && |block| == 64
    ensures StateHolds(hashed + block, Compress(TABLE, state, block))
  {
    var whole := hashed + block;
    assert whole[..|whole| - 64] == hashed && whole[|whole| - 64..] == block;
  }

  /** Zeros up to eight bytes from the end of a block, and the length: that is the padding. */
  lemma PaddedTo(message: seq<Byte>, front: seq<Byte>, zeros: nat, length: seq<Byte>)
    requires front == message + [0x80] + Zeros(zeros)
    requires |front| % 64 == 56 && zeros < 64
    requires length == BigEndian64(8 * |message|)
    ensures front + length == Pad(message)
  {
    assert zeros == ZeroCount(|message|) by {
      assert |front| == |message| + 1 + zeros;
      ZeroCountIsLeast(|message|, zeros);
    }
  }

  class Sha256Context {
    const state: array<Word>
    const buf: array<Byte>
    var bufLen: nat
    var totalLen: nat
    ghost var absorbed: seq<Byte> // everything passed to Update so far
    ghost var hashed: seq<Byte> // its complete blocks

    ghost predicate Allocated() {
      state.Length == 8 && buf.Length == 64
    }

    /** `state` is the hash of all complete blocks absorbed, `buf` holds the rest. */
    ghost predicate Valid()
      reads this, state, buf
    {
      && Allocated()
      && bufLen < 64
      && totalLen == |absorbed|
      && absorbed == hashed + buf[..bufLen]
      && StateHolds(hashed, state[..])
    }

    constructor ()
      ensures Valid() && absorbed == []
      ensures fresh(state) && fresh(buf)
    {
      state := new Word[8](i requires 0 <= i < 8 => INITIAL[i]);
      buf := new Byte[64](i => 0);
      bufLen := 0;
      totalLen := 0;
      absorbed := [];
      hashed := [];
      new;
      assert state[..] == H;
    }

    method Update(data: seq<Byte>)
      requires Valid() && totalLen + |data| < LENGTH_LIMIT
      modifies this, state, buf
      ensures Valid() && absorbed == old(absorbed) + data
    {
      totalLen := totalLen + |data|;
      var offset := 0;
      while offset < |data|
        invariant offset <= |data| && bufLen < 64
        invariant absorbed == old(absorbed) && totalLen == |absorbed| + |data|
        invariant hashed + buf[..bufLen] == absorbed + data[..offset]
        invariant StateHolds(hashed, state[..])
      {
        var space := 64 - bufLen;
        var copy := if space <= |data| - offset then space else |data| - offset;
        AbsorbPiece(data, offset, offset + copy, absorbed);
        offset := offset + copy;
      }
      assert data[..offset] == data;
      absorbed := absorbed + data;
    }

    /** Bytes that the buffer has room for; a full buffer is hashed. */
    method AbsorbPiece(data: seq<Byte>, from: nat, to: nat, ghost before: seq<Byte>)
      requires Allocated() && from <= to <= |data| && bufLen < 64 && bufLen + (to - from) <= 64
      requires StateHolds(hashed, state[..]) && hashed + buf[..bufLen] == before + data[..from]
      modifies state, buf, `bufLen, `hashed
      ensures bufLen < 64 && StateHolds(hashed, state[..]) && hashed + buf[..bufLen] == before + data[..to]
    {
      CopyIntoBuffer(data[from..to]);
      TakeMore(before, data, from, to);
      assert hashed + buf[..bufLen] == before + data[..from] + data[from..to];
      if bufLen == 64 {
        CompressFull();
      }
    }

    /** Hash a full buffer and empty it. */
    method CompressFull()
      requires Allocated() && bufLen == 64 && StateHolds(hashed, state[..])
      modifies state, `hashed, `bufLen
      ensures bufLen == 0 && StateHolds(hashed, state[..])
      ensures hashed + buf[..bufLen] == old(hashed + buf[..bufLen])
    {
      Compress();
      bufLen := 0;
    }

    method Finish() returns (digest: seq<Byte>)
      requires Valid() && totalLen < LENGTH_LIMIT
      modifies this, state, buf
      ensures digest == LoaderHash(absorbed) && absorbed == old(absorbed)
    {
      var totalBits := totalLen * 8;
      AppendMark();
      assert hashed + buf[..bufLen] == absorbed + [0x80];
      ghost var zeros := PadToLength(absorbed + [0x80]);
      AppendLength(totalBits, absorbed, zeros);
      Compress();
      digest := Serialize();
    }

    method AppendLength(totalBits: nat, ghost message: seq<Byte>, ghost zeros: nat)
      requires Allocated() && |hashed| % 64 == 0
      requires hashed + buf[..56] == message + [0x80] + Zeros(zeros) && zeros < 64
      requires totalBits == 8 * |message|
      modifies buf
      ensures hashed + buf[..] == Pad(message)
    {
      ghost var front := hashed + buf[..56];
      for i := 0 to 8
        invariant buf[..56] == old(buf[..56])
        invariant forall j :: 56 <= j < 56 + i ==> buf[j] == BigEndianByte(totalBits, j - 56)
      {
        buf[56 + i] := totalBits / Pow256(7 - i) % 256;
      }
      ghost var length := BigEndian64(totalBits);
      assert buf[..] == buf[..56] + length;
      assert |front| == |hashed| + 56;
      PaddedTo(message, front, zeros, length);
    }

    /** Zeros up to byte 56, in a further block when the buffer has no room for the length. */
    method PadToLength(ghost marked: seq<Byte>) returns (ghost zeros: nat)
      requires Allocated() && bufLen <= 64
      requires hashed + buf[..bufLen] == marked && StateHolds(hashed, state[..])
      modifies state, buf, `bufLen, `hashed
      ensures hashed + buf[..56] == marked + Zeros(zeros) && StateHolds(hashed, state[..])
      ensures zeros < 64
    {
      zeros := 0;
      if bufLen > 56 {
        zeros := 64 - bufLen;
        Fill(64);
        assert buf[..64] == buf[..];
        Compress();
        bufLen := 0;
        assert hashed == marked + Zeros(zeros);
      }
      assert hashed + buf[..bufLen] == marked + Zeros(zeros);
      ghost var more := 56 - bufLen;
      Fill(56);
      assert Zeros(zeros + more) == Zeros(zeros) + Zeros(more);
      zeros := zeros + more;
    }

    method AppendMark()
      requires Allocated() && bufLen < 64
      modifies buf, `bufLen
      ensures bufLen == old(bufLen) + 1 && buf[..bufLen] == old(buf[..bufLen]) + [0x80]
    {
      buf[bufLen] := 0x80;
      bufLen := bufLen + 1;
    }

    /** Zero the buffer from its fill level up to `end`. */
    method Fill(end: nat)
      requires Allocated() && bufLen <= end <= 64
      modifies buf
      ensures buf[..end] == old(buf[..bufLen]) + Zeros(end - bufLen)
    {
      forall k | bufLen <= k < end {
        buf[k] := 0;
      }
    }

    method Serialize() returns (hash: seq<Byte>)
      requires Allocated()
      ensures hash == DigestBytes(state[..])
    {
      hash := [];
      for i := 0 to 8
        invariant hash == DigestBytes(state[..i])
      {
        assert state[..i + 1] == state[..i] + [state[i]];
        hash := hash + [state[i] / 0x100_0000 % 256, state[i] / 0x1_0000 % 256,
                        state[i] / 0x100 % 256, state[i] % 256];
      }
      assert state[..8] == state[..];
    }

    method CopyIntoBuffer(piece: seq<Byte>)
      requires Allocated() && bufLen + |piece| <= 64
      modifies buf, `bufLen
      ensures bufLen == old(bufLen) + |piece|
      ensures buf[..bufLen] == old(buf[..bufLen]) + piece
    {
      forall k | 0 <= k < |piece| {
        buf[bufLen + k] := piece[k];
      }
      bufLen := bufLen + |piece|;
    }

    /** Hash a full buffer: its block joins the hashed ones. */
    method Compress()
      requires Allocated() && StateHolds(hashed, state[..])
      modifies state, `hashed
      ensures hashed == old(hashed) + buf[..] && StateHolds(hashed, state[..])
    {
      ghost var start, block := state[..], buf[..];
      var w := ExpandSchedule();
      var v := RunRounds(w, block);
      AddToState(v);
      NextBlock(hashed, block, start);
      hashed := hashed + block;
    }

    method AddToState(v: Working)
      requires Allocated()
      modifies state
      ensures state[..] == AddWorking(old(state[..]), v)
    {
      AddInto(0, v.a);
      AddInto(1, v.b);
      AddInto(2, v.c);
      AddInto(3, v.d);
      AddInto(4, v.e);
      AddInto(5, v.f);
      AddInto(6, v.g);
      AddInto(7, v.h);
    }

    method AddInto(i: nat, x: Word)
      requires Allocated() && i < 8
      modifies state
      ensures state[..] == old(state[..])[i := Add(old(state[i]), x)]
    {
      state[i] := Add(state[i], x);
    }

    method ExpandSchedule() returns (w: array<Word>)
      requires Allocated()
      ensures fresh(w) && w.Length == 64 && w[..] == ScheduleWords(buf[..])
    {
      w := new Word[64](i => 0);
      ghost var words := ScheduleWords(buf[..]);
      LoadWords(w, words);
      forall t | 16 <= t < 64
        ensures Recurs(words, t)
      {
        WordRecurs(buf[..], t);
      }
      Extend(w, words);
    }

    method LoadWords(w: array<Word>, ghost words: seq<Word>)
      requires Allocated() && w.Length == 64 && words == ScheduleWords(buf[..])
      modifies w
      ensures w[..16] == words[..16]
    {
      for i := 0 to 16
        invariant forall t :: 0 <= t < i ==> w[t] == words[t]
      {
        w[i] := BeWord(buf[i * 4], buf[i * 4 + 1], buf[i * 4 + 2], buf[i * 4 + 3]);
        assert words[i] == Schedule(buf[..], i);
      }
    }

    method Extend(w: array<Word>, ghost words: seq<Word>)
      requires w.Length == 64 == |words| && w[..16] == words[..16]
      requires forall t :: 16 <= t < 64 ==> Recurs(words, t)
      modifies w
      ensures w[..] == words
    {
      for i := 16 to 64
        invariant forall t :: 0 <= t < i ==> w[t] == words[t]
      {
        assert Recurs(words, i);
        var s0 := Xor(Xor(RotR(w[i - 15], 7), RotR(w[i - 15], 18)), Shr(w[i - 15], 3));
        var s1 := Xor(Xor(RotR(w[i - 2], 17), RotR(w[i - 2], 19)), Shr(w[i - 2], 10));
        w[i] := Add(Add(Add(w[i - 16], s0), w[i - 7]), s1);
      }
    }

    method RunRounds(w: array<Word>, ghost block: seq<Byte>) returns (v: Working)
      requires Allocated() && |block| == 64 && w.Length == 64 && w[..] == ScheduleWords(block)
      ensures v == Rounds(TABLE, WorkingOf(state[..]), block, 64)
    {
      ghost var start := WorkingOf(state[..]);
      var a, b, c, d := state[0], state[1], state[2], state[3];
      var e, f, g, h := state[4], state[5], state[6], state[7];
      for i := 0 to 64
        invariant Working(a, b, c, d, e, f, g, h) == Rounds(TABLE, start, block, i)
      {
        assert w[i] == w[..][i] == Schedule(block, i);
        var s1 := Xor(Xor(RotR(e, 6), RotR(e, 11)), RotR(e, 25));
        var ch := Xor(And(e, f), And(Not(e), g));
        var temp1 := Add(Add(Add(Add(h, s1), ch), TABLE[i]), w[i]);
        var s0 := Xor(Xor(RotR(a, 2), RotR(a, 13)), RotR(a, 22));
        var maj := Xor(Xor(And(a, b), And(a, c)), And(b, c));
        var temp2 := Add(s0, maj);
        RotationIsRound(start, block, i);
        h := g;
        g := f;
        f := e;
        e := Add(d, temp1);
        d := c;
        c := b;
        b := a;
        a := Add(temp1, temp2);
      }
      v := Working(a, b, c, d, e, f, g, h);
    }
  }

  /** One rotation of the registers, with its two temporaries, is one round. */
  lemma RotationIsRound(start: Working, block: seq<Byte>, i: nat)
    requires |block| == 64 && i < 64
    ensures var v := Rounds(TABLE, start, block, i);
            var s1 := Xor(Xor(RotR(v.e, 6), RotR(v.e, 11)), RotR(v.e, 25));
            var ch := Xor(And(v.e, v.f), And(Not(v.e), v.g));
            var temp1 := Add(Add(Add(Add(v.h, s1), ch), TABLE[i]), Schedule(block, i));
            var s0 := Xor(Xor(RotR(v.a, 2), RotR(v.a, 13)), RotR(v.a, 22));
            var maj := Xor(Xor(And(v.a, v.b), And(v.a, v.c)), And(v.b, v.c));
            var temp2 := Add(s0, maj);
            Rounds(TABLE, start, block, i + 1) == Working(Add(temp1, temp2), v.a, v.b, v.c, Add(v.d, temp1), v.e, v.f, v.g)
  {
  }

  lemma TakeMore(front: seq<Byte>, data: seq<Byte>, i: nat, j: nat)
    requires i <= j <= |data|
    ensures front + data[..i] + data[i..j] == front + data[..j]
  {
  }

  function Concat(chunks: seq<seq<Byte>>): seq<Byte> {
    if chunks == [] then [] else Concat(chunks[..|chunks| - 1]) + chunks[|chunks| - 1]
  }

  /** However a message is cut into `update` calls, the digest is that of the whole. */
  method HashChunks(chunks: seq<seq<Byte>>) returns (digest: seq<Byte>)
    requires |Concat(chunks)| < LENGTH_LIMIT
    ensures digest == LoaderHash(Concat(chunks))
  {
    var sha := new Sha256Context();
    for i := 0 to |chunks|
      invariant fresh(sha) && fresh(sha.state) && fresh(sha.buf) && sha.Valid()
      invariant sha.absorbed == Concat(chunks[..i])
    {
      ConcatPrefix(chunks, i + 1);
      assert chunks[..i + 1][..i] == chunks[..i];
      sha.Update(chunks[i]);
    }
    assert chunks[..|chunks|] == chunks;
    digest := sha.Finish();
  }

  lemma {:induction false} ConcatPrefix(chunks: seq<seq<Byte>>, i: nat)
    requires i <= |chunks|
    ensures |Concat(chunks[..i])| <= |Concat(chunks)|
    decreases |chunks|
  {
    if i < |chunks| {
      var front := chunks[..|chunks| - 1];
      ConcatPrefix(front, i);
      assert front[..i] == chunks[..i];
    } else {
      assert chunks[..i] == chunks;
    }
  }

  ghost function ScheduleWords(block: seq<Byte>): (words: seq<Word>)
    requires |block| == 64
    ensures |words| == 64
  {
    seq(64, t requires 0 <= t < 64 => Schedule(block, t))
  }

  /** Word t of the schedule from earlier ones, its four terms added in the order of the code. */
  ghost predicate Recurs(words: seq<Word>, t: nat)
    requires 16 <= t < |words|
  {
    words[t] == Add(Add(Add(words[t - 16], SmallSigma0(words[t - 15])), words[t - 7]),
                    SmallSigma1(words[t - 2]))
  }

  lemma WordRecurs(block: seq<Byte>, t: nat)
    requires |block| == 64 && 16 <= t < 64
    ensures Recurs(ScheduleWords(block), t)
  {
    var words := ScheduleWords(block);
    SumOrder(words[t - 16], SmallSigma0(words[t - 15]), words[t - 7], SmallSigma1(words[t - 2]));
  }

  lemma SumOrder(a: Word, b: Word, c: Word, d: Word)
    ensures Add(Add(Add(a, b), c), d) == Add(Add(Add(d, c), b), a)
  {
    SumOfFour(a, b, c, d);
    SumOfFour(d, c, b, a);
  }
}
