/** Reading NOR flash through the SPI flash controller of the WS63
    (chips/ws63/flashboot/src/sfc.rs): commands of at most 64 bytes through a buffer of 16 words. */
module Sfc {
  import opened Words

  const MAX_WORDS_PER_CMD: nat := 16
  const READ_QUAD: Word := 0xEB
  const ADDRESS_LIMIT: nat := WORD_LIMIT

  // ----- the flash device

  /** Beyond its last byte the device reads as erased. */
  function ByteAt(flash: seq<Byte>, address: nat): Byte {
    if address < |flash| then flash[address] else 0xFF
  }

  function WordAt(flash: seq<Byte>, address: nat): Word {
    LeWord(ByteAt(flash, address), ByteAt(flash, address + 1), ByteAt(flash, address + 2), ByteAt(flash, address + 3))
  }

  function Region(flash: seq<Byte>, start: nat, len: nat): (r: seq<Byte>)
    ensures |r| == len
  {
    seq<Byte>(len, i requires 0 <= i < len => ByteAt(flash, start + i))
  }

  /** Inside the device a region is a slice of it. */
  lemma RegionIsSlice(flash: seq<Byte>, start: nat, len: nat)
    requires start + len <= |flash|
    ensures Region(flash, start, len) == flash[start..start + len]
  {
    forall i | 0 <= i < len
      ensures Region(flash, start, len)[i] == flash[start..start + len][i]
    {
      assert ByteAt(flash, start + i) == flash[start + i];
    }
  }

  lemma RegionExtends(flash: seq<Byte>, start: nat, len: nat, more: nat)
    ensures Region(flash, start, len + more) == Region(flash, start, len) + Region(flash, start + len, more)
  {
  }

  /** The same bytes as little-endian words. */
  function WordsAt(flash: seq<Byte>, start: nat, count: nat): (r: seq<Word>)
    ensures |r| == count
  {
    seq<Word>(count, i requires 0 <= i < count => WordAt(flash, start + 4 * i))
  }

  lemma WordsExtend(flash: seq<Byte>, start: nat, count: nat, more: nat)
    ensures WordsAt(flash, start, count + more) == WordsAt(flash, start, count) + WordsAt(flash, start + 4 * count, more)
  {
    var whole, tail := WordsAt(flash, start, count + more), WordsAt(flash, start + 4 * count, more);
    forall i | count <= i < count + more
      ensures whole[i] == tail[i - count]
    {
      assert start + 4 * i == start + 4 * count + 4 * (i - count);
    }
  }

  // ----- the command register: start, addr_en, data_en and rw in bits 0, 2, 7 and 8, data_len - 1 in bits 9 to 14

  const READ_COMMAND: Word := 0x185

  lemma PowersUsed()
    ensures Pow2(6) == 64 && Pow2(9) == 0x200 && Pow2(23) == 0x80_0000
  {
    assert Pow2(8) == 0x100;
    assert Pow2(16) == 0x1_0000;
  }

  /** The data_len field: data_len - 1, masked to six bits. */
  function LengthField(dataLen: nat): (field: nat)
    requires 1 <= dataLen <= 64
    ensures field == dataLen - 1
  {
    PowersUsed();
    MaskKeeps(dataLen - 1, 0x3F, 6, 32);
    And(dataLen - 1, 0x3F)
  }

  /** The register value of a read of `dataLen` bytes; the fields read back. */
  function CommandConfig(dataLen: nat): (config: Word)
    requires 1 <= dataLen <= 64
    ensures IsReadCommand(config) && DecodedLength(config) == dataLen
    ensures config == 0x1 + 0x4 + 0x80 + 0x100 + 0x200 * (dataLen - 1)
  {
    PowersUsed();
    FieldReadsBack(dataLen, 9, 32);
    Or(READ_COMMAND, LengthField(dataLen) * 0x200)
  }

  predicate IsReadCommand(config: Word) { config % 0x200 == READ_COMMAND }

  function DecodedLength(config: Word): nat { config / 0x200 % 64 + 1 }

  lemma FieldReadsBack(dataLen: nat, j: nat, n: nat)
    requires 1 <= dataLen <= 64 && j <= n && Pow2(j) == 0x200 && Pow2(n - j) == 0x80_0000
    ensures var config := OrBits(READ_COMMAND, (dataLen - 1) * 0x200, n);
            && config % 0x200 == READ_COMMAND && config / 0x200 % 64 == dataLen - 1
            && config == READ_COMMAND + (dataLen - 1) * 0x200
  {
    OrFieldReadsBack(READ_COMMAND, dataLen - 1, 0x200, j, n);
    OrIsSum(READ_COMMAND, dataLen - 1, j, n - j);
  }

  /** The controller's registers, and what the hardware does when a command starts. */
  class Controller {
    const flash: seq<Byte>
    const databuf: array<Word>
    var instruction: Word
    var address: Word

    ghost predicate Valid() {
      databuf.Length == MAX_WORDS_PER_CMD
    }

    constructor (flash: seq<Byte>)
      ensures Valid() && this.flash == flash && fresh(databuf)
    {
      this.flash := flash;
      databuf := new Word[MAX_WORDS_PER_CMD](i => 0);
      instruction, address := 0, 0;
    }

    /** Hardware: a started read command fills the data buffer, low byte first. */
    method WriteConfig(config: Word)
      requires Valid()
      modifies databuf
      ensures instruction == READ_QUAD && IsReadCommand(config) ==>
                var count := DecodedLength(config) / 4;
                databuf[..count] == WordsAt(flash, address, count)
    {
      if instruction == READ_QUAD && IsReadCommand(config) {
        forall i | 0 <= i < DecodedLength(config) / 4 {
          databuf[i] := WordAt(flash, address + 4 * i);
        }
      }
    }

    /** Read `words` words into `dst`, by commands of at most 16 words. */
    method ReadData(from: nat, dst: array<Word>, words: nat)
      requires Valid() && dst != databuf && words <= dst.Length
      requires words > 0 ==> from + 4 * (words - 1) < ADDRESS_LIMIT
      modifies this, databuf, dst
      ensures dst[..] == WordsAt(flash, from, words) + old(dst[words..])
    {
      var offsetWords := 0;
      while offsetWords < words
        invariant offsetWords <= words
        invariant dst[..offsetWords] == WordsAt(flash, from, offsetWords)
        invariant dst[words..] == old(dst[words..])
      {
        var chunkWords := if words - offsetWords < MAX_WORDS_PER_CMD then words - offsetWords else MAX_WORDS_PER_CMD;
        var chunkAddr := from + offsetWords * 4;
        RunCommand(chunkAddr, chunkWords);
        CopyChunk(dst, offsetWords, chunkWords, words);
        WordsExtend(flash, from, offsetWords, chunkWords);
        offsetWords := offsetWords + chunkWords;
      }
      assert dst[..] == dst[..words] + dst[words..];
    }

    method RunCommand(chunkAddr: Word, chunkWords: nat)
      requires Valid() && 1 <= chunkWords <= MAX_WORDS_PER_CMD
      modifies this, databuf
      ensures databuf[..chunkWords] == WordsAt(flash, chunkAddr, chunkWords)
    {
      instruction := READ_QUAD;
      address := chunkAddr;
      var dataLen := chunkWords * 4;
      var config := CommandConfig(dataLen);
      WriteConfig(config);
    }

    method CopyChunk(dst: array<Word>, offsetWords: nat, chunkWords: nat, ghost words: nat)
      requires Valid() && dst != databuf && chunkWords <= 16 && offsetWords + chunkWords <= words <= dst.Length
      modifies dst
      ensures dst[..offsetWords + chunkWords] == old(dst[..offsetWords]) + databuf[..chunkWords]
      ensures dst[words..] == old(dst[words..])
    {
      for i := 0 to chunkWords
        invariant dst[..offsetWords + i] == old(dst[..offsetWords]) + databuf[..i]
        invariant dst[words..] == old(dst[words..])
      {
        dst[offsetWords + i] := databuf[i];
      }
    }

    /** Read the bytes [from, from + len) into the front of `buf`. */
    method ReadBytes(from: nat, buf: array<Byte>, len: nat)
      requires Valid() && len <= buf.Length
      requires from + len <= ADDRESS_LIMIT
      modifies this, databuf, buf
      ensures buf[..] == Region(flash, from, len) + old(buf[len..])
    {
      var offset := 0;
      while offset < len
        invariant offset <= len
        invariant buf[..offset] == Region(flash, from, offset)
        invariant buf[len..] == old(buf[len..])
      {
        var chunk := if len - offset < 64 then len - offset else 64;
        var tmp := new Word[16](i => 0);
        var words := (chunk + 3) / 4;
        ReadData(from + offset, tmp, words);
        Unpack(from + offset, tmp, words, buf, offset, chunk, len);
        RegionExtends(flash, from, offset, chunk);
        offset := offset + chunk;
      }
      assert buf[..] == buf[..len] + buf[len..];
    }

    method Unpack(ghost from: nat, tmp: array<Word>, ghost words: nat, buf: array<Byte>, offset: nat, chunk: nat,
                  ghost len: nat)
      requires words <= tmp.Length && chunk <= 4 * words && offset + chunk <= len <= buf.Length
      requires forall k :: 0 <= k < words ==> tmp[k] == WordsAt(flash, from, words)[k]
      modifies buf
      ensures buf[..offset + chunk] == old(buf[..offset]) + Region(flash, from, chunk)
      ensures buf[len..] == old(buf[len..])
    {
      for i := 0 to chunk
        invariant buf[..offset + i] == old(buf[..offset]) + Region(flash, from, i)
        invariant buf[len..] == old(buf[len..])
      {
        assert tmp[i / 4] == WordsAt(flash, from, words)[i / 4];
        WordByte(flash, from, i);
        buf[offset + i] := tmp[i / 4] / Pow256(i % 4) % 256;
        assert Region(flash, from, i + 1) == Region(flash, from, i) + [ByteAt(flash, from + i)];
      }
    }
  }

  /** Byte i of a region is byte i mod 4 of its word i div 4. */
  lemma WordByte(flash: seq<Byte>, start: nat, i: nat)
    ensures WordAt(flash, start + 4 * (i / 4)) / Pow256(i % 4) % 256 == ByteAt(flash, start + i)
  {
    var a := start + 4 * (i / 4);
    assert a + i % 4 == start + i;
    LeWordByte(ByteAt(flash, a), ByteAt(flash, a + 1), ByteAt(flash, a + 2), ByteAt(flash, a + 3), i % 4);
  }
}
