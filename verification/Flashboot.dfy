/** The boot decision of the flash boot loader (chips/ws63/flashboot/src/main.rs and image.rs):
    read the header, check its fields, hash the body in 256-byte chunks, jump or refuse. */
module Flashboot {
  import opened Words
  import opened Sfc
  import Sha256Spec
  import Sha256
  import Sha256Difference
  import opened Wrappers

  const IMAGE_HEADER_LEN: nat := 0x300
  const MAX_IMAGE: nat := 8 * 1024 * 1024

  // ----- the image header

  /** The header as the words read from flash; `CodeInfo` starts at byte 0x100. */
  datatype ImageHeader = ImageHeader(words: seq<Word>) {
    ghost predicate Valid() { |words| == 192 }

    function Field(offset: nat): Word
      requires Valid() && offset < 0x200
    {
      words[(0x100 + offset) / 4]
    }

    function ImageId(): Word requires Valid() { Field(0x00) }
    function StructureVersion(): Word requires Valid() { Field(0x04) }
    function StructureLength(): Word requires Valid() { Field(0x08) }
    function SignatureLength(): Word requires Valid() { Field(0x0C) }
    function CodeAreaLen(): Word requires Valid() { Field(0x24) }

    /** `code_area_hash`, a byte array laid over the words at 0x28. */
    function CodeAreaHash(): (hash: seq<Byte>)
      requires Valid()
      ensures |hash| == 32
    {
      seq<Byte>(32, i requires 0 <= i < 32 => Field(0x28 + i) / Pow256(i % 4) % 256)
    }
  }

  predicate Validate(header: ImageHeader)
    requires header.Valid()
  {
    && header.ImageId() != 0
    && header.ImageId() != 0xFFFF_FFFF
    && header.StructureVersion() == 0x0001_0000
    && (header.StructureLength() == 0x200 || header.StructureLength() == 0x400)
    && header.SignatureLength() > 0
    && header.SignatureLength() <= 512
    && header.CodeAreaLen() > 0
    && header.CodeAreaLen() < MAX_IMAGE
  }

  // ----- what the loader promises, said of the flash contents alone

  /** The little-endian 32-bit field at an absolute flash address. */
  function FlashField(flash: seq<Byte>, address: nat): Word {
    ByteAt(flash, address) + 0x100 * ByteAt(flash, address + 1)
    + 0x1_0000 * ByteAt(flash, address + 2) + 0x100_0000 * ByteAt(flash, address + 3)
  }

  ghost predicate HasSaneFields(flash: seq<Byte>, base: nat) {
    && FlashField(flash, base + 0x100) !in {0, 0xFFFF_FFFF}
    && FlashField(flash, base + 0x104) == 0x0001_0000
    && FlashField(flash, base + 0x108) in {0x200, 0x400}
    && 0 < FlashField(flash, base + 0x10C) <= 512
    && 0 < FlashField(flash, base + 0x124) < 0x80_0000
  }

  /** The image's body, as long as the header says. */
  function Body(flash: seq<Byte>, base: nat): seq<Byte> {
    Region(flash, base + 0x300, FlashField(flash, base + 0x124))
  }

  function HeaderDigest(flash: seq<Byte>, base: nat): seq<Byte> { Region(flash, base + 0x128, 32) }

  /** Sane header fields, and a body whose hash by the source's table is the header's digest. */
  ghost predicate Bootable(flash: seq<Byte>, base: nat) {
    HasSaneFields(flash, base) && Sha256.LoaderHash(Body(flash, base)) == HeaderDigest(flash, base)
  }

  /** Sane header fields, and the header's digest is the SHA-256 of the body. */
  ghost predicate Genuine(flash: seq<Byte>, base: nat) {
    HasSaneFields(flash, base) && Sha256Spec.Sha256(Body(flash, base)) == HeaderDigest(flash, base)
  }

  /** A genuine image is booted only if, in front of the last block of its body, the hash chains by the
      source's table and by the standard's have parted; with a body below 56 bytes it is refused. */
  lemma GenuineImageBooted(flash: seq<Byte>, base: nat)
    ensures Genuine(flash, base) && Bootable(flash, base) ==>
              var front := Sha256Difference.Front(Body(flash, base));
              && |Body(flash, base)| >= 56
              && Sha256Spec.HashBlocks(Sha256Spec.K, front) != Sha256Spec.HashBlocks(Sha256.TABLE, front)
  {
    var body := Body(flash, base);
    Sha256Difference.MatchNeedsEarlierDifference(body);
    if |body| < 56 {
      Sha256Difference.ShortMessagesNeverMatch(body);
    }
  }

  // ----- the loader

  method VerifyImageIntegrity(sfc: Controller, imgBody: nat, imgLen: nat, expected: seq<Byte>) returns (ok: bool)
    requires sfc.Valid()
    requires imgLen <= MAX_IMAGE ==> imgBody + imgLen <= ADDRESS_LIMIT
    modifies sfc, sfc.databuf
    ensures ok <==> 0 < imgLen <= 0x80_0000 && Sha256.LoaderHash(Region(sfc.flash, imgBody, imgLen)) == expected
  {
    if imgLen == 0 || imgLen > MAX_IMAGE {
      return false;
    }
    var sha := HashBody(sfc, imgBody, imgLen);
    var hash := sha.Finish();
    return hash == expected;
  }

  /** The loop: the whole body is absorbed. */
  method HashBody(sfc: Controller, imgBody: nat, imgLen: nat) returns (sha: Sha256.Sha256Context)
    requires sfc.Valid() && imgLen <= MAX_IMAGE && imgBody + imgLen <= ADDRESS_LIMIT
    modifies sfc, sfc.databuf
    ensures fresh(sha) && fresh(sha.state) && fresh(sha.buf) && sha.Valid()
    ensures sha.absorbed == Region(sfc.flash, imgBody, imgLen)
  {
    sha := new Sha256.Sha256Context();
    var offset := 0;
    var buf := new Byte[256](i => 0);
    while offset < imgLen
      invariant offset <= imgLen
      invariant fresh(sha) && fresh(sha.state) && fresh(sha.buf) && sha.Valid()
      invariant sha.absorbed == Region(sfc.flash, imgBody, offset)
    {
      var chunk := if imgLen - offset < 256 then imgLen - offset else 256;
      HashChunk(sfc, sha, buf, imgBody + offset, chunk);
      RegionExtends(sfc.flash, imgBody, offset, chunk);
      offset := offset + chunk;
    }
  }

  /** Read a chunk of the flash and hash it. */
  method HashChunk(sfc: Controller, sha: Sha256.Sha256Context, buf: array<Byte>, from: nat, chunk: nat)
    requires sfc.Valid() && sha.Valid() && chunk <= buf.Length && from + chunk <= ADDRESS_LIMIT
    requires buf != sha.buf && sha.totalLen + chunk < Sha256.LENGTH_LIMIT
    modifies sfc, sfc.databuf, buf, sha, sha.state, sha.buf
    ensures sha.Valid() && sha.absorbed == old(sha.absorbed) + Region(sfc.flash, from, chunk)
  {
    sfc.ReadBytes(from, buf, chunk);
    assert buf[..chunk] == Region(sfc.flash, from, chunk);
    sha.Update(buf[..chunk]);
  }

  method ReadImageHeader(sfc: Controller, flashAddr: nat) returns (header: ImageHeader)
    requires sfc.Valid() && flashAddr + IMAGE_HEADER_LEN <= ADDRESS_LIMIT
    modifies sfc, sfc.databuf
    ensures header == ImageHeader(WordsAt(sfc.flash, flashAddr, 192))
  {
    var words := new Word[192](i => 0);
    sfc.ReadData(flashAddr, words, 192);
    header := ImageHeader(words[..]);
  }

  /** The address jumped to, or None when the loader refuses the image. */
  method TryBoot(sfc: Controller, base: nat) returns (entry: Option<nat>)
    requires sfc.Valid() && base + IMAGE_HEADER_LEN <= ADDRESS_LIMIT
    requires var len := FlashField(sfc.flash, base + 0x124);
             len < MAX_IMAGE ==> base + IMAGE_HEADER_LEN + len <= ADDRESS_LIMIT
    modifies sfc, sfc.databuf
    ensures entry == if Bootable(sfc.flash, base) then Some(base + 0x300) else None
  {
    var header := ReadImageHeader(sfc, base);
    HeaderFields(sfc.flash, base, header);
    HeaderHash(sfc.flash, base, header);
    if !Validate(header) {
      return None;
    }
    var imgBody := base + IMAGE_HEADER_LEN;
    var ok := VerifyImageIntegrity(sfc, imgBody, header.CodeAreaLen(), header.CodeAreaHash());
    if !ok {
      return None;
    }
    return Some(imgBody);
  }

  /** A header field is the little-endian number at its place in flash. */
  lemma HeaderFields(flash: seq<Byte>, base: nat, header: ImageHeader)
    requires header == ImageHeader(WordsAt(flash, base, 192))
    ensures header.ImageId() == FlashField(flash, base + 0x100)
    ensures header.StructureVersion() == FlashField(flash, base + 0x104)
    ensures header.StructureLength() == FlashField(flash, base + 0x108)
    ensures header.SignatureLength() == FlashField(flash, base + 0x10C)
    ensures header.CodeAreaLen() == FlashField(flash, base + 0x124)
  {
    WordIsField(flash, base, 0x100);
    WordIsField(flash, base, 0x104);
    WordIsField(flash, base, 0x108);
    WordIsField(flash, base, 0x10C);
    WordIsField(flash, base, 0x124);
  }

  lemma WordIsField(flash: seq<Byte>, base: nat, offset: nat)
    requires offset % 4 == 0 && offset < 0x300
    ensures WordsAt(flash, base, 192)[offset / 4] == FlashField(flash, base + offset)
  {
    assert 4 * (offset / 4) == offset;
  }

  lemma HeaderHash(flash: seq<Byte>, base: nat, header: ImageHeader)
    requires header == ImageHeader(WordsAt(flash, base, 192))
    ensures header.CodeAreaHash() == Region(flash, base + 0x128, 32)
  {
    var hash := header.CodeAreaHash();
    forall i | 0 <= i < 32
      ensures hash[i] == ByteAt(flash, base + 0x128 + i)
    {
      WordByte(flash, base, 0x128 + i);
      assert (0x128 + i) % 4 == i % 4;
    }
  }
}
