/** The flash plan check (scripts/check-flash-plan.py): a plan is accepted when its fields agree with
    the image and its write chunks cover the image exactly once. What acceptance buys is proved too:
    erasing and then writing the chunks, in any order, leaves the image in flash. */
module FlashPlan {
  import opened ChunkCover
  import opened Json
  import opened Words
  import Sha256Spec
  import opened Wrappers

  /** The required entries of a plan. */
  datatype Plan = Plan(baseAddr: Value, imageLen: Value, bodyRange: Value, codeAreaLen: Value, codeAreaHash: Value,
                       eraseRange: Value, writeChunks: Value)

  /** Each entry is the value at its key. */
  ghost predicate IsPlan(plan: map<string, Value>, entries: Plan) {
    && At(plan, "base_addr", entries.baseAddr) && At(plan, "image_len", entries.imageLen)
    && At(plan, "body_range", entries.bodyRange) && At(plan, "code_area_len", entries.codeAreaLen)
    && At(plan, "code_area_hash", entries.codeAreaHash) && At(plan, "erase_range", entries.eraseRange)
    && At(plan, "write_chunks", entries.writeChunks)
  }

  predicate At(plan: map<string, Value>, key: string, value: Value) { key in plan && plan[key] == value }

  /** None when one of the required keys is missing. */
  function Entries(plan: map<string, Value>): (r: Option<Plan>)
    ensures r.Some? <==> {"base_addr", "image_len", "body_range", "code_area_len", "code_area_hash", "erase_range",
                          "write_chunks"} <= plan.Keys
    ensures r.Some? ==> IsPlan(plan, r.value)
  {
    if {"base_addr", "image_len", "body_range", "code_area_len", "code_area_hash", "erase_range",
        "write_chunks"} <= plan.Keys
    then Some(Plan(plan["base_addr"], plan["image_len"], plan["body_range"], plan["code_area_len"],
                   plan["code_area_hash"], plan["erase_range"], plan["write_chunks"]))
    else None
  }

  // ----- the check

  datatype Range = Range(start: int, len: int)

  const BODY_RANGE := "body_range"
  const ERASE_RANGE := "erase_range"

  function StartKey(name: string): string { if name == BODY_RANGE then "image_offset" else "start" }

  function IntField(value: Value, key: string): Option<int> {
    if value.Object? && key in value.fields then AsInt(value.fields[key]) else None
  }

  /** An object with integers at the key, not negative, and at "len", positive. */
  predicate HasRange(value: Value, startKey: string) {
    && IntField(value, startKey).Some? && IntField(value, startKey).value >= 0
    && IntField(value, "len").Some? && IntField(value, "len").value > 0
  }

  function RangeOf(value: Value, startKey: string): Range
    requires HasRange(value, startKey)
  {
    Range(IntField(value, startKey).value, IntField(value, "len").value)
  }

  function RequireRange(value: Value, name: string): (r: Result<Range>)
    ensures var key := if name == BODY_RANGE then "image_offset" else "start";
            && (r.Ok? <==> HasRange(value, key))
            && (r.Ok? ==> r.value == RangeOf(value, key))
  {
    if !value.Object? then Err("must be an object")
    else
      var start, length := AsInt(Get(value.fields, StartKey(name))), AsInt(Get(value.fields, "len"));
      if start.None? || length.None? then Err("must contain integers")
      else if start.value < 0 || length.value <= 0 then Err("must be non-negative and non-empty")
      else Ok(Range(start.value, length.value))
  }

  // ----- one entry of write_chunks

  function AddrOf(value: Value): Option<int> { IntField(value, "addr") }

  function OffsetOf(value: Value): Option<int> { IntField(value, "image_offset") }

  function LengthOf(value: Value): Option<int> { IntField(value, "len") }

  /** Three integers that name a nonempty part of an image. */
  predicate NamesPart(value: Value, imageLen: nat) {
    && AddrOf(value).Some? && OffsetOf(value).Some? && LengthOf(value).Some?
    && OffsetOf(value).value >= 0 && LengthOf(value).value > 0
    && OffsetOf(value).value + LengthOf(value).value <= imageLen
  }

  /** Its address is the part's place behind the base, inside the erase range. */
  predicate ChunkOk(value: Value, imageLen: nat, baseAddr: int, eraseStart: int, eraseEnd: int) {
    && NamesPart(value, imageLen)
    && AddrOf(value).value == baseAddr + OffsetOf(value).value
    && eraseStart <= AddrOf(value).value && AddrOf(value).value + LengthOf(value).value <= eraseEnd
  }

  /** The part of the image. */
  function PartOf(value: Value, imageLen: nat): (c: Chunk)
    requires NamesPart(value, imageLen)
    ensures c.start < c.end <= imageLen
  {
    Chunk(OffsetOf(value).value, OffsetOf(value).value + LengthOf(value).value)
  }

  /** The checks on one chunk. */
  function RequireChunk(value: Value, imageLen: nat, baseAddr: int, eraseStart: int, eraseEnd: int): (r: Result<Chunk>)
    ensures r.Ok? <==> ChunkOk(value, imageLen, baseAddr, eraseStart, eraseEnd)
    ensures r.Ok? ==> r.value == PartOf(value, imageLen)
  {
    if !value.Object? then Err("must be an object")
    else
      var addr, offset, length :=
        AsInt(Get(value.fields, "addr")), AsInt(Get(value.fields, "image_offset")), AsInt(Get(value.fields, "len"));
      if addr.None? || offset.None? || length.None? then Err("fields must be integers")
      else if offset.value < 0 || length.value <= 0 || offset.value + length.value > imageLen then
        Err("extends beyond the image")
      else if addr.value != baseAddr + offset.value then Err("address does not match image offset")
      else if addr.value < eraseStart || addr.value + length.value > eraseEnd then Err("extends beyond erase_range")
      else Ok(Chunk(offset.value, offset.value + length.value))
  }

  ghost predicate AllNameParts(values: seq<Value>, imageLen: nat) {
    forall v :: v in values ==> NamesPart(v, imageLen)
  }

  /** Every listed chunk is as it should be. */
  ghost predicate ChunksOk(values: seq<Value>, imageLen: nat, baseAddr: int, eraseStart: int, eraseEnd: int) {
    forall v :: v in values ==> ChunkOk(v, imageLen, baseAddr, eraseStart, eraseEnd)
  }

  ghost function PartsOf(values: seq<Value>, imageLen: nat): (c: seq<Chunk>)
    requires AllNameParts(values, imageLen)
    ensures |c| == |values|
    ensures Inside(c, 0, imageLen)
  {
    seq(|values|, k requires 0 <= k < |values| => PartOf(values[k], imageLen))
  }

  predicate IsByteList(value: Value) {
    && value.List?
    && |value.items| == 32
    && forall item :: item in value.items ==> AsInt(item).Some? && 0 <= AsInt(item).value <= 255
  }

  function BytesOf(value: Value): (s: seq<Byte>)
    requires IsByteList(value)
    ensures |s| == 32
  {
    seq<Byte>(32, i requires 0 <= i < 32 => AsInt(value.items[i]).value)
  }

  /** The base address is the expected one. */
  ghost predicate BaseOk(plan: Plan, expectedBase: Option<int>) {
    && AsInt(plan.baseAddr).Some?
    && AsInt(plan.baseAddr).value >= 0
    && (expectedBase.Some? ==> AsInt(plan.baseAddr) == expectedBase)
  }

  /** A list of exactly these numbers. */
  ghost predicate Lists(value: Value, bytes: seq<Byte>) {
    && value.List?
    && |value.items| == |bytes|
    && forall i :: 0 <= i < |bytes| ==> AsInt(value.items[i]) == Some(bytes[i] as int)
  }

  lemma BytesExact(value: Value, digest: seq<Byte>)
    requires |digest| == 32
    ensures IsByteList(value) && BytesOf(value) == digest <==> Lists(value, digest)
  {
    if Lists(value, digest) {
      assert IsByteList(value) by {
        forall item | item in value.items
          ensures AsInt(item).Some? && 0 <= AsInt(item).value <= 255
        {
          var i :| 0 <= i < 32 && value.items[i] == item;
          assert AsInt(value.items[i]) == Some(digest[i] as int);
        }
      }
    }
    if IsByteList(value) && BytesOf(value) == digest {
      forall i | 0 <= i < 32
        ensures AsInt(value.items[i]) == Some(digest[i] as int)
      {
        assert value.items[i] in value.items && BytesOf(value)[i] == digest[i];
      }
    }
  }

  /** Length, body range, body address and body hash agree with the image. */
  ghost predicate BodyOk(plan: Plan, image: seq<Byte>, base: nat) {
    && EqualsInt(plan.imageLen, |image|)
    && HasRange(plan.bodyRange, "image_offset")
    && var body := RangeOf(plan.bodyRange, "image_offset");
    && body.start + body.len <= |image|
    && "flash_addr" in plan.bodyRange.fields
    && EqualsInt(plan.bodyRange.fields["flash_addr"], base + body.start)
    && EqualsInt(plan.codeAreaLen, body.len)
    && Lists(plan.codeAreaHash, Sha256Spec.Sha256(image[body.start..body.start + body.len]))
  }

  /** The erase range contains the whole image. */
  ghost predicate EraseOk(plan: Plan, image: seq<Byte>, base: nat) {
    && HasRange(plan.eraseRange, "start")
    && var erase := RangeOf(plan.eraseRange, "start");
    && erase.start <= base
    && base + |image| <= erase.start + erase.len
  }

  ghost predicate ListOk(plan: Plan, image: seq<Byte>, base: nat, erase: Range) {
    && plan.writeChunks.List?
    && plan.writeChunks.items != []
    && ChunksOk(plan.writeChunks.items, |image|, base, erase.start, erase.start + erase.len)
  }

  /** A plan is good when its fields agree with the image and its chunks cover each image byte once. */
  ghost predicate GoodPlan(plan: Plan, image: seq<Byte>, expectedBase: Option<int>) {
    && BaseOk(plan, expectedBase)
    && var base := AsInt(plan.baseAddr).value;
    && BodyOk(plan, image, base)
    && EraseOk(plan, image, base)
    && var erase := RangeOf(plan.eraseRange, "start");
    && ListOk(plan, image, base, erase)
    && ExactCover(PartsOf(plan.writeChunks.items, |image|), |image|)
  }

  /** `validate_flash_plan`: accepts exactly the good plans. */
  method ValidateFlashPlan(plan: map<string, Value>, image: seq<Byte>, expectedBase: Option<int>) returns (r: Result<()>)
    ensures r.Ok? <==> exists entries :: IsPlan(plan, entries) && GoodPlan(entries, image, expectedBase)
  {
    var entries := Entries(plan);
    if entries.None? {
      return Err("missing plan keys");
    }
    r := ValidateEntries(entries.value, image, expectedBase);
  }

  method ValidateEntries(plan: Plan, image: seq<Byte>, expectedBase: Option<int>) returns (r: Result<()>)
    ensures r.Ok? <==> GoodPlan(plan, image, expectedBase)
  {
    var baseAddr := AsInt(plan.baseAddr);
    if baseAddr.None? || baseAddr.value < 0 {
      return Err("base_addr must be a non-negative integer");
    }
    if expectedBase.Some? && baseAddr.value != expectedBase.value {
      return Err("unexpected base_addr");
    }
    r := CheckBody(plan, image, baseAddr.value);
    if r.Err? {
      return;
    }
    var erase := CheckErase(plan, image, baseAddr.value);
    if erase.Err? {
      return Err(erase.message);
    }
    if !plan.writeChunks.List? || plan.writeChunks.items == [] {
      return Err("write_chunks must not be empty");
    }
    var eraseEnd := erase.value.start + erase.value.len;
    r := CheckChunks(plan.writeChunks.items, |image|, baseAddr.value, erase.value.start, eraseEnd);
  }

  method CheckBody(plan: Plan, image: seq<Byte>, base: nat) returns (r: Result<()>)
    ensures r.Ok? <==> BodyOk(plan, image, base)
  {
    if !EqualsInt(plan.imageLen, |image|) {
      return Err("plan image_len does not match image file size");
    }
    var body := RequireRange(plan.bodyRange, BODY_RANGE);
    if body.Err? {
      return Err(body.message);
    }
    var bodyEnd := body.value.start + body.value.len;
    if bodyEnd > |image| {
      return Err("body_range extends beyond the image");
    }
    if !EqualsInt(Get(plan.bodyRange.fields, "flash_addr"), base + body.value.start) {
      return Err("body_range flash_addr does not match base_addr + image_offset");
    }
    if !EqualsInt(plan.codeAreaLen, body.value.len) {
      return Err("code_area_len does not match body_range.len");
    }
    r := CheckHash(plan.codeAreaHash, image[body.value.start..bodyEnd]);
  }

  method CheckHash(expected: Value, body: seq<Byte>) returns (r: Result<()>)
    ensures r.Ok? <==> Lists(expected, Sha256Spec.Sha256(body))
  {
    var actual := Sha256Spec.Sha256(body);
    BytesExact(expected, actual);
    if !IsByteList(expected) {
      return Err("code_area_hash must contain exactly 32 bytes");
    }
    if actual != BytesOf(expected) {
      return Err("code_area_hash does not match the planned image body");
    }
    return Ok(());
  }

  method CheckErase(plan: Plan, image: seq<Byte>, base: nat) returns (r: Result<Range>)
    ensures r.Ok? <==> EraseOk(plan, image, base)
    ensures r.Ok? ==> r.value == RangeOf(plan.eraseRange, "start")
  {
    r := RequireRange(plan.eraseRange, ERASE_RANGE);
    if r.Ok? && (r.value.start > base || r.value.start + r.value.len < base + |image|) {
      return Err("erase_range does not cover the complete planned image");
    }
  }

  method CheckChunks(values: seq<Value>, imageLen: nat, baseAddr: int, eraseStart: int, eraseEnd: int)
    returns (r: Result<()>)
    ensures r.Ok? <==> ChunksOk(values, imageLen, baseAddr, eraseStart, eraseEnd)
                       && ExactCover(PartsOf(values, imageLen), imageLen)
  {
    var covered := [];
    for k := 0 to |values|
      invariant ChunksOk(values[..k], imageLen, baseAddr, eraseStart, eraseEnd)
      invariant covered == PartsOf(values[..k], imageLen)
    {
      var chunk := RequireChunk(values[k], imageLen, baseAddr, eraseStart, eraseEnd);
      if chunk.Err? {
        assert values[k] in values;
        return Err(chunk.message);
      }
      assert values[..k + 1] == values[..k] + [values[k]];
      covered := covered + [chunk.value];
    }
    assert values[..|values|] == values;
    var sorted := SortChunks(covered);
    CoverIsTiling(covered, sorted, imageLen);
    var cursor := 0;
    for k := 0 to |sorted|
      invariant Tiles(sorted, 0, imageLen) <==> Tiles(sorted[k..], cursor, imageLen)
    {
      if sorted[k].start != cursor {
        return Err("write_chunks must cover the complete image exactly once");
      }
      cursor := sorted[k].end;
    }
    if cursor != imageLen {
      return Err("write_chunks must cover the complete image exactly once");
    }
    return Ok(());
  }

  /** The sorted chunks tile the image exactly when the chunks, in any order, cover each byte once. */
  lemma CoverIsTiling(covered: seq<Chunk>, sorted: seq<Chunk>, len: nat)
    requires Sorted(sorted) && multiset(sorted) == multiset(covered) && Inside(covered, 0, len)
    ensures Tiles(sorted, 0, len) <==> ExactCover(covered, len)
  {
    forall c | c in sorted
      ensures 0 <= c.start < c.end <= len
    {
      assert c in multiset(covered);
    }
    forall i
      ensures Count(sorted, i) == Count(covered, i)
    {
      CountPermuted(sorted, covered, i);
    }
    if Tiles(sorted, 0, len) {
      forall i | 0 <= i < len
        ensures Count(covered, i) == 1
      {
        TilesCount(sorted, 0, len, i);
      }
    }
    if ExactCover(covered, len) {
      CoverTiles(sorted, 0, len);
    }
  }

  // ----- writing to flash

  /** Write each listed part of the image at the address listed with it. */
  ghost function Flashed(flash: seq<Byte>, image: seq<Byte>, values: seq<Value>): (r: seq<Byte>)
    requires AllNameParts(values, |image|)
    ensures |r| == |flash|
    decreases |values|
  {
    if values == [] then flash
    else
      var part := PartOf(values[0], |image|);
      Flashed(Program(flash, AddrOf(values[0]).value, image[part.start..part.end]), image, values[1..])
  }

  predicate AtItsPlace(value: Value, base: nat) {
    AddrOf(value).Some? && OffsetOf(value).Some? && AddrOf(value).value == base + OffsetOf(value).value
  }

  lemma FirstPart(values: seq<Value>, imageLen: nat)
    requires values != [] && AllNameParts(values, imageLen)
    ensures values[0] in values && NamesPart(values[0], imageLen) && AllNameParts(values[1..], imageLen)
    ensures PartsOf(values, imageLen) == [PartOf(values[0], imageLen)] + PartsOf(values[1..], imageLen)
  {
  }

  /** At these addresses each part lands behind the base. */
  lemma {:induction false} FlashedAtBase(flash: seq<Byte>, image: seq<Byte>, values: seq<Value>, base: nat)
    requires AllNameParts(values, |image|) && forall v :: v in values ==> AtItsPlace(v, base)
    ensures Flashed(flash, image, values) == WriteChunks(flash, image, base, PartsOf(values, |image|))
    decreases |values|
  {
    if values != [] {
      FirstPart(values, |image|);
      assert AtItsPlace(values[0], base);
      FlashedAtBase(WriteChunk(flash, image, base, PartOf(values[0], |image|)), image, values[1..], base);
    }
  }

  lemma {:induction false} PartsPermuted(s: seq<Value>, t: seq<Value>, imageLen: nat)
    requires multiset(s) == multiset(t) && AllNameParts(s, imageLen) && AllNameParts(t, imageLen)
    ensures multiset(PartsOf(s, imageLen)) == multiset(PartsOf(t, imageLen))
    decreases |s|
  {
    if s == [] {
      assert |multiset(s)| == |s| && |multiset(t)| == |t|;
    } else {
      var k := HeadElsewhere(s, t);
      var rest := t[..k] + t[k + 1..];
      var parts := PartsOf(t, imageLen);
      assert PartsOf(s, imageLen)[1..] == PartsOf(s[1..], imageLen);
      assert parts[..k] + parts[k + 1..] == PartsOf(rest, imageLen);
      PartsPermuted(s[1..], rest, imageLen);
      TailMultiset(PartsOf(s, imageLen));
      MultisetWithout(parts, k);
      SameButOne(multiset(PartsOf(s, imageLen)), multiset(parts), parts[k]);
    }
  }

  lemma SameButOne(m: multiset<Chunk>, n: multiset<Chunk>, c: Chunk)
    requires c in m && c in n && m - multiset{c} == n - multiset{c}
    ensures m == n
  {
    assert m == m - multiset{c} + multiset{c} && n == n - multiset{c} + multiset{c};
  }

  /** Good chunks, written in any order over the erased range. */
  lemma ChunksWriteImage(items: seq<Value>, order: seq<Value>, image: seq<Byte>, base: nat, start: nat, end: nat,
                         flash: seq<Byte>, a: nat)
    requires ChunksOk(items, |image|, base, start, end) && ExactCover(PartsOf(items, |image|), |image|)
    requires multiset(order) == multiset(items)
    requires start <= base && base + |image| <= end <= |flash| && a < |flash|
    ensures AllNameParts(order, |image|)
    ensures Flashed(Erased(flash, start, end), image, order)[a] ==
            if base <= a < base + |image| then image[a - base] else if start <= a < end then 0xFF else flash[a]
  {
    forall v | v in order
      ensures NamesPart(v, |image|) && AtItsPlace(v, base)
    {
      assert v in multiset(items) && ChunkOk(v, |image|, base, start, end);
    }
    PartsPermuted(order, items, |image|);
    FlashedAtBase(Erased(flash, start, end), image, order, base);
    AnyOrderWrites(PartsOf(items, |image|), PartsOf(order, |image|), image, base, start, end, flash, a);
  }

  /** What a good plan says of its chunks. */
  lemma GoodChunks(plan: Plan, image: seq<Byte>, expectedBase: Option<int>, base: int, erase: Range)
    requires GoodPlan(plan, image, expectedBase)
    requires AsInt(plan.baseAddr) == Some(base)
    requires HasRange(plan.eraseRange, "start") && RangeOf(plan.eraseRange, "start") == erase
    ensures 0 <= base && 0 <= erase.start <= base && base + |image| <= erase.start + erase.len
    ensures plan.writeChunks.List?
    ensures ChunksOk(plan.writeChunks.items, |image|, base, erase.start, erase.start + erase.len)
    ensures ExactCover(PartsOf(plan.writeChunks.items, |image|), |image|)
  {
  }

  /** What acceptance buys: erase the range, write the listed chunks in any order, each at its own
      address, and flash holds the image at its base, 0xFF in the rest of the erased range, and
      everything else as before. */
  lemma AcceptedPlanWritesImage(plan: Plan, image: seq<Byte>, expectedBase: Option<int>, base: int, erase: Range,
                                order: seq<Value>, flash: seq<Byte>, a: nat)
    requires GoodPlan(plan, image, expectedBase)
    requires AsInt(plan.baseAddr) == Some(base)
    requires HasRange(plan.eraseRange, "start") && RangeOf(plan.eraseRange, "start") == erase
    requires erase.start + erase.len <= |flash| && a < |flash|
    requires multiset(order) == multiset(plan.writeChunks.items)
    ensures 0 <= erase.start <= erase.start + erase.len <= |flash| && AllNameParts(order, |image|)
    ensures Flashed(Erased(flash, erase.start, erase.start + erase.len), image, order)[a] ==
            if base <= a < base + |image| then image[a - base]
            else if erase.start <= a < erase.start + erase.len then 0xFF
            else flash[a]
  {
    GoodChunks(plan, image, expectedBase, base, erase);
    ChunksWriteImage(plan.writeChunks.items, order, image, base, erase.start, erase.start + erase.len, flash, a);
  }
}
