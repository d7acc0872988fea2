/** The packet buffer of the lwIP seam (chips/ws63/rf/src/netif.rs): one allocation of a header, an
    80-byte reserve, the packet and a 4-byte tail, a payload window that moves inside it, and a
    reference count. */
module Pbuf {
  const HEADER: nat := 32
  const RESERVE: nat := 80
  const TAILROOM: nat := 4
  const U16_LIMIT: nat := 0x1_0000
  const ADDRESS_LIMIT: nat := 0x8000_0000 // isize::MAX + 1 on the 32-bit target

  /** The largest length whose allocation size fits in the 16 bits of `malloc_len`. */
  const LENGTH_KEPT: nat := 65419

  type U16 = x: nat | x < U16_LIMIT

  type I16 = x: int | -0x8000 <= x < 0x8000

  function AllocationSize(length: U16): nat { HEADER + RESERVE + length + TAILROOM }

  // ----- the payload window

  /** How much of the packet and its reserve is exposed when `headroom` bytes in front are not. */
  function Exposed(length: U16, headroom: int): int { RESERVE + length - headroom }

  /** Moving by h exposes at most the bytes in front and hides at most the bytes exposed. */
  predicate Accepts(length: U16, headroom: int, h: int) {
    length <= LENGTH_KEPT && -Exposed(length, headroom) <= h <= headroom
  }

  /** The headroom after a series of calls, refused ones changing nothing. */
  function Moved(length: U16, headroom: int, moves: seq<int>): (r: int)
    requires 0 <= headroom <= RESERVE + length
    ensures 0 <= r <= RESERVE + length
    decreases |moves|
  {
    if moves == [] then headroom
    else Moved(length, if Accepts(length, headroom, moves[0]) then headroom - moves[0] else headroom, moves[1..])
  }

  predicate AllAccepted(length: U16, headroom: int, moves: seq<int>)
    decreases |moves|
  {
    moves == [] || (Accepts(length, headroom, moves[0]) && AllAccepted(length, headroom - moves[0], moves[1..]))
  }

  function Sum(moves: seq<int>): int {
    if moves == [] then 0 else moves[0] + Sum(moves[1..])
  }

  /** Accepted moves add up: however a header is exposed and hidden, one move of the sum does the same. */
  lemma {:induction false} MovesAddUp(length: U16, headroom: int, moves: seq<int>)
    requires 0 <= headroom <= RESERVE + length
    requires AllAccepted(length, headroom, moves) && moves != []
    ensures Accepts(length, headroom, Sum(moves))
    ensures Moved(length, headroom, moves) == headroom - Sum(moves) == Moved(length, headroom, [Sum(moves)])
    decreases |moves|
  {
    assert [Sum(moves)][1..] == [];
    if |moves| > 1 {
      MovesAddUp(length, headroom - moves[0], moves[1..]);
    }
  }

  /** An accepted move is undone by the opposite one, which 16 bits hold for every h but -0x8000. */
  lemma Undone(length: U16, headroom: int, h: int)
    requires 0 <= headroom <= RESERVE + length
    requires -0x8000 < h < 0x8000 && Accepts(length, headroom, h)
    ensures Accepts(length, headroom - h, -h)
    ensures Moved(length, headroom, [h, -h]) == headroom
  {
    assert [-h][1..] == [];
    assert Moved(length, headroom - h, [-h]) == headroom;
    assert [h, -h][1..] == [-h];
  }

  /** Beyond LENGTH_KEPT nothing moves, not even by 0: the size kept in `malloc_len` was cut to 16 bits. */
  lemma {:induction false} StuckExactly(length: U16, headroom: int)
    requires 0 <= headroom <= RESERVE + length
    ensures (forall moves: seq<int> :: Moved(length, headroom, moves) == headroom)
        <==> length > LENGTH_KEPT
  {
    if length <= LENGTH_KEPT {
      var h := if headroom > 0 then 1 else -1;
      assert [h][1..] == [];
      assert Moved(length, headroom, [h]) == headroom - h;
    } else {
      forall moves: seq<int>
        ensures Moved(length, headroom, moves) == headroom
      {
        StaysPut(length, headroom, moves);
      }
    }
  }

  lemma {:induction false} StaysPut(length: U16, headroom: int, moves: seq<int>)
    requires 0 <= headroom <= RESERVE + length && length > LENGTH_KEPT
    ensures Moved(length, headroom, moves) == headroom
    decreases |moves|
  {
    if moves != [] {
      StaysPut(length, headroom, moves[1..]);
    }
  }

  // ----- the reference count

  datatype Call = Ref | Free

  function RefCount(calls: seq<Call>): (count: nat) {
    if calls == [] then 1
    else
      var before := RefCount(calls[..|calls| - 1]);
      match calls[|calls| - 1]
      case Ref => before + 1
      case Free => if before > 1 then before - 1 else 0
  }

  /** The i-th call is the pbuf_free that gives the memory back. */
  predicate Releases(calls: seq<Call>, i: nat)
    requires i < |calls|
  {
    calls[i].Free? && RefCount(calls[..i]) <= 1
  }

  /** Nothing is called on a buffer that was given back. */
  ghost predicate InUse(calls: seq<Call>) {
    forall i: nat :: i < |calls| ==> !Releases(calls, i)
  }

  function Number(calls: seq<Call>, c: Call): nat {
    if calls == [] then 0
    else Number(calls[..|calls| - 1], c) + if calls[|calls| - 1] == c then 1 else 0
  }

  /** One reference from the allocation, one for each pbuf_ref, one less for each pbuf_free. */
  lemma {:induction false} CountIsBalance(calls: seq<Call>)
    requires InUse(calls)
    ensures RefCount(calls) == 1 + Number(calls, Ref) - Number(calls, Free)
    ensures RefCount(calls) > 0
  {
    if calls != [] {
      var n := |calls| - 1;
      var before := calls[..n];
      forall i: nat | i < n
        ensures !Releases(before, i)
      {
        assert before[..i] == calls[..i];
        assert !Releases(calls, i);
      }
      CountIsBalance(before);
      assert !Releases(calls, n);
    }
  }

  /** With k pbuf_ref calls so far it is the (k+1)-th pbuf_free that releases, in whatever order they came. */
  lemma ReleasedByTheLastReference(calls: seq<Call>)
    requires InUse(calls)
    ensures Releases(calls + [Free], |calls|) <==> Number(calls + [Free], Free) == Number(calls + [Free], Ref) + 1
    ensures !Releases(calls + [Ref], |calls|)
  {
    var last := calls + [Free];
    CountIsBalance(calls);
    assert last[..|calls|] == calls;
  }

  // ----- the buffer

  class PacketBuffer {
    const address: nat
    ghost const length: U16 // asked of pbuf_alloc
    var payload: int
    var totLen: U16
    var len: U16
    var mallocLen: U16
    var refCount: int
    ghost var calls: seq<Call>

    /** The window lies between the header and the tail, and its end never moves. */
    ghost predicate Valid()
      reads this
    {
      && address + AllocationSize(length) < ADDRESS_LIMIT
      && mallocLen == AllocationSize(length) % U16_LIMIT
      && address + HEADER <= payload
      && payload + len == address + HEADER + RESERVE + length
      && totLen == len
      && InUse(calls) && refCount == RefCount(calls)
    }

    ghost function Headroom(): (r: int)
      requires Valid()
      reads this
      ensures 0 <= r <= RESERVE + length
      ensures len == Exposed(length, r)
    {
      payload - address - HEADER
    }

    /** `pbuf_alloc`, given the address of the memory it got. */
    constructor (address: nat, length: U16)
      requires address + AllocationSize(length) < ADDRESS_LIMIT
      ensures Valid() && this.address == address && this.length == length
      ensures Headroom() == RESERVE && len == length && calls == []
    {
      this.address := address;
      this.length := length;
      payload := address + HEADER + RESERVE;
      totLen, len := length, length;
      mallocLen := AllocationSize(length) % U16_LIMIT;
      refCount := 1;
      calls := [];
    }

    /** `pbuf_header`. */
    method Header(headerSize: I16) returns (status: nat)
      requires Valid()
      modifies `payload, `len, `totLen
      ensures Valid()
      ensures status == if Accepts(length, old(Headroom()), headerSize) then 0 else 1
      ensures Headroom() == Moved(length, old(Headroom()), [headerSize])
      ensures payload + len == old(payload + len)
    {
      SizeKept(length);
      assert [headerSize as int][1..] == [];
      var newLen := len + headerSize;
      var newTotLen := totLen + headerSize;
      var newPayload := payload - headerSize;
      var base := address + HEADER;
      var end := address + mallocLen;
      if || newLen < 0 || newLen > U16_LIMIT - 1
         || newTotLen < 0 || newTotLen > U16_LIMIT - 1
         || newPayload < base
         || newPayload + newLen > end
      {
        return 1;
      }
      payload := newPayload;
      len := newLen;
      totLen := newTotLen;
      return 0;
    }

    /** `pbuf_ref`, while the 32-bit count has room. */
    method Ref()
      requires Valid() && refCount < 0x7FFF_FFFF
      modifies `refCount, `calls
      ensures Valid() && calls == old(calls) + [Call.Ref]
    {
      InUseExtends(calls, Call.Ref);
      refCount := refCount + 1;
      calls := calls + [Call.Ref];
    }

    /** `pbuf_free`: the number of buffers given back. */
    method Free() returns (freed: nat)
      requires Valid()
      modifies `refCount, `calls
      ensures calls == old(calls) + [Call.Free]
      ensures freed == if Number(calls, Call.Free) == Number(calls, Call.Ref) + 1 then 1 else 0
      ensures freed == 0 ==> Valid()
      ensures freed == 1 ==> refCount == 0 && Releases(calls, |calls| - 1)
    {
      InUseExtends(calls, Call.Free);
      ReleasedByTheLastReference(calls);
      if refCount > 1 {
        refCount := refCount - 1;
        freed := 0;
      } else {
        refCount := 0;
        freed := 1;
      }
      calls := calls + [Call.Free];
    }
  }

  lemma SizeKept(length: U16)
    ensures length <= LENGTH_KEPT ==> AllocationSize(length) % U16_LIMIT == AllocationSize(length)
    ensures length > LENGTH_KEPT ==> AllocationSize(length) % U16_LIMIT == AllocationSize(length) - U16_LIMIT
  {
  }

  lemma InUseExtends(calls: seq<Call>, c: Call)
    requires InUse(calls)
    ensures (calls + [c])[..|calls|] == calls
    ensures InUse(calls + [c]) <==> !Releases(calls + [c], |calls|)
  {
    var after := calls + [c];
    assert after[..|calls|] == calls;
    forall i: nat | i < |calls|
      ensures !Releases(after, i)
    {
      assert after[..i] == calls[..i];
      assert !Releases(calls, i);
    }
  }
}
