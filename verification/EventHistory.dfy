/** The retained WPA driver events (chips/ws63/rf/src/eloop_diag.rs): 32 slots written in turn, a
    32-bit total that stops at its maximum, and the copy in chronological order. */
module EventHistory {
  import opened Arithmetic
  import opened Words

  const SLOTS: nat := 32
  const TOTAL_MAX: nat := WORD_LIMIT - 1

  /** What the driver hands over. */
  datatype Packet = Packet(command: Word, length: Word, payload0: Word)

  datatype DriverEvent = DriverEvent(sequence: Word, packet: Packet)

  /** The event made of the i-th packet, counting from 0. */
  function Numbered(packets: seq<Packet>, i: nat): DriverEvent
    requires i < |packets|
  {
    DriverEvent(Min(i + 1, TOTAL_MAX), packets[i])
  }

  /** The events of the last min(n, 32) of n packets, oldest first. */
  function LastEvents(packets: seq<Packet>): (events: seq<DriverEvent>)
    ensures |events| == Min(|packets|, SLOTS)
  {
    var retained := Min(|packets|, SLOTS);
    seq(retained, i requires 0 <= i < retained => Numbered(packets, |packets| - retained + i))
  }

  /** Recording appends, and forgets the oldest event when all the slots are taken. */
  lemma RecordingSlides(packets: seq<Packet>, packet: Packet)
    ensures var before, after := LastEvents(packets), LastEvents(packets + [packet]);
            var event := DriverEvent(Min(|packets| + 1, TOTAL_MAX), packet);
            after == if |packets| < SLOTS then before + [event] else before[1..] + [event]
  {
    var before, after := LastEvents(packets), LastEvents(packets + [packet]);
    var kept := if |packets| < SLOTS then before else before[1..];
    forall k: nat | k < |kept|
      ensures after[k] == kept[k]
    {
      var first := |packets| + 1 - |after|;
      assert after[k] == Numbered(packets + [packet], first + k) == Numbered(packets, first + k);
    }
    assert after[|kept|] == Numbered(packets + [packet], |packets|);
    assert after == kept + [DriverEvent(Min(|packets| + 1, TOTAL_MAX), packet)];
  }

  /** The numbers tell the retained events apart, and order them, exactly while the counter has not stopped. */
  lemma NumbersTellApart(packets: seq<Packet>)
    ensures (forall i, j :: 0 <= i < j < |LastEvents(packets)|
                         ==> LastEvents(packets)[i].sequence < LastEvents(packets)[j].sequence)
        <==> |packets| <= TOTAL_MAX
  {
    var events := LastEvents(packets);
    var first := |packets| - |events|;
    forall i: nat | i < |events|
      ensures events[i].sequence == Min(first + i + 1, TOTAL_MAX)
    {
      assert events[i] == Numbered(packets, first + i);
    }
    if |packets| > TOTAL_MAX {
      assert !(events[SLOTS - 2].sequence < events[SLOTS - 1].sequence);
    }
  }

  function SlotOf(i: nat): (slot: nat)
    ensures slot < SLOTS
  {
    i % SLOTS
  }

  /** Packets less than 32 apart have slots of their own, and the next packet has the next slot. */
  lemma SlotsInTurn(i: nat, n: nat)
    requires i < n
    ensures n < i + SLOTS ==> SlotOf(i) != SlotOf(n)
    ensures SlotOf(SlotOf(i) + (n - i)) == SlotOf(n)
  {
    var p, q := i / SLOTS, n / SLOTS;
    assert i == SLOTS * p + SlotOf(i) && n == SLOTS * q + SlotOf(n);
    QuotientRemainder(SlotOf(i) + (n - i), SLOTS, q - p, SlotOf(n));
  }

  lemma SameSlot(n: nat)
    ensures SlotOf(n + SLOTS) == SlotOf(n)
  {
    QuotientRemainder(n + SLOTS, SLOTS, n / SLOTS + 1, SlotOf(n));
  }

  /** Counting from the slot after the newest, or from 0, goes through the retained packets in order. */
  lemma OldestFirst(n: nat, offset: nat)
    requires offset < Min(n, SLOTS)
    ensures SlotOf((if n > SLOTS then SlotOf(n) else 0) + offset) == SlotOf(n - Min(n, SLOTS) + offset)
  {
    if n > SLOTS {
      SameSlot(n - SLOTS);
      QuotientRemainder(SlotOf(n), SLOTS, 0, SlotOf(n));
      if offset > 0 {
        SlotsInTurn(n - SLOTS, n - SLOTS + offset);
      }
    }
  }

  class DriverEventHistory {
    const entries: array<DriverEvent>
    var next: nat
    var total: Word
    ghost var packets: seq<Packet> // all that was ever recorded

    ghost predicate Valid()
      reads this, entries
    {
      && entries.Length == SLOTS
      && next == SlotOf(|packets|)
      && total == Min(|packets|, TOTAL_MAX)
      && forall i: nat :: i < |packets| <= i + SLOTS ==> entries[SlotOf(i)] == Numbered(packets, i)
    }

    constructor ()
      ensures Valid() && fresh(entries) && packets == []
    {
      entries := new DriverEvent[SLOTS](i => DriverEvent(0, Packet(0, 0, 0)));
      next, total, packets := 0, 0, [];
    }

    /** `record_driver_event`. */
    method Record(command: Word, length: Word, payload0: Word)
      requires Valid()
      modifies this, entries
      ensures Valid() && packets == old(packets) + [Packet(command, length, payload0)]
    {
      ghost var n := |packets|;
      forall i: nat | i < n < i + SLOTS
        ensures SlotOf(i) != SlotOf(n)
      {
        SlotsInTurn(i, n);
      }
      SlotsInTurn(n, n + 1);
      total := if total < TOTAL_MAX then total + 1 else TOTAL_MAX;
      var index := next;
      entries[index] := DriverEvent(total, Packet(command, length, payload0));
      next := (index + 1) % SLOTS;
      packets := packets + [Packet(command, length, payload0)];
    }

    /** Where the copy finds its first event. */
    function Oldest(): nat
      reads this
    {
      if total > SLOTS then next else 0
    }

    lemma EntryInOrder(offset: nat)
      requires Valid() && offset < Min(|packets|, SLOTS)
      ensures entries[SlotOf(Oldest() + offset)] == LastEvents(packets)[offset]
    {
      OldestFirst(|packets|, offset);
      assert LastEvents(packets)[offset] == Numbered(packets, |packets| - Min(|packets|, SLOTS) + offset);
    }

    /** `driver_events`: the oldest of the retained events, as many as the output holds. */
    method DriverEvents(output: array<DriverEvent>) returns (count: nat)
      requires Valid() && output != entries
      modifies output
      ensures count == Min(|LastEvents(packets)|, output.Length)
      ensures output[..] == LastEvents(packets)[..count] + old(output[..])[count..]
    {
      var retained := Min(total, SLOTS);
      count := Min(retained, output.Length);
      var oldest := Oldest();
      ghost var last := LastEvents(packets);
      for offset := 0 to count
        invariant Valid() && oldest == Oldest()
        invariant forall k :: 0 <= k < offset ==> output[k] == last[k]
        invariant forall k :: offset <= k < output.Length ==> output[k] == old(output[k])
      {
        CopyEvent(output, offset, oldest);
      }
    }

    method CopyEvent(output: array<DriverEvent>, offset: nat, oldest: nat)
      requires Valid() && output != entries && oldest == Oldest()
      requires offset < Min(|packets|, SLOTS) && offset < output.Length
      modifies output
      ensures output[offset] == LastEvents(packets)[offset]
      ensures forall k :: 0 <= k < output.Length && k != offset ==> output[k] == old(output[k])
    {
      EntryInOrder(offset);
      output[offset] := entries[SlotOf(oldest + offset)];
    }
  }
}
